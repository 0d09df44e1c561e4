/**
 * The on-chain record types of the voting program (`Poll`, `Candidate`,
 * `Voter`, `VotingAccount`) and the space Anchor reserves for a poll. The
 * records carry no operations of their own; what is stated about them is
 * the account size: the Borsh layout of any poll whose description is within
 * its declared bound fits the space computed for it.
 */
module AccountState {
  import opened LittleEndian

  /** A 32-byte public key (an account address). */
  type Pubkey = s: seq<u8> | |s| == 32 witness seq(32, _ => 0 as u8)

  /** The description bound declared with `#[max_len(280)]`. */
  const DESCRIPTION_MAX_LEN: nat := 280

  datatype Poll = Poll(
    pollId: u64,
    description: seq<u8>,   // UTF-8 bytes
    pollStart: u64,
    pollEnd: u64,
    candidateAmount: u64,
    votesCast: u64)

  datatype Candidate = Candidate(poll: Pubkey, candidateName: seq<u8>, voteCount: u64)

  datatype Voter = Voter(poll: Pubkey, voter: Pubkey, selectedOption: u32, hasVoted: bool)

  datatype VotingAccount = VotingAccount(owner: Pubkey, totalVotes: u64)

  /**
   * `Poll::INIT_SPACE` as `#[derive(InitSpace)]` computes it: 8 bytes for each
   * of the five `u64` fields and, for the bounded string, a 4-byte length
   * prefix plus its maximum length.
   */
  const POLL_INIT_SPACE: nat := 8 + (4 + DESCRIPTION_MAX_LEN) + 8 + 8 + 8 + 8

  /**
   * `Candidate::INIT_SPACE`, written by hand in the source and used nowhere;
   * unlike the derived constants it already includes the 8-byte discriminator.
   */
  const CANDIDATE_INIT_SPACE: nat := 8 + 32 + 4 + 100 + 8

  /** Borsh encoding of a string: a `u32` little-endian byte count, then the bytes. */
  function SerializeString(s: seq<u8>): (r: seq<u8>)
    requires |s| < 0x1_0000_0000
    ensures |r| == 4 + |s|
    ensures FromLeBytes(r[..4]) == |s| && r[4..] == s
  {
    Pow256Widths();
    DecodeEncode(|s|, 4);
    LeBytes(|s|, 4) + s
  }

  /** Borsh encoding of a poll: its fields in declaration order. */
  function SerializePoll(p: Poll): (r: seq<u8>)
    requires |p.description| < 0x1_0000_0000
    ensures |r| == 5 * 8 + 4 + |p.description|
    ensures FromLeBytes(r[..8]) == p.pollId as int
    ensures r[12..12 + |p.description|] == p.description
  {
    Pow256Widths();
    DecodeEncode(p.pollId as nat, 8);
    var head := LeBytes(p.pollId as nat, 8) + SerializeString(p.description);
    assert head[..8] == LeBytes(p.pollId as nat, 8);
    assert head[12..] == p.description;
    var r := head
      + LeBytes(p.pollStart as nat, 8)
      + LeBytes(p.pollEnd as nat, 8)
      + LeBytes(p.candidateAmount as nat, 8)
      + LeBytes(p.votesCast as nat, 8);
    assert r[..|head|] == head;
    assert r[..8] == head[..|head|][..8];
    assert r[..8] == LeBytes(p.pollId as nat, 8);
    assert FromLeBytes(r[..8]) == p.pollId as int;
    r
  }

  /**
   * The reserved space holds a poll exactly when its description is within
   * the declared bound; a description of the maximum length fills it.
   */
  lemma PollFitsInitSpace(p: Poll)
    requires |p.description| < 0x1_0000_0000
    ensures |SerializePoll(p)| <= POLL_INIT_SPACE <==> |p.description| <= DESCRIPTION_MAX_LEN
    ensures |p.description| == DESCRIPTION_MAX_LEN ==> |SerializePoll(p)| == POLL_INIT_SPACE
  {
  }
}
