/**
 * The `InitializePoll` account rule: where a poll lives and how much space
 * it gets. The address of a poll is derived from a seed list holding one
 * seed, the 8-byte little-endian encoding of `poll_id`, with no namespace
 * prefix; the account gets the 8-byte discriminator plus `Poll::INIT_SPACE`.
 *
 * The derivation itself (a hash of the seeds, the program id and a bump,
 * searched for a point off the curve) is not modelled: it enters as a
 * function parameter `derive` from seed lists to addresses.
 */
module InitializePoll {
  import opened LittleEndian
  import opened AccountState

  /** Anchor's account discriminator: the first 8 bytes of every account. */
  const DISCRIMINATOR_LEN: nat := 8

  /** `space = 8 + Poll::INIT_SPACE`. */
  const POLL_ACCOUNT_SPACE: nat := DISCRIMINATOR_LEN + POLL_INIT_SPACE

  /** `poll_id.to_le_bytes()`: eight bytes, byte `i` being digit `i` of the id in base 256. */
  function PollIdBytes(pollId: u64): (r: seq<u8>)
    ensures |r| == 8
    ensures FromLeBytes(r) == pollId as int
  {
    Pow256Widths();
    DecodeEncode(pollId as nat, 8);
    LeBytes(pollId as nat, 8)
  }

  /** Byte `i` of the seed is `(poll_id / 256^i) % 256`. */
  lemma PollIdBytesDigit(pollId: u64, i: nat)
    requires i < 8
    ensures PollIdBytes(pollId)[i] as int == (pollId as int / Pow256(i)) % 256
  {
    LeBytesDigit(pollId as nat, 8, i);
  }

  /** `u64::from_le_bytes`: the id whose seed is `b`. */
  function PollIdFromBytes(b: seq<u8>): (r: u64)
    requires |b| == 8
    ensures PollIdBytes(r) == b
  {
    Pow256Widths();
    EncodeDecode(b);
    FromLeBytes(b) as u64
  }

  /** The seed list of a poll account: the id's encoding alone. */
  function PollSeeds(pollId: u64): (r: seq<seq<u8>>)
    ensures |r| == 1 && |r[0]| == 8
    ensures PollIdFromBytes(r[0]) == pollId
  {
    var seed := PollIdBytes(pollId);
    assert PollIdBytes(PollIdFromBytes(seed)) == seed;
    EncodingInjective(PollIdFromBytes(seed) as nat, pollId as nat, 8);
    [seed]
  }

  /** Two polls share a seed list exactly when they share an id. */
  lemma PollSeedsInjective(a: u64, b: u64)
    ensures PollSeeds(a) == PollSeeds(b) <==> a == b
  {
    if PollSeeds(a) == PollSeeds(b) {
      assert PollIdFromBytes(PollSeeds(a)[0]) == PollIdFromBytes(PollSeeds(b)[0]);
    }
  }

  /** The address of the poll with id `pollId` under the derivation `derive`. */
  function PollAddress(derive: seq<seq<u8>> -> Pubkey, pollId: u64): (r: Pubkey)
  {
    derive(PollSeeds(pollId))
  }

  /**
   * When the derivation does not collide on the seed lists of two polls, the
   * polls share an address exactly when they share an id: an id names one
   * account, and since that account is created with `init`, at most one poll.
   */
  lemma PollAddressesDistinct(derive: seq<seq<u8>> -> Pubkey, a: u64, b: u64)
    requires derive(PollSeeds(a)) == derive(PollSeeds(b)) ==> PollSeeds(a) == PollSeeds(b)
    ensures PollAddress(derive, a) == PollAddress(derive, b) <==> a == b
  {
    PollSeedsInjective(a, b);
  }

  /**
   * The seed list the test builds for poll 1,
   * `new BN(1).toArrayLike(Buffer, "le", 8)`.
   */
  const TEST_POLL_1_SEEDS: seq<seq<u8>> := [[1, 0, 0, 0, 0, 0, 0, 0]]

  /** The test's seed list for poll 1 is the program's. */
  lemma TestSeedsMatchProgram()
    ensures PollSeeds(1) == TEST_POLL_1_SEEDS
  {
    var b := PollIdBytes(1);
    forall i | 0 <= i < 8 ensures b[i] == TEST_POLL_1_SEEDS[0][i] {
      PollIdBytesDigit(1, i);
      if i > 0 {
        assert Pow256(i) >= 256 by { Pow256AtLeast(i); }
      }
    }
    assert b == TEST_POLL_1_SEEDS[0];
    assert PollSeeds(1) == [b];
  }

  /**
   * The account holds the discriminator and any poll whose description is
   * within its bound, and no poll with a longer description.
   */
  lemma PollAccountSpaceSuffices(p: Poll)
    requires |p.description| < 0x1_0000_0000
    ensures POLL_ACCOUNT_SPACE == 8 + 4 + 280 + 5 * 8
    ensures DISCRIMINATOR_LEN + |SerializePoll(p)| <= POLL_ACCOUNT_SPACE
            <==> |p.description| <= DESCRIPTION_MAX_LEN
  {
    PollFitsInitSpace(p);
  }
}
