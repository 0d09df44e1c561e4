# Voting_Dapp on-chain program — a verified Dafny model

The repository's record types, error names and web client are those of a voting program: create a poll, register candidates and cast one vote per voter. The Rust program it ships compiles something smaller. `anchor/programs/Voting_Dapp/src/lib.rs` declares no `state`, `instructions` or `error` module. What it builds is the Anchor counter program: one account, `VotingDapp { count: u8 }`, and five instructions over it. The voting records and the `InitializePoll` accounts struct exist only as source files beside it. No handler for a poll, a candidate or a vote exists, and the three declared errors are never raised.

This project models the two pieces of that code that have a precise meaning.

- **The counter program** (`counter.dfy`, module `VotingDappCounter`). The account is the class `VotingDapp`, with a mutable `count` field and one method per instruction.
  - `increment` uses `checked_add(1).unwrap()` and `decrement` uses `checked_sub(1).unwrap()`. On overflow or underflow the `unwrap` panics. The transaction then aborts and the count keeps its old value.
  - `set` overwrites the count.
  - `initialize` and `close` have empty bodies and always succeed.
  - The pure function `Execute` gives each instruction's effect, and `Commit` applies the rule that an aborted transaction writes nothing. Each method's contract is tied to these functions: its new count is `Commit` of the old count and its instruction. The lemmas cover the boundary cases, set idempotence, increment/decrement inverses and whole instruction sequences.
- **The poll account rule** (`initialize_poll.rs`, modelled in `initialize_poll.dfy`, `little_endian.dfy` and `account_state.dfy`).
  - A poll's seed list is the one seed `poll_id.to_le_bytes()`, with no namespace prefix.
  - The account's space is `8 + Poll::INIT_SPACE = 332` bytes.
  - The model proves that the encoding has 8 bytes and is little-endian byte by byte. It proves both round trips with decoding, injectivity, and that the test's seed for poll 1 equals the program's.
  - It also gives the Borsh layout of a `Poll`. Using that layout, it proves that the reserved space holds exactly the polls whose description is at most 280 bytes.
  - The address derivation (hash plus bump search) is a function parameter `derive` from seed lists to 32-byte keys.

The record types `Poll`, `Candidate`, `Voter` and `VotingAccount` are mirrored as datatypes.

Two points in the source disagree with what the rest of the repository suggests. The model follows the program's code in both:
- The client defines `POLL_SEED = "poll"` (`src/components/Voting_Dapp/useVotingDappProgram.tsx:25`) and derives poll addresses from `["poll", id]` (lines 120-123), so it would not find the program's poll account. The program's seed list at `anchor/programs/Voting_Dapp/src/instructions/initialize_poll.rs:12` holds the id alone.
- `anchor/programs/Voting_Dapp/src/error.rs:3-10` declares `InvalidPollDuration`, `AlreadyVoted` and `Overflow`, but no handler raises them. The counter's only failure is the `unwrap` panic.

The client also encodes candidate indices with 8 bytes when registering (lines 184-188) but 4 bytes when voting (lines 255-259). These client mismatches are noted here and are not modelled as behaviour.

## Model

| member | source | states |
|---|---|---|
| `VotingDappCounter.CheckedAdd` | anchor/programs/Voting_Dapp/src/lib.rs:21 | the sum is returned exactly when it is at most 255 and then equals the mathematical sum; otherwise `None` |
| `VotingDappCounter.CheckedSub` | anchor/programs/Voting_Dapp/src/lib.rs:16 | the difference is returned exactly when it is not negative and then equals the mathematical difference; otherwise `None` |
| `VotingDappCounter.Unwrap` | anchor/programs/Voting_Dapp/src/lib.rs:21 | `unwrap` succeeds exactly on `Some` and passes its value on; `None` becomes an aborting panic |
| `VotingDappCounter.Execute` | anchor/programs/Voting_Dapp/src/lib.rs:11-32 | only `increment` and `decrement` can fail: `increment` succeeds iff count < 255, `decrement` iff count > 0; on success the count becomes `v` for `set(v)` and otherwise moves by +1, -1 or 0 |
| `VotingDappCounter.IncrementSpec` | anchor/programs/Voting_Dapp/src/lib.rs:20-23 | below 255, `increment` yields count + 1; at 255 it panics and the committed count stays 255 |
| `VotingDappCounter.DecrementSpec` | anchor/programs/Voting_Dapp/src/lib.rs:15-18 | above 0, `decrement` yields count - 1; at 0 it panics and the committed count stays 0 (no wrap to 255) |
| `VotingDappCounter.SetIdempotent` | anchor/programs/Voting_Dapp/src/lib.rs:29-32 | `set(v)` leaves `v` from any count, and setting twice equals setting once |
| `VotingDappCounter.IncrementDecrementInverse` | anchor/programs/Voting_Dapp/src/lib.rs:15-23 | a committed `increment` followed by `decrement` restores the count, and a committed `decrement` followed by `increment` does too |
| `VotingDappCounter.RunWithoutSet` | anchor/programs/Voting_Dapp/src/lib.rs:15-23 | if every transaction of a sequence without `set` commits, the final count is the start plus increments minus decrements, and that running total stays within 0..255 after every prefix |
| `VotingDappCounter.VotingDapp.constructor` | anchor/programs/Voting_Dapp/src/lib.rs:40-45 | a freshly created account holds count 0 |
| `VotingDappCounter.VotingDapp.Initialize` | anchor/programs/Voting_Dapp/src/lib.rs:25-27 | `initialize` always succeeds and leaves the count as `Commit` gives it, i.e. unchanged |
| `VotingDappCounter.VotingDapp.Increment` | anchor/programs/Voting_Dapp/src/lib.rs:20-23 | commits iff the old count is below 255, and then the count is one more; otherwise aborts with a panic and the count is unchanged |
| `VotingDappCounter.VotingDapp.Decrement` | anchor/programs/Voting_Dapp/src/lib.rs:15-18 | commits iff the old count is above 0, and then the count is one less; otherwise aborts with a panic and the count is unchanged |
| `VotingDappCounter.VotingDapp.Set` | anchor/programs/Voting_Dapp/src/lib.rs:29-32 | always commits and the count becomes `value` |
| `VotingDappCounter.VotingDapp.Close` | anchor/programs/Voting_Dapp/src/lib.rs:11-13 | `close` always succeeds and leaves the count as `Commit` gives it, i.e. unchanged |
| `LittleEndian.LeBytes` | anchor/programs/Voting_Dapp/src/instructions/initialize_poll.rs:12 | the encoding of a number at a given width has exactly that many bytes |
| `LittleEndian.LeBytesDigit` | anchor/programs/Voting_Dapp/src/instructions/initialize_poll.rs:12 | byte `i` of the encoding is `(x / 256^i) % 256` (little-endian order) |
| `LittleEndian.FromLeBytes` | anchor/programs/Voting_Dapp/src/instructions/initialize_poll.rs:12 | the value decoded from `n` bytes is below `256^n` |
| `LittleEndian.DecodeEncode` | anchor/programs/Voting_Dapp/src/instructions/initialize_poll.rs:12 | decoding the encoding of any number that fits the width gives the number back |
| `LittleEndian.EncodeDecode` | anchor/programs/Voting_Dapp/src/instructions/initialize_poll.rs:12 | re-encoding a decoded byte string at its own width gives the bytes back |
| `LittleEndian.EncodingInjective` | anchor/programs/Voting_Dapp/src/instructions/initialize_poll.rs:12 | two numbers that fit the width have equal encodings iff they are equal |
| `AccountState.SerializeString` | anchor/programs/Voting_Dapp/src/state/poll.rs:7-8 | a string is stored as 4 + length bytes: a little-endian length prefix that decodes to the length, then the bytes themselves |
| `AccountState.SerializePoll` | anchor/programs/Voting_Dapp/src/state/poll.rs:5-13 | a poll is stored in 44 + description-length bytes; the first 8 decode to `poll_id`, and the description bytes follow the 4-byte prefix |
| `AccountState.PollFitsInitSpace` | anchor/programs/Voting_Dapp/src/state/poll.rs:5-13 | a poll's stored form fits `INIT_SPACE` iff its description is at most 280 bytes, and a 280-byte description fills it exactly |
| `InitializePoll.PollIdBytes` | anchor/programs/Voting_Dapp/src/instructions/initialize_poll.rs:12 | `poll_id.to_le_bytes()` has exactly 8 bytes and decodes back to `poll_id` |
| `InitializePoll.PollIdBytesDigit` | anchor/programs/Voting_Dapp/src/instructions/initialize_poll.rs:12 | byte `i` of the seed is `(poll_id / 256^i) % 256` |
| `InitializePoll.PollIdFromBytes` | anchor/programs/Voting_Dapp/src/instructions/initialize_poll.rs:12 | decoding any 8 bytes gives the id whose seed they are |
| `InitializePoll.PollSeeds` | anchor/programs/Voting_Dapp/src/instructions/initialize_poll.rs:12 | the seed list has one 8-byte seed and no prefix, and that seed decodes to `poll_id` |
| `InitializePoll.PollSeedsInjective` | anchor/programs/Voting_Dapp/src/instructions/initialize_poll.rs:12 | two polls have equal seed lists iff they have equal ids |
| `InitializePoll.PollAddressesDistinct` | anchor/programs/Voting_Dapp/src/instructions/initialize_poll.rs:9-13 | if the derivation does not collide on their seeds, two polls share an address iff they share an id |
| `InitializePoll.TestSeedsMatchProgram` | anchor/tests/Voting_Dapp.spec.ts:33-36 | the test's seed list for poll 1, `[1,0,0,0,0,0,0,0]`, is the program's seed list for `poll_id = 1` |
| `InitializePoll.PollAccountSpaceSuffices` | anchor/programs/Voting_Dapp/src/instructions/initialize_poll.rs:11 | the account space is 8 + 4 + 280 + 5·8 = 332, and the discriminator plus a poll fit in it iff the description is at most 280 bytes |

## Left out

- Voting transitions (create poll, register candidate, cast vote, the double-vote guard, `votes_cast` equal to the sum of `vote_count`, the poll time window): no handler implements them. `error.rs` only declares the error names.
- Anchor account handling is framework code and is not modelled. This covers `init` creation, rent and lamport transfer, `close = payer` deletion, discriminator and signer checks, and the bump search. Two facts are taken as given. A failed instruction writes nothing. A freshly created account is zero-filled, which is why the constructor starts at count 0. After `Close` the model's object still exists, while on the ledger the account is removed.
- `VotingDappCounter.VotingDapp.Close`: states only that the handler succeeds without writing. The removal of the account by the `close` constraint is not modelled.
- `VotingDappCounter.RunWithoutSet`: covers only sequences without `set`. With `set`, the count stays within 0..255 because of its `u8` type alone.
- The address derivation `find_program_address` (SHA-256 of seeds, program id and bump, searched for a point off the curve) is a function parameter. `InitializePoll.PollAddressesDistinct` assumes it does not collide on the two seed lists in question.
- `initialize_poll.rs` is not reachable from `lib.rs`, which has no `mod instructions`. The model states the account rule as the file declares it, not as a callable instruction.
- `Candidate::INIT_SPACE` (candidate.rs:11) is mirrored as a constant. It is used nowhere in the source and nothing is proved about it.
- The browser side (React components, wallet and RPC hooks, the interface description, the unused `convertIdl`, the wall-clock status helpers) is outside the program.
- Strings are modelled as byte sequences. UTF-8 validity of descriptions and names is not modelled.
