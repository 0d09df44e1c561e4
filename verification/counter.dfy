/**
 * The program that `lib.rs` actually compiles: one account, `VotingDapp`,
 * holding a `u8` counter, and five instructions over it. `increment` and
 * `decrement` use checked arithmetic and `unwrap`, so an overflow or an
 * underflow panics; a panic aborts the whole transaction, and the ledger then
 * keeps the account as it was before the instruction.
 */
module VotingDappCounter {
  import opened LittleEndian

  /** Why an instruction aborted: `unwrap` on the `None` of a checked operation. */
  datatype Error = ArithmeticPanic

  /** What the ledger reports for one instruction. */
  datatype Outcome = Committed | Aborted(reason: Error)

  datatype Instruction = Initialize | Increment | Decrement | Set(value: u8) | Close

  /** The result of executing one instruction: the new count, or the abort reason. */
  datatype Result = Ok(count: u8) | Err(error: Error)

  datatype Option<T> = None | Some(value: T)

  /** `u8::checked_add`: the sum when it is representable, `None` otherwise. */
  function CheckedAdd(a: u8, b: u8): (r: Option<u8>)
    ensures r.Some? <==> a as int + b as int <= 255
    ensures r.Some? ==> r.value as int == a as int + b as int
  {
    if a as int + b as int < 0x100 then Some((a as int + b as int) as u8) else None
  }

  /** `u8::checked_sub`: the difference when it is not negative, `None` otherwise. */
  function CheckedSub(a: u8, b: u8): (r: Option<u8>)
    ensures r.Some? <==> b <= a
    ensures r.Some? ==> r.value as int == a as int - b as int
  {
    if b <= a then Some(a - b) else None
  }

  /** `Option::unwrap` inside an instruction: `None` aborts it. */
  function Unwrap(o: Option<u8>): (r: Result)
    ensures r.Ok? <==> o.Some?
    ensures o.Some? ==> r.count == o.value
  {
    match o
    case Some(v) => Ok(v)
    case None => Err(ArithmeticPanic)
  }

  /** The effect of one instruction's handler on the count. */
  function Execute(count: u8, ins: Instruction): (r: Result)
    ensures ins.Increment? ==> (r.Ok? <==> count < 255)
    ensures ins.Decrement? ==> (r.Ok? <==> count > 0)
    ensures r.Err? ==> ins.Increment? || ins.Decrement?
    ensures r.Ok? ==> r.count as int == if ins.Set? then ins.value as int else count as int + Delta(ins)
  {
    match ins
    case Initialize => Ok(count)
    case Increment => Unwrap(CheckedAdd(count, 1))
    case Decrement => Unwrap(CheckedSub(count, 1))
    case Set(v) => Ok(v)
    case Close => Ok(count)
  }

  /** The count the ledger holds after the transaction: an aborted one writes nothing. */
  function Commit(count: u8, ins: Instruction): (r: u8)
  {
    match Execute(count, ins)
    case Ok(c) => c
    case Err(_) => count
  }

  /** The count after a sequence of transactions, each committing or aborting on its own. */
  function Run(count: u8, trace: seq<Instruction>): (r: u8)
    decreases |trace|
  {
    if trace == [] then count else Run(Commit(count, trace[0]), trace[1..])
  }

  /** Whether every transaction of the sequence commits. */
  predicate AllCommit(count: u8, trace: seq<Instruction>)
    decreases |trace|
  {
    trace == [] || (Execute(count, trace[0]).Ok? && AllCommit(Commit(count, trace[0]), trace[1..]))
  }

  /** What an instruction adds to the count when it commits, `Set` aside. */
  function Delta(ins: Instruction): (r: int)
  {
    match ins
    case Increment => 1
    case Decrement => -1
    case _ => 0
  }

  /** Increments minus decrements in a sequence. */
  function NetDelta(trace: seq<Instruction>): (r: int)
  {
    if trace == [] then 0 else Delta(trace[0]) + NetDelta(trace[1..])
  }

  /** `increment` commits exactly below 255 and then adds one; at 255 it aborts and the count stays. */
  lemma IncrementSpec(count: u8)
    ensures count < 255 ==> Execute(count, Increment) == Ok(count + 1)
    ensures count == 255 ==> Execute(count, Increment) == Err(ArithmeticPanic)
    ensures count == 255 ==> Commit(count, Increment) == 255
  {
  }

  /** `decrement` commits exactly above 0 and then subtracts one; at 0 it aborts, with no wrap to 255. */
  lemma DecrementSpec(count: u8)
    ensures count > 0 ==> Execute(count, Decrement) == Ok(count - 1)
    ensures count == 0 ==> Execute(count, Decrement) == Err(ArithmeticPanic)
    ensures count == 0 ==> Commit(count, Decrement) == 0
  {
  }

  /** `set(v)` leaves `v` whatever the count was, and setting twice is setting once. */
  lemma SetIdempotent(count: u8, v: u8)
    ensures Commit(count, Set(v)) == v
    ensures Commit(Commit(count, Set(v)), Set(v)) == Commit(count, Set(v))
  {
  }

  /** A committed `increment` followed by `decrement` restores the count, and vice versa. */
  lemma IncrementDecrementInverse(count: u8)
    ensures Execute(count, Increment).Ok? ==>
              Execute(Commit(count, Increment), Decrement) == Ok(count)
    ensures Execute(count, Decrement).Ok? ==>
              Execute(Commit(count, Decrement), Increment) == Ok(count)
  {
  }

  /**
   * When every transaction of a sequence without `set` commits, the count
   * moves by the number of increments minus the number of decrements, and
   * that running total never leaves 0..255 at any point of the sequence.
   */
  lemma {:induction false} RunWithoutSet(count: u8, trace: seq<Instruction>)
    requires forall i :: 0 <= i < |trace| ==> !trace[i].Set?
    requires AllCommit(count, trace)
    ensures Run(count, trace) as int == count as int + NetDelta(trace)
    ensures forall k :: 0 <= k <= |trace| ==> 0 <= count as int + NetDelta(trace[..k]) <= 255
    decreases |trace|
  {
    if trace != [] {
      var next := Commit(count, trace[0]);
      assert next as int == count as int + Delta(trace[0]);
      RunWithoutSet(next, trace[1..]);
      forall k | 0 <= k <= |trace|
        ensures 0 <= count as int + NetDelta(trace[..k]) <= 255
      {
        if k > 0 {
          assert trace[..k][1..] == trace[1..][..k - 1];
        }
      }
    }
  }

  /** The `VotingDapp` account. */
  class VotingDapp {
    var count: u8

    /**
     * Account creation by the `init` constraint: a fresh account's data is
     * zero-filled, so the count starts at 0.
     */
    constructor ()
      ensures count == 0
    {
      count := 0;
    }

    /** `initialize`: the handler body does nothing and succeeds. */
    method Initialize() returns (r: Outcome)
      ensures r == Committed
      ensures count == Commit(old(count), Instruction.Initialize)
    {
      r := Committed;
    }

    /** `increment`: `count = count.checked_add(1).unwrap()`. */
    method Increment() returns (r: Outcome)
      modifies this
      ensures r == Committed <==> old(count) < 255
      ensures r == Committed ==> count as int == old(count) as int + 1
      ensures r != Committed ==> r == Aborted(ArithmeticPanic) && count == old(count)
      ensures count == Commit(old(count), Instruction.Increment)
    {
      var sum := CheckedAdd(count, 1);
      if sum.None? {
        return Aborted(ArithmeticPanic);
      }
      count := sum.value;
      r := Committed;
    }

    /** `decrement`: `count = count.checked_sub(1).unwrap()`. */
    method Decrement() returns (r: Outcome)
      modifies this
      ensures r == Committed <==> old(count) > 0
      ensures r == Committed ==> count as int == old(count) as int - 1
      ensures r != Committed ==> r == Aborted(ArithmeticPanic) && count == old(count)
      ensures count == Commit(old(count), Instruction.Decrement)
    {
      var difference := CheckedSub(count, 1);
      if difference.None? {
        return Aborted(ArithmeticPanic);
      }
      count := difference.value;
      r := Committed;
    }

    /** `set(value)`: overwrites the count. */
    method Set(value: u8) returns (r: Outcome)
      modifies this
      ensures r == Committed && count == value
      ensures count == Commit(old(count), Instruction.Set(value))
    {
      count := value;
      r := Committed;
    }

    /**
     * `close`: the handler body does nothing and succeeds; the `close`
     * constraint then removes the account.
     */
    method Close() returns (r: Outcome)
      ensures r == Committed
      ensures count == Commit(old(count), Instruction.Close)
    {
      r := Committed;
    }
  }
}
