/** Single-threaded runs of the buffer: a sequence of calls to `push` and `pop`, executed
    attempt by attempt, compared with a bounded first-in first-out queue. With the code as
    written the buffer behaves as a queue that holds at most one value. */
module Runs {
  import opened Wrapping
  import opened Ring

  datatype Op<T> = Push(value: T) | Pop

  /** How a run of calls ends: a call that never returns (the retry loop spins forever),
      a read of an unwritten slot (undefined behaviour), or every call returned, with the
      final state and what each `pop` returned. */
  datatype Run<S, T> = Stalled | Undefined | Done(state: S, popped: seq<Option<T>>)

  function Prepend<S, T>(x: Option<T>, r: Run<S, T>): Run<S, T>
  {
    match r
    case Done(s, out) => Done(s, [x] + out)
    case _ => r
  }

  /** How many `pop` calls `ops` holds. */
  function PopCount<T>(ops: seq<Op<T>>): nat
  {
    if ops == [] then 0 else (if ops[0].Pop? then 1 else 0) + PopCount(ops[1..])
  }

  /** Runs `ops` in one thread with `push` as written (or, when `corrected`, with
      `PushAttemptCorrected`). A push whose attempt does not return is `Stalled`: the
      retry sees the same state again (`FailedPushRepeats`), so it never returns. */
  ghost function Exec<T>(s: RingState<T>, ops: seq<Op<T>>, corrected: bool): (r: Run<RingState<T>, T>)
    requires WellFormed(s)
    ensures r.Done? ==> WellFormed(r.state) && r.state.size == s.size
    ensures r.Done? ==> |r.popped| == PopCount(ops)
    decreases |ops|
  {
    if ops == [] then Done(s, [])
    else
      match ops[0]
      case Push(v) =>
        var step := if corrected then PushAttemptCorrected(s, v) else PushAttempt(s, v);
        if step.done then Exec(step.state, ops[1..], corrected) else Stalled
      case Pop =>
        if !HeadReadable(s) then Undefined
        else
          var step := PopAttempt(s);
          if step.done then Prepend(step.result, Exec(step.state, ops[1..], corrected))
          else Stalled
  }

  /** The reference: a first-in first-out queue holding at most `capacity` values, where
      a push into a full queue waits forever and a pop from an empty one returns `None`. */
  ghost function Fifo<T>(capacity: nat, pending: seq<T>, ops: seq<Op<T>>): (r: Run<seq<T>, T>)
    ensures !r.Undefined?
    ensures r.Done? && |pending| <= capacity ==> |r.state| <= capacity
    decreases |ops|
  {
    if ops == [] then Done(pending, [])
    else
      match ops[0]
      case Push(v) =>
        if |pending| >= capacity then Stalled else Fifo(capacity, pending + [v], ops[1..])
      case Pop =>
        if pending == [] then Prepend(None, Fifo(capacity, [], ops[1..]))
        else Prepend(Some(pending[0]), Fifo(capacity, pending[1..], ops[1..]))
  }

  /** How many values `push` as written can hold: one, unless `size as u32` is zero. */
  function AsWrittenCapacity(size: usize): (c: nat)
    ensures c <= 1
    ensures c == 0 <==> TruncateToU32(size) == 0
  {
    if size % U32_MODULUS == 0 then 0 else 1
  }

  /** The buffer `s` holds exactly the queue `pending`, with the code as written. */
  ghost predicate Holds<T>(s: RingState<T>, pending: seq<T>)
  {
    WellFormed(s) && |pending| <= 1 &&
    (pending == [] ==> s.tail == s.head) &&
    (|pending| == 1 ==>
       s.tail == WrappingAdd(s.head, 1) &&
       s.slots[SlotIndex(s.head, s.mask)] == Written(pending[0]))
  }

  lemma InitHolds<T>(size: usize)
    requires 1 <= size
    ensures Holds(Init<T>(size), [])
  {
  }

  /** A push attempt that does not return leaves a state on which the next attempt does
      exactly the same, in both versions of `push`: the retry loop never exits. */
  lemma FailedPushRepeats<T>(s: RingState<T>, value: T)
    requires WellFormed(s)
    ensures !PushAttempt(s, value).done ==>
              PushAttempt(PushAttempt(s, value).state, value) == PushAttempt(s, value)
    ensures !PushAttemptCorrected(s, value).done ==>
              PushAttemptCorrected(PushAttemptCorrected(s, value).state, value)
                == PushAttemptCorrected(s, value)
  {
  }

  /** A push attempt as written returns exactly when the queue is below capacity: the
      compare-and-swap on `tail` succeeds only on an empty buffer, and nothing is written when
      `size as u32` is zero. It then appends the value; otherwise it overwrites the waiting
      value when `size as u32` is nonzero, and changes nothing when it is zero. */
  lemma PushAsWritten<T>(s: RingState<T>, pending: seq<T>, value: T)
    requires Holds(s, pending)
    ensures PushAttempt(s, value).done <==> |pending| < AsWrittenCapacity(s.size)
    ensures PushAttempt(s, value).done ==> Holds(PushAttempt(s, value).state, pending + [value])
    ensures !PushAttempt(s, value).done ==>
              Holds(PushAttempt(s, value).state,
                    if pending != [] && TruncateToU32(s.size) != 0 then [value] else pending)
  {
    var r := PushAttempt(s, value);
    if pending != [] {
      assert s.tail != s.head;
    }
    if r.done {
      assert (pending + [value])[0] == value;
    }
  }

  /** A pop returns the front of the queue, or `None` on an empty one, and removes it. */
  lemma PopAsWritten<T>(s: RingState<T>, pending: seq<T>)
    requires Holds(s, pending)
    ensures HeadReadable(s)
    ensures PopAttempt(s).done
    ensures PopAttempt(s).result == (if pending == [] then None else Some(pending[0]))
    ensures Holds(PopAttempt(s).state, if pending == [] then [] else pending[1..])
  {
    if pending != [] {
      assert s.tail != s.head;
    }
  }

  /** Every single-threaded run of the buffer as written answers like a queue of
      capacity `AsWrittenCapacity(size)`: it gets stuck exactly where that queue would,
      never reads an unwritten slot, and each pop returns what the queue would return. */
  lemma {:induction false} AsWrittenRunIsFifo<T>(s: RingState<T>, pending: seq<T>, ops: seq<Op<T>>)
    requires Holds(s, pending)
    ensures Exec(s, ops, false).Stalled? <==> Fifo(AsWrittenCapacity(s.size), pending, ops).Stalled?
    ensures !Exec(s, ops, false).Undefined?
    ensures Exec(s, ops, false).Done? ==>
              Exec(s, ops, false).popped == Fifo(AsWrittenCapacity(s.size), pending, ops).popped &&
              Holds(Exec(s, ops, false).state, Fifo(AsWrittenCapacity(s.size), pending, ops).state)
    decreases |ops|
  {
    if ops != [] {
      match ops[0]
      case Push(v) =>
        PushAsWritten(s, pending, v);
        if PushAttempt(s, v).done {
          AsWrittenRunIsFifo(PushAttempt(s, v).state, pending + [v], ops[1..]);
        }
      case Pop =>
        PopAsWritten(s, pending);
        AsWrittenRunIsFifo(PopAttempt(s).state, if pending == [] then [] else pending[1..], ops[1..]);
    }
  }

  /** In every single-threaded run from `new` whose calls all return, the counters are
      equal exactly when no pushed value is waiting to be popped, however often they
      have wrapped. */
  lemma EmptyExactlyWhenCountersMeet<T>(size: usize, ops: seq<Op<T>>)
    requires 1 <= size
    ensures var e, f := Exec(Init<T>(size), ops, false), Fifo(AsWrittenCapacity(size), [], ops);
            e.Done? ==> f.Done? && (e.state.head == e.state.tail <==> f.state == [])
  {
    InitHolds<T>(size);
    AsWrittenRunIsFifo(Init<T>(size), [], ops);
  }

  /** The round trip of `src/main.rs`: on a new buffer, `push(v)` returns, then `pop()`
      returns `Some(v)` and leaves the counters equal. Needs `size as u32` to be nonzero. */
  lemma RoundTrip<T>(size: usize, v: T)
    requires 1 <= size && size % U32_MODULUS != 0
    ensures Exec(Init<T>(size), [Push(v), Pop], false).Done?
    ensures Exec(Init<T>(size), [Push(v), Pop], false).popped == [Some(v)]
    ensures Exec(Init<T>(size), [Push(v), Pop], false).state.head
              == Exec(Init<T>(size), [Push(v), Pop], false).state.tail
  {
    var ops := [Push(v), Pop];
    InitHolds<T>(size);
    AsWrittenRunIsFifo(Init<T>(size), [], ops);
    assert ops[1..] == [Pop] && ops[1..][1..] == [];
    assert Fifo(1, [v], [Pop]) == Done([], [Some(v)]);
    assert Fifo(1, [], ops) == Fifo(1, [v], [Pop]);
  }

  /** When `size as u32` is zero the capacity test `0 < size as u32` fails, so no push
      ever writes or returns. */
  lemma NoPushWhenSizeTruncatesToZero<T>(s: RingState<T>, v: T)
    requires WellFormed(s) && s.size % U32_MODULUS == 0
    ensures !PushAttempt(s, v).done && PushAttempt(s, v).state == s
  {
  }

  /** As written, a second push before a pop never returns, whatever `size` is, and while
      it spins it has overwritten the value the first push stored. */
  lemma SecondPushStalls<T>(size: usize, a: T, b: T)
    requires 1 <= size
    ensures Exec(Init<T>(size), [Push(a), Push(b)], false).Stalled?
    ensures size % U32_MODULUS != 0 ==>
              var first := PushAttempt(Init<T>(size), a);
              var second := PushAttempt(first.state, b);
              first.done && !second.done && PopAttempt(second.state).result == Some(b)
  {
    var ops := [Push(a), Push(b)];
    InitHolds<T>(size);
    AsWrittenRunIsFifo(Init<T>(size), [], ops);
    assert ops[1..] == [Push(b)];
    if size % U32_MODULUS != 0 {
      var first := PushAttempt(Init<T>(size), a);
      PushAsWritten(Init<T>(size), [], a);
      PushAsWritten(first.state, [a], b);
      PopAsWritten(PushAttempt(first.state, b).state, [b]);
    }
  }
}
