/** The buffer with `push` loading its local `tail` from `tail` (`PushAttemptCorrected`)
    and `pop` unchanged. For a power-of-two `size` below 2^32 it behaves, in one thread, as
    a first-in first-out queue of capacity `size`, across any number of counter wrap-arounds. */
module Corrected {
  import opened Wrapping
  import opened Ring
  import opened Runs

  /** The buffer `s` holds the queue `pending`: value `i` sits in the slot that counter
      `head + i` (mod 2^32) designates, and `tail` is `head + |pending|` (mod 2^32). */
  ghost predicate HoldsCorrected<T>(s: RingState<T>, pending: seq<T>)
  {
    WellFormed(s) && IsPowerOfTwo(s.size) && s.size < U32_MODULUS &&
    |pending| <= s.size &&
    s.tail == (s.head + |pending|) % U32_MODULUS &&
    forall i :: 0 <= i < |pending| ==>
      s.slots[SlotIndex((s.head + i) % U32_MODULUS, s.mask)] == Written(pending[i])
  }

  /** `new` as the mask arithmetic needs it: a `size` is accepted only when it is a power of two
      below 2^32, so that masking is reduction modulo `size` and `size as u32` is `size`. */
  function CheckedNew<T>(size: usize): (r: Option<RingState<T>>)
    ensures r.Some? <==> IsPowerOfTwo(size) && size < U32_MODULUS
    ensures r.Some? ==> r.value == Init(size) && HoldsCorrected(r.value, [])
  {
    if size < U32_MODULUS && IsPowerOfTwo(size) then Some(Init(size)) else None
  }

  /** On an empty buffer whose `size as u32` is nonzero, such as a new one, a push
      returns, with `push` as written and with the corrected one. */
  lemma EmptyPushReturns<T>(s: RingState<T>, v: T)
    requires WellFormed(s) && s.head == s.tail && s.size < U32_MODULUS
    ensures PushAttempt(s, v).done
    ensures PushAttemptCorrected(s, v).done
  {
    assert TruncateToU32(s.size) == s.size;
    assert WrappingSub(s.tail, s.head) == 0 by {
      assert WrappingAdd(s.head, 0) == s.tail;
      assert WrappingAdd(s.head, WrappingSub(s.tail, s.head)) == s.tail;
    }
  }

  /** Every buffer `CheckedNew` accepts takes its first push. */
  lemma CheckedNewAcceptsPush<T>(size: usize, v: T)
    ensures CheckedNew<T>(size).Some? ==> PushAttempt(CheckedNew<T>(size).value, v).done
    ensures CheckedNew<T>(size).Some? ==> PushAttemptCorrected(CheckedNew<T>(size).value, v).done
  {
    if CheckedNew<T>(size).Some? {
      EmptyPushReturns(CheckedNew<T>(size).value, v);
    }
  }

  /** With a `size` that is not a power of two the mask skips slots: for `size` 10 the mask
      is 9, counter 2 designates slot 0, and the third corrected push overwrites the first
      value, so the first pop returns 2 where a queue returns 0. */
  lemma NonPowerOfTwoOverwrites()
    ensures var ops := [Push(0), Push(1), Push(2), Pop];
            Exec(Init<int>(10), ops, true).Done? &&
            Exec(Init<int>(10), ops, true).popped == [Some(2)] &&
            Fifo(10, [], ops).popped == [Some(0)]
  {
    var ops := [Push(0), Push(1), Push(2), Pop];
    var s0 := Init<int>(10);
    assert SlotIndex(0, 9) == 0 && SlotIndex(1, 9) == 1 && SlotIndex(2, 9) == 0;
    var s1 := PushAttemptCorrected(s0, 0);
    assert s1.done && s1.state.tail == 1;
    var s2 := PushAttemptCorrected(s1.state, 1);
    assert s2.done && s2.state.tail == 2;
    var s3 := PushAttemptCorrected(s2.state, 2);
    assert s3.done && s3.state.tail == 3 && s3.state.slots[0] == Written(2);
    var p := PopAttempt(s3.state);
    assert p.result == Some(2);
    assert ops[1..] == [Push(1), Push(2), Pop] && ops[1..][1..] == [Push(2), Pop];
    assert ops[1..][1..][1..] == [Pop] && ops[1..][1..][1..][1..] == [];
    assert Exec(p.state, [], true) == Done(p.state, []);
    assert Exec(s3.state, [Pop], true) == Done(p.state, [Some(2)]);
    assert Fifo(10, [0, 1, 2], [Pop]) == Done([1, 2], [Some(0)]);
  }

  /** The slot of counter `c + i`, wrapped at 2^32, is `(c + i) mod size`. */
  lemma OffsetIndex(c: uint32, i: nat, size: usize)
    requires IsPowerOfTwo(size) && size < U32_MODULUS
    ensures SlotIndex((c + i) % U32_MODULUS, size - 1) == (c + i) % size
  {
    BitAndMaskIsMod((c + i) % U32_MODULUS, size);
    U32ModulusIsPowerOfTwo();
    PowerOfTwoDivides(size, U32_MODULUS);
    ModOfMultipleMod(c + i, U32_MODULUS, size);
  }

  lemma InitHoldsCorrected<T>(size: usize)
    requires IsPowerOfTwo(size) && size < U32_MODULUS
    ensures HoldsCorrected(Init<T>(size), [])
  {
  }

  /** Counters `n` apart, `n` below 2^32: `wrapping_sub` recovers `n`, and
      `wrapping_add(1)` moves one further. */
  lemma CounterDistance(h: uint32, n: nat)
    requires n < U32_MODULUS
    ensures WrappingSub((h + n) % U32_MODULUS, h) == n
    ensures WrappingAdd((h + n) % U32_MODULUS, 1) == (h + (n + 1)) % U32_MODULUS
  {
    if h + n < U32_MODULUS {
      DivModUnique(h + n, U32_MODULUS, 0, h + n);
      if h + n + 1 < U32_MODULUS {
        DivModUnique(h + (n + 1), U32_MODULUS, 0, h + n + 1);
      } else {
        DivModUnique(h + (n + 1), U32_MODULUS, 1, 0);
      }
    } else {
      DivModUnique(h + n, U32_MODULUS, 1, h + n - U32_MODULUS);
      DivModUnique(h + (n + 1), U32_MODULUS, 1, h + n + 1 - U32_MODULUS);
    }
  }

  /** Writing `value` into the slot of counter `h + |pending|` keeps the slots of the
      counters `h .. h + |pending| - 1`: fewer than `size` of them, all distinct. */
  lemma WriteBehindQueue<T>(slots: seq<Slot<T>>, slots': seq<Slot<T>>, h: uint32, pending: seq<T>,
                            pending': seq<T>, size: usize, mask: usize, value: T)
    requires IsPowerOfTwo(size) && size < U32_MODULUS && mask == size - 1
    requires |slots| == size + 1 && |pending| < size
    requires forall i :: 0 <= i < |pending| ==>
               slots[SlotIndex((h + i) % U32_MODULUS, mask)] == Written(pending[i])
    requires slots' == slots[SlotIndex((h + |pending|) % U32_MODULUS, mask) := Written(value)]
    requires pending' == pending + [value]
    ensures forall i :: 0 <= i < |pending'| ==>
              slots'[SlotIndex((h + i) % U32_MODULUS, mask)] == Written(pending'[i])
  {
    var n := |pending|;
    OffsetIndex(h, n, size);
    assert |pending'| == n + 1;
    forall i | 0 <= i < n + 1
      ensures slots'[SlotIndex((h + i) % U32_MODULUS, mask)] == Written(pending'[i])
    {
      if i < n {
        OffsetIndex(h, i, size);
        ModDistinct(h, i, n, size);
        assert SlotIndex((h + i) % U32_MODULUS, mask) != SlotIndex((h + n) % U32_MODULUS, mask);
        assert pending'[i] == pending[i];
      } else {
        assert pending'[i] == value;
      }
    }
  }

  lemma PushCorrectedGuard<T>(s: RingState<T>, pending: seq<T>, value: T)
    requires HoldsCorrected(s, pending)
    ensures PushAttemptCorrected(s, value).done <==> |pending| < s.size
    ensures PushAttemptCorrected(s, value).done ==>
              PushAttemptCorrected(s, value).state.tail == (s.head + (|pending| + 1)) % U32_MODULUS
  {
    CounterDistance(s.head, |pending|);
  }

  lemma PushCorrectedAppends<T>(s: RingState<T>, pending: seq<T>, value: T)
    requires HoldsCorrected(s, pending) && |pending| < s.size
    ensures HoldsCorrected(PushAttemptCorrected(s, value).state, pending + [value])
  {
    PushCorrectedGuard(s, pending, value);
    var t := PushAttemptCorrected(s, value).state;
    var p' := pending + [value];
    assert t.head == s.head && t.size == s.size && t.mask == s.mask;
    assert t.tail == (t.head + |p'|) % U32_MODULUS;
    assert t.slots == s.slots[SlotIndex((s.head + |pending|) % U32_MODULUS, s.mask) := Written(value)];
    WriteBehindQueue(s.slots, t.slots, s.head, pending, p', s.size, s.mask, value);
    assert |p'| <= t.size;
  }

  /** A corrected push attempt returns exactly when the queue is not full, and then
      appends the value; on a full queue it changes nothing and spins. */
  lemma PushCorrected<T>(s: RingState<T>, pending: seq<T>, value: T)
    requires HoldsCorrected(s, pending)
    ensures PushAttemptCorrected(s, value).done <==> |pending| < s.size
    ensures PushAttemptCorrected(s, value).done ==>
              HoldsCorrected(PushAttemptCorrected(s, value).state, pending + [value])
    ensures !PushAttemptCorrected(s, value).done ==> PushAttemptCorrected(s, value).state == s
  {
    PushCorrectedGuard(s, pending, value);
    if |pending| < s.size {
      PushCorrectedAppends(s, pending, value);
    }
  }

  /** A pop returns the front of the queue, or `None` on an empty one, and removes it. */
  lemma PopCorrected<T>(s: RingState<T>, pending: seq<T>)
    requires HoldsCorrected(s, pending)
    ensures HeadReadable(s)
    ensures PopAttempt(s).done
    ensures PopAttempt(s).result == (if pending == [] then None else Some(pending[0]))
    ensures HoldsCorrected(PopAttempt(s).state, if pending == [] then [] else pending[1..])
  {
    if pending != [] {
      assert (s.head + 0) % U32_MODULUS == s.head;
      assert s.slots[SlotIndex((s.head + 0) % U32_MODULUS, s.mask)] == Written(pending[0]);
      assert s.tail != s.head;
      var t := PopAttempt(s).state;
      var rest := pending[1..];
      assert t.head == (s.head + 1) % U32_MODULUS;
      forall i | 0 <= i < |rest|
        ensures t.slots[SlotIndex((t.head + i) % U32_MODULUS, t.mask)] == Written(rest[i])
      {
        assert (t.head + i) % U32_MODULUS == (s.head + (i + 1)) % U32_MODULUS;
      }
    }
  }

  /** Every single-threaded run of the corrected buffer answers like a queue of capacity
      `size`: it gets stuck exactly where that queue is full, never reads an unwritten slot,
      and each pop returns what the queue would return. */
  lemma {:induction false} CorrectedRunIsFifo<T>(s: RingState<T>, pending: seq<T>, ops: seq<Op<T>>)
    requires HoldsCorrected(s, pending)
    ensures Exec(s, ops, true).Stalled? <==> Fifo(s.size, pending, ops).Stalled?
    ensures !Exec(s, ops, true).Undefined?
    ensures Exec(s, ops, true).Done? ==>
              Exec(s, ops, true).popped == Fifo(s.size, pending, ops).popped &&
              HoldsCorrected(Exec(s, ops, true).state, Fifo(s.size, pending, ops).state)
    decreases |ops|
  {
    if ops != [] {
      match ops[0]
      case Push(v) =>
        PushCorrected(s, pending, v);
        if PushAttemptCorrected(s, v).done {
          CorrectedRunIsFifo(PushAttemptCorrected(s, v).state, pending + [v], ops[1..]);
        }
      case Pop =>
        PopCorrected(s, pending);
        CorrectedRunIsFifo(PopAttempt(s).state, if pending == [] then [] else pending[1..], ops[1..]);
    }
  }

  /** `push(v)` for each value of `vs`, in order. */
  function Pushes<T>(vs: seq<T>): (ops: seq<Op<T>>)
    ensures |ops| == |vs|
    ensures forall i :: 0 <= i < |vs| ==> ops[i] == Push(vs[i])
  {
    if vs == [] then [] else [Push(vs[0])] + Pushes(vs[1..])
  }

  /** `pop()`, `n` times. */
  function Pops<T>(n: nat): (ops: seq<Op<T>>)
    ensures |ops| == n
    ensures forall i :: 0 <= i < n ==> ops[i] == Pop
  {
    if n == 0 then [] else [Pop] + Pops(n - 1)
  }

  lemma FifoPushOne<T>(capacity: nat, pending: seq<T>, v: T, rest: seq<Op<T>>)
    requires |pending| < capacity
    ensures Fifo(capacity, pending, [Push(v)] + rest) == Fifo(capacity, pending + [v], rest)
  {
    assert ([Push(v)] + rest)[1..] == rest;
  }

  lemma PushesFront<T>(vs: seq<T>, rest: seq<Op<T>>)
    requires vs != []
    ensures Pushes(vs) + rest == [Push(vs[0])] + (Pushes(vs[1..]) + rest)
  {
  }

  /** Pushing values that fit appends them all to the queue. */
  lemma {:induction false} FifoPushes<T>(capacity: nat, pending: seq<T>, vs: seq<T>, rest: seq<Op<T>>)
    requires |pending| + |vs| <= capacity
    ensures Fifo(capacity, pending, Pushes(vs) + rest) == Fifo(capacity, pending + vs, rest)
    decreases |vs|
  {
    if vs == [] {
      assert Pushes(vs) + rest == rest && pending + vs == pending;
    } else {
      var v, more := vs[0], vs[1..];
      calc {
        Fifo(capacity, pending, Pushes(vs) + rest);
        { PushesFront(vs, rest); }
        Fifo(capacity, pending, [Push(v)] + (Pushes(more) + rest));
        { FifoPushOne(capacity, pending, v, Pushes(more) + rest); }
        Fifo(capacity, pending + [v], Pushes(more) + rest);
        { FifoPushes(capacity, pending + [v], more, rest); }
        Fifo(capacity, pending + [v] + more, rest);
        { assert pending + [v] + more == pending + vs; }
        Fifo(capacity, pending + vs, rest);
      }
    }
  }

  /** Popping as often as values wait, then continuing, hands the rest to an empty queue. */
  lemma {:induction false} FifoPopsThenMore<T>(capacity: nat, pending: seq<T>, rest: seq<Op<T>>)
    ensures Fifo(capacity, pending, Pops(|pending|) + rest).Done? <==> Fifo(capacity, [], rest).Done?
    ensures Fifo(capacity, pending, Pops(|pending|) + rest).Done? ==>
              Fifo(capacity, pending, Pops(|pending|) + rest).popped
                == seq(|pending|, i requires 0 <= i < |pending| => Some(pending[i]))
                   + Fifo(capacity, [], rest).popped
    ensures Fifo(capacity, pending, Pops(|pending|) + rest).Done? ==>
              Fifo(capacity, pending, Pops(|pending|) + rest).state == Fifo(capacity, [], rest).state
    decreases |pending|
  {
    if pending == [] {
      assert Pops<T>(0) + rest == rest;
    } else {
      var ops := Pops<T>(|pending|) + rest;
      assert ops[0] == Pop;
      assert ops[1..] == Pops(|pending| - 1) + rest;
      FifoPopsThenMore(capacity, pending[1..], rest);
    }
  }

  /** Single-thread round trip: on a new corrected buffer of power-of-two `size`, pushing
      at most `size` values and then popping as often returns them in the order pushed,
      and leaves the counters equal. */
  lemma FifoRoundTrip<T>(size: usize, vs: seq<T>)
    requires IsPowerOfTwo(size) && size < U32_MODULUS && |vs| <= size
    ensures var e := Exec(Init<T>(size), Pushes(vs) + Pops(|vs|), true);
            e.Done? && e.state.head == e.state.tail &&
            e.popped == seq(|vs|, i requires 0 <= i < |vs| => Some(vs[i]))
  {
    var ops := Pushes(vs) + Pops<T>(|vs|);
    InitHoldsCorrected<T>(size);
    CorrectedRunIsFifo(Init<T>(size), [], ops);
    FifoPushes(size, [], vs, Pops(|vs|));
    assert [] + vs == vs;
    assert Pops<T>(|vs|) + [] == Pops(|vs|);
    FifoPopsThenMore(size, vs, []);
  }

  /** Capacity boundary: with `size` values waiting, one more push never returns; after a
      pop, a push returns again. */
  lemma FullBoundary<T>(s: RingState<T>, pending: seq<T>, v: T)
    requires HoldsCorrected(s, pending) && |pending| == s.size
    ensures !PushAttemptCorrected(s, v).done
    ensures HeadReadable(s)
    ensures PushAttemptCorrected(PopAttempt(s).state, v).done
  {
    PushCorrected(s, pending, v);
    PopCorrected(s, pending);
    PushCorrected(PopAttempt(s).state, pending[1..], v);
  }

  /** The queue of capacity 4 of the scenario below, on its own. */
  lemma FourSlotQueue()
    ensures Fifo(4, [], Pushes([4, 9, 16, 25]) + Pops(5)).Done?
    ensures Fifo(4, [], Pushes([4, 9, 16, 25]) + Pops(5)).popped
              == [Some(4), Some(9), Some(16), Some(25), None]
    ensures Fifo(4, [], Pushes([4, 9, 16, 25]) + [Push(36)]).Stalled?
  {
    var vs := [4, 9, 16, 25];
    assert [] + vs == vs;
    FifoPushes(4, [], vs, Pops(5));
    FifoPushes(4, [], vs, [Push(36)]);
    assert Fifo(4, vs, [Push(36)]) == Stalled;
    assert Pops<int>(5) == Pops(4) + [Pop];
    assert Fifo<int>(4, [], [Pop]) == Done([], [None]);
    FifoPopsThenMore(4, vs, [Pop]);
    var front := seq(|vs|, i requires 0 <= i < |vs| => Some(vs[i]));
    assert front == [Some(4), Some(9), Some(16), Some(25)];
  }

  /** A buffer of size 4 takes 4, 9, 16 and 25, gives them back in that order and then
      reports empty; a fifth push before any pop never returns. */
  lemma FourSlotScenario()
    ensures Exec(Init<int>(4), Pushes([4, 9, 16, 25]) + Pops(5), true).Done?
    ensures Exec(Init<int>(4), Pushes([4, 9, 16, 25]) + Pops(5), true).popped
              == [Some(4), Some(9), Some(16), Some(25), None]
    ensures Exec(Init<int>(4), Pushes([4, 9, 16, 25]) + [Push(36)], true).Stalled?
  {
    assert IsPowerOfTwo(4) by {
      assert IsPowerOfTwo(2);
    }
    InitHoldsCorrected<int>(4);
    FourSlotQueue();
    CorrectedRunIsFifo(Init<int>(4), [], Pushes([4, 9, 16, 25]) + Pops(5));
    CorrectedRunIsFifo(Init<int>(4), [], Pushes([4, 9, 16, 25]) + [Push(36)]);
  }
}
