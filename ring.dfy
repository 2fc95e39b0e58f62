/** The state of `monza::Buffer<T>` as a value, and one pass through the body of the
    retry loop of `push` and of `pop`, evaluated by a single thread. Each
    `compare_and_swap` becomes "if the field still holds the expected value, assign the
    new one", and the attempt reports whether the loop would return. */
module Ring {
  import opened Wrapping

  datatype Option<T> = None | Some(value: T)

  /** One `Slot<T>`: its `MaybeUninit<T>` storage, either never written or holding the
      bytes of the value written last. `Slot::init` is `Uninit`. */
  datatype Slot<T> = Uninit | Written(value: T)

  /** The fields of `Buffer<T>`: the boxed slot array, the two atomic counters and the
      two sizes fixed by `new`. */
  datatype RingState<T> = RingState(
    slots: seq<Slot<T>>,
    head: uint32,
    tail: uint32,
    size: usize,
    mask: usize)

  /** The shape `new` gives the buffer and that no operation changes. */
  ghost predicate WellFormed<T>(s: RingState<T>)
  {
    1 <= s.size && s.mask == s.size - 1 && |s.slots| == s.size + 1
  }

  /** `counter as usize & self.mask`: the slot a counter designates. */
  function SlotIndex(counter: uint32, mask: usize): (i: nat)
    ensures i <= mask && i <= counter
  {
    BitAnd(counter, mask)
  }

  /** `Buffer::new(size)`: `size + 1` uninitialised slots, both counters at zero and
      `mask = size - 1` (which underflows, so `new` cannot be called, when `size` is 0). */
  function Init<T>(size: usize): (s: RingState<T>)
    requires 1 <= size
    ensures WellFormed(s) && s.size == size && |s.slots| == size + 1 && s.mask == size - 1
    ensures s.head == 0 && s.tail == 0
    ensures forall i :: 0 <= i < |s.slots| ==> s.slots[i] == Uninit
  {
    RingState(seq(size + 1, _ => Uninit), 0, 0, size, size - 1)
  }

  /** The states a single thread reaches from `Init` with the code as written: the
      counters are equal, or `tail` is one ahead of `head` and the slot at `head` holds a
      written value. */
  ghost predicate Consistent<T>(s: RingState<T>)
  {
    WellFormed(s) &&
    (s.tail == s.head ||
     (s.tail == WrappingAdd(s.head, 1) && s.slots[SlotIndex(s.head, s.mask)].Written?))
  }

  datatype PushStep<T> = PushStep(state: RingState<T>, done: bool)

  /** One iteration of the loop of `Buffer::push`, as written: both locals are loaded
      from `head`, so the capacity test compares `0` with `size as u32`, the value goes to
      the slot `head` designates, and the compare-and-swap on `tail` succeeds only when
      `tail` equals `head`. `done` says whether `push` returns; otherwise it retries. */
  function PushAttempt<T>(s: RingState<T>, value: T): (r: PushStep<T>)
    requires WellFormed(s)
    ensures WellFormed(r.state) && r.state.size == s.size && r.state.mask == s.mask
    ensures r.state.head == s.head
    ensures r.done <==> TruncateToU32(s.size) != 0 && s.tail == s.head
    ensures r.state.tail == (if r.done then WrappingAdd(s.head, 1) else s.tail)
    ensures TruncateToU32(s.size) != 0 ==>
              r.state.slots[SlotIndex(s.head, s.mask)] == Written(value)
    ensures forall i :: 0 <= i < |s.slots| && i != SlotIndex(s.head, s.mask) ==>
              r.state.slots[i] == s.slots[i]
    ensures TruncateToU32(s.size) == 0 ==> r.state == s
    ensures Consistent(s) ==> Consistent(r.state)
  {
    var head := s.head;
    var tail := s.head;
    if WrappingSub(tail, head) < TruncateToU32(s.size) then
      var idx := SlotIndex(tail, s.mask);
      var written := s.(slots := s.slots[idx := Written(value)]);
      var actual := written.tail;
      if actual == tail then PushStep(written.(tail := WrappingAdd(tail, 1)), true)
      else PushStep(written, false)
    else
      PushStep(s, false)
  }

  /** A slot `pop` may read: when the counters differ, the slot at `head` was written.
      Reading it otherwise is undefined behaviour in the source. */
  ghost predicate HeadReadable<T>(s: RingState<T>)
    requires WellFormed(s)
  {
    s.head != s.tail ==> s.slots[SlotIndex(s.head, s.mask)].Written?
  }

  datatype PopStep<T> = PopStep(state: RingState<T>, done: bool, result: Option<T>)

  /** One iteration of the loop of `Buffer::pop`: `None` when the counters are equal,
      otherwise the value in the slot `head` designates, after the compare-and-swap that
      advances `head`. In a single thread that compare-and-swap always succeeds. */
  function PopAttempt<T>(s: RingState<T>): (r: PopStep<T>)
    requires WellFormed(s) && HeadReadable(s)
    ensures WellFormed(r.state) && r.done
    ensures r.result.Some? <==> s.head != s.tail
    ensures r.result.Some? ==> r.result.value == s.slots[SlotIndex(s.head, s.mask)].value
    ensures r.state.head == (if s.head == s.tail then s.head else WrappingAdd(s.head, 1))
    ensures r.state.tail == s.tail && r.state.slots == s.slots
    ensures r.state.size == s.size && r.state.mask == s.mask
    ensures Consistent(s) ==> Consistent(r.state) && r.state.head == r.state.tail
  {
    var head := s.head;
    var tail := s.tail;
    if head == tail then
      PopStep(s, true, None)
    else
      var idx := SlotIndex(head, s.mask);
      var value := s.slots[idx].value;
      var actual := s.head;
      if actual == head then PopStep(s.(head := WrappingAdd(head, 1)), true, Some(value))
      else PopStep(s, false, None)
  }

  /** The loop of `push` with the local `tail` loaded from `tail`, as the names and the
      capacity test intend. Not the code as written: see `PushAttempt`. */
  function PushAttemptCorrected<T>(s: RingState<T>, value: T): (r: PushStep<T>)
    requires WellFormed(s)
    ensures WellFormed(r.state) && r.state.size == s.size && r.state.mask == s.mask
    ensures r.state.head == s.head
    ensures r.done <==> WrappingSub(s.tail, s.head) < TruncateToU32(s.size)
    ensures r.done ==> r.state.tail == WrappingAdd(s.tail, 1) &&
                       r.state.slots == s.slots[SlotIndex(s.tail, s.mask) := Written(value)]
    ensures !r.done ==> r.state == s
  {
    var head := s.head;
    var tail := s.tail;
    if WrappingSub(tail, head) < TruncateToU32(s.size) then
      var idx := SlotIndex(tail, s.mask);
      var written := s.(slots := s.slots[idx := Written(value)]);
      var actual := written.tail;
      if actual == tail then PushStep(written.(tail := WrappingAdd(tail, 1)), true)
      else PushStep(written, false)
    else
      PushStep(s, false)
  }
}
