/** `monza::Buffer<T>` as an object: the slot array is updated in place and the two
    counters are fields that `push` and `pop` move by compare-and-swap. Everything runs in
    one thread, so each compare-and-swap is "if the field holds the expected value, assign
    the new one". */
module Monza {
  import opened Wrapping
  import opened Ring

  class Buffer<T> {
    const buf: array<Slot<T>>
    var head: uint32
    var tail: uint32
    const size: usize
    const mask: usize

    /** The fields as a value of the pure model. */
    ghost function State(): RingState<T>
      reads this, buf
    {
      RingState(buf[..], head, tail, size, mask)
    }

    /** The single-threaded object invariant: the shape `new` fixes, and the counters
        at most one apart with a written slot at `head` when they differ. */
    ghost predicate Valid()
      reads this, buf
    {
      Consistent(State())
    }

    /** `Buffer::new`: fills a fresh array of `size + 1` slots with `Slot::init` one
        slot at a time, then sets both counters to zero and `mask` to `size - 1`. */
    constructor (size: usize)
      requires 1 <= size
      ensures Valid() && fresh(buf)
      ensures this.size == size && mask == size - 1 && buf.Length == size + 1
      ensures head == 0 && tail == 0
      ensures forall i :: 0 <= i < buf.Length ==> buf[i] == Uninit
      ensures State() == Init(size)
    {
      var slots := new Slot<T>[size + 1];
      for i := 0 to size + 1
        invariant forall j :: 0 <= j < i ==> slots[j] == Uninit
      {
        slots[i] := Uninit;
      }
      buf := slots;
      head := 0;
      tail := 0;
      this.size := size;
      mask := size - 1;
      new;
      assert State().slots == Init<T>(size).slots;
    }

    /** One iteration of the loop of `Buffer::push`, with the locals loaded as the
        source loads them (both from `head`). Returns whether `push` would return;
        otherwise the source spins and retries. */
    method TryPush(value: T) returns (done: bool)
      requires Valid()
      modifies this, buf
      ensures Valid()
      ensures State() == PushAttempt(old(State()), value).state
      ensures done == PushAttempt(old(State()), value).done
    {
      var head := this.head;
      var tail := this.head;
      done := false;
      if WrappingSub(tail, head) < TruncateToU32(size) {
        var idx := SlotIndex(tail, mask);
        buf[idx] := Written(value);
        var current := tail;
        var actual := this.tail;
        if actual == current {
          this.tail := WrappingAdd(tail, 1);
        }
        done := actual == current;
      }
    }

    /** `Buffer::pop`, retry loop included. In a single thread the compare-and-swap on
        `head` compares the field with the value just loaded from it, so the loop returns
        during its first iteration. */
    method Pop() returns (r: Option<T>)
      requires Valid()
      modifies this
      ensures Valid()
      ensures State() == PopAttempt(old(State())).state
      ensures r == PopAttempt(old(State())).result
      ensures head == tail
    {
      var done := false;
      r := None;
      while !done
        invariant Valid()
        invariant !done ==> State() == old(State())
        invariant done ==> State() == PopAttempt(old(State())).state
        invariant done ==> r == PopAttempt(old(State())).result
        decreases !done
      {
        var head := this.head;
        var tail := this.tail;
        if head == tail {
          return None;
        }
        var idx := SlotIndex(head, mask);
        var value := buf[idx].value;
        var actual := this.head;
        if actual == head {
          this.head := WrappingAdd(head, 1);
          r := Some(value);
        }
        done := actual == head;
      }
    }
  }
}
