# monza ring buffer, modelled in Dafny

`monza::Buffer<T>` is a fixed-size ring buffer. It owns a boxed array of `size + 1` slots, each
of which holds possibly uninitialised storage for one value. It also owns two `u32` counters,
`head` and `tail`, and `mask = size - 1`. `push` writes a value into the slot of a counter and
moves `tail` by compare-and-swap. `pop` returns `None` when the counters are equal. Otherwise
`pop` reads the slot that `head` designates and moves `head` by compare-and-swap. Both
operations retry in a `loop` until their compare-and-swap succeeds.

The model runs everything in one thread, so each compare-and-swap becomes "if the field still
holds the expected value, assign the new one". It is organised as follows:

- `Wrapping` models the machine integers: `u32` counters that wrap at 2^32 (`WrappingAdd`,
  `WrappingSub`), the truncating cast `usize as u32`, and bitwise AND on naturals. It proves
  that masking with `n - 1` is reduction modulo `n` when `n` is a power of two.
- `Ring` holds the state of the buffer as a value (`RingState`). Each slot is `Uninit` or
  `Written(v)`, and `Slot::init` is `Uninit`. The module defines `new` as `Init`. It also
  defines one pass through the retry loop of `push` (`PushAttempt`) and of `pop`
  (`PopAttempt`), exactly as the code is written.
- `Monza.Buffer` is the imperative object. Its slot array is an `array` updated in place,
  and `head` and `tail` are fields. The constructor fills the array slot by slot. `TryPush`
  is one iteration of the loop of `push`. `Pop` is the whole loop of `pop`, which exits during
  its first iteration in one thread. Each method is proved against the matching `Ring`
  function and keeps the object invariant `Valid`.
- `Runs` executes sequences of `push`/`pop` calls (`Exec`) and compares them with a bounded
  first-in first-out queue (`Fifo`). As written, the buffer behaves as a queue of capacity
  one (zero when `size` is a multiple of 2^32): a second `push` before a `pop` never returns.
- `Corrected` models `push` with its local `tail` loaded from `tail`, the evidently intended
  code. For a power-of-two `size` below 2^32, the corrected buffer behaves as a queue of
  capacity `size`, across any number of counter wrap-arounds. This gives the round trip, the
  capacity boundary and the four-slot example scenario.

The code differs from a conventional bounded queue in these ways, and the model follows the code:

- The code allocates `size + 1` slots, not `size` slots.
- The code does not check that `size` is a power of two, or that it is nonzero. With
  overflow checks on, as in a debug build, `new(0)` panics on `size - 1`. In a default
  release build `size - 1` wraps, so `new(0)` gives one slot and `mask == usize::MAX`.
- `push` has no "queue full" error. It spins until its compare-and-swap succeeds.
- Slots carry no sequence counter or readiness marker.
- `pop` copies the value out and leaves the slot's bytes in place.

## Model

| member | source | states |
|---|---|---|
| Wrapping.WrappingAdd | monza/src/lib.rs:100 | `tail.wrapping_add(1)`: the sum, less 2^32 when it reaches 2^32 |
| Wrapping.WrappingSub | monza/src/lib.rs:87 | `tail.wrapping_sub(head)`: the `u32` that `wrapping_add` takes back from `head` to `tail` |
| Wrapping.TruncateToU32 | monza/src/lib.rs:87 | `self.size as u32` keeps a `size` below 2^32 unchanged, and is zero exactly when `size` is a multiple of 2^32 |
| Wrapping.BitAndMaskIsMod | monza/src/lib.rs:88 | for a power-of-two `n`, `counter & (n - 1)` is `counter mod n` |
| Ring.SlotIndex | monza/src/lib.rs:88 | `counter as usize & self.mask` is at most `mask`, so it indexes the `size + 1` slots in bounds |
| Ring.Init | monza/src/lib.rs:63-78 | `new(size)` with `size >= 1`: `size + 1` uninitialised slots, `head == tail == 0`, `mask == size - 1` |
| Monza.Buffer.constructor | monza/src/lib.rs:63-78 | fills a fresh array of `size + 1` slots with `Slot::init` in a loop; both counters are zero, `mask` is `size - 1`, and the object invariant holds |
| Ring.PushAttempt | monza/src/lib.rs:80-111 | one iteration of `push` as written: it writes the value into the slot `head` designates unless `size as u32` is zero; it sets `tail` to `head + 1` (mod 2^32) and returns exactly when `tail == head` and `size as u32` is nonzero; `head` and every other slot stay unchanged; the single-thread invariant is kept |
| Monza.Buffer.TryPush | monza/src/lib.rs:80-111 | the same iteration on the object: the slot array is updated in place, and the new fields and result are those of `Ring.PushAttempt` |
| Ring.PopAttempt | monza/src/lib.rs:113-147 | `pop`: `None` with nothing changed when `head == tail`; otherwise the value of the slot at `head`, with `head` advanced by one (mod 2^32) and `tail` and all slots unchanged |
| Monza.Buffer.Pop | monza/src/lib.rs:113-147 | the retry loop of `pop` on the object exits in its first iteration with the fields and result of `Ring.PopAttempt`, leaving `head == tail` |
| Ring.PushAttemptCorrected | monza/src/lib.rs:80-111 | `push` with `tail` loaded from `tail`: returns exactly when `tail - head` (wrapping) is below `size as u32`, and then writes the slot `tail` designates and advances `tail`; otherwise it changes nothing |
| Runs.Exec | monza/src/lib.rs:80-147 | a run of calls in one thread that ends with every call returned keeps the shape `new` gave the buffer, and returns exactly one result per `pop` call |
| Runs.FailedPushRepeats | monza/src/lib.rs:81-110 | an iteration of `push` that does not return leaves a state on which the next iteration does the same, so the loop never exits |
| Runs.PushAsWritten | monza/src/lib.rs:80-111 | as written, the compare-and-swap on `tail` succeeds only on an empty buffer, so at most one value waits, and none when `size as u32` is zero: on a buffer holding queue `pending`, a `push` attempt returns exactly when the queue is empty and `size as u32` is nonzero, and then appends the value; otherwise it replaces the waiting value when `size as u32` is nonzero, and changes nothing when it is zero |
| Runs.PopAsWritten | monza/src/lib.rs:113-147 | on a buffer holding `pending`, `pop` never reads an unwritten slot; it returns the front of the queue (or `None`) and removes it |
| Runs.AsWrittenRunIsFifo | monza/src/lib.rs:80-147 | every single-threaded run of calls answers as a first-in first-out queue of capacity `AsWrittenCapacity(size)`: it gets stuck where that queue is full, never reads an unwritten slot, and returns the same values |
| Runs.EmptyExactlyWhenCountersMeet | monza/src/lib.rs:120-122 | in every run from `new` whose calls all return, `head == tail` exactly when no pushed value waits to be popped, however often the counters have wrapped |
| Runs.RoundTrip | src/main.rs:4-7 | on a new buffer, `push(v)` then `pop()` returns `Some(v)` and leaves `head == tail`, when `size as u32` is nonzero |
| Runs.NoPushWhenSizeTruncatesToZero | monza/src/lib.rs:87 | when `size` is a multiple of 2^32 the test `0 < size as u32` fails, so `push` neither writes nor returns |
| Runs.SecondPushStalls | monza/src/lib.rs:82-83 | as written, a second `push` before a `pop` never returns, for every `size`; when `size as u32` is nonzero the first `push` returns, and while the second spins it has overwritten the first value, which a `pop` then no longer returns |
| Corrected.CheckedNew | monza/src/lib.rs:63-78 | `new` as intended: a `size` is accepted exactly when it is a power of two below 2^32, and then the new buffer holds the empty queue in the form the corrected proofs need |
| Corrected.EmptyPushReturns | monza/src/lib.rs:87 | on an empty buffer whose `size` is below 2^32, a `push` returns, as written and corrected |
| Corrected.CheckedNewAcceptsPush | monza/src/lib.rs:87 | for every `usize` size, a buffer `CheckedNew` accepts takes its first `push`, which `size as u32 == 0` prevents as written |
| Corrected.NonPowerOfTwoOverwrites | monza/src/lib.rs:76-88 | with `size` 10 the mask 9 sends counter 2 to slot 0, so after three corrected pushes the first `pop` returns the third value where a queue returns the first |
| Corrected.OffsetIndex | monza/src/lib.rs:88 | the slot of counter `c + i` (wrapped at 2^32) is `(c + i) mod size` for a power-of-two `size` below 2^32 |
| Corrected.CounterDistance | monza/src/lib.rs:87 | for counters `n` apart, `wrapping_sub` gives `n` and `wrapping_add(1)` moves them `n + 1` apart |
| Corrected.WriteBehindQueue | monza/src/lib.rs:88-94 | writing the slot of counter `head + n` keeps the slots of the `n` waiting values, when `n < size` |
| Corrected.PushCorrectedGuard | monza/src/lib.rs:87 | the corrected capacity test passes exactly when fewer than `size` values wait |
| Corrected.PushCorrectedAppends | monza/src/lib.rs:88-100 | a corrected `push` that passes the test appends the value to the queue the buffer holds |
| Corrected.PushCorrected | monza/src/lib.rs:80-111 | a corrected `push` attempt returns exactly when the queue is not full and then appends; on a full queue it changes nothing |
| Corrected.PopCorrected | monza/src/lib.rs:113-147 | on the corrected buffer `pop` never reads an unwritten slot, returns the front of the queue (or `None`) and removes it |
| Corrected.CorrectedRunIsFifo | monza/src/lib.rs:80-147 | every single-threaded run of the corrected buffer answers as a first-in first-out queue of capacity `size` |
| Corrected.FifoRoundTrip | monza/src/lib.rs:80-147 | on a new corrected buffer, pushing at most `size` values and popping as often returns them in the order pushed and leaves `head == tail` |
| Corrected.FullBoundary | monza/src/lib.rs:87 | with `size` values waiting, a corrected `push` never returns; after one `pop` a `push` returns again |
| Corrected.FourSlotScenario | monza/src/lib.rs:80-147 | a corrected buffer of size 4 takes 4, 9, 16 and 25 and returns them in order, then `None`; a fifth `push` before any `pop` never returns |

## Left out

- Atomics, memory orderings and concurrency: the model runs one thread, so races between compare-and-swaps, linearizability and no-duplication across threads are not modelled. The same goes for `spin_loop_hint` and `unsafe impl Sync`/`Send` (monza/src/lib.rs:109, 145, 150-151).
- Raw memory: `UnsafeCell<MaybeUninit<T>>`, `ptr::write`, `ptr::read` and `assume_init` are modelled as a slot that is `Uninit` or `Written(v)`. Reading an `Uninit` slot, which is undefined behaviour, is excluded by the precondition `HeadReadable` of `Ring.PopAttempt`. In runs it is an explicit `Undefined` outcome, proved never to happen.
- `value.clone()` is a plain copy of the value. `Buffer` has no `Drop` implementation and `MaybeUninit` never drops its contents, so the source leaks values left in slots and the value an overwrite replaces (monza/src/lib.rs:93); the model has no notion of ownership to express that.
- The `tracing::debug!` calls, the commented-out `Slot::write`/`read`, and the unused imports.
- Monza.Buffer.TryPush: `push` as written never returns on a non-empty buffer, so it is modelled one loop iteration at a time rather than as a terminating method. `Runs.Exec` reports such a call as `Stalled`, and `Runs.FailedPushRepeats` proves that the retry repeats forever.
- Monza.Buffer.constructor: requires `size >= 1`. For `new(0)` a debug build panics on `size - 1`; a default release build wraps it and gives one slot with `mask == usize::MAX`, on which `push` never returns (its test is `0 < 0 as u32`) and `pop` always returns `None`. Neither behaviour of `new(0)` is modelled.
- `usize` is taken to be 64 bits wide.
- Corrected.CorrectedRunIsFifo: the queue behaviour of the corrected `push` is proved only for a power-of-two `size` below 2^32. For other sizes `counter & mask` is not reduction modulo `size`, and that case is not characterised.
- src/main.rs compares `Option<i32>` with `Option<&i32>`; it serves only as the example behind `Runs.RoundTrip`.

## Findings

| source | as written | input that shows it | evidently intended | confidence | as-written member | corrected member |
|---|---|---|---|---|---|---|
| monza/src/lib.rs:83 | the local `tail` is loaded from `self.head`, so the capacity test passes whenever `size as u32` is nonzero, the value goes to the slot of `head`, and the compare-and-swap on `tail` succeeds only on an empty buffer | `Buffer::new(4)`, `push(a)`, then `push(b)`: the second call writes `b` over `a` and spins forever | load `tail` from `self.tail`, giving a queue that holds up to `size` values | high (not executed) | Runs.SecondPushStalls | Corrected.CorrectedRunIsFifo |
| monza/src/lib.rs:87 | the capacity test compares with `self.size as u32`, which is zero when `size` is a multiple of 2^32 | `Buffer::new(1 << 32)`, then `push(v)`: the test `0 < 0` fails on every iteration, so the call never returns | accept only sizes whose `u32` form is the size itself | low (not executed) | Runs.NoPushWhenSizeTruncatesToZero | Corrected.CheckedNewAcceptsPush |
| monza/src/lib.rs:63-78 | `new` accepts any `size`, but `counter & (size - 1)` is reduction modulo `size` only for a power of two. With `push` as written this cannot be seen, since at most one value ever waits (`Runs.AsWrittenRunIsFifo` holds for every `size`); it shows once the lib.rs:83 defect is corrected | `Buffer::new(10)` as in src/main.rs:4, with the corrected `push`: pushes of 0, 1 and 2 put 2 into slot 0 over 0, and the first `pop` returns 2 | reject sizes that are not powers of two, as `CheckedNew` does; the corrected buffer is then a queue of capacity `size` (`Corrected.CorrectedRunIsFifo`) | medium (not executed) | Corrected.NonPowerOfTwoOverwrites | Corrected.CheckedNew |
