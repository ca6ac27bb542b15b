# circular_buffer, modelled in Dafny

This project models `circular_buffer<T, Size>`, the fixed-capacity ring buffer in
`include/xitren/circular_buffer.hpp`. The model covers:

- the buffer's cursors: a logical write cursor `tail`, which grows by one on `push` and by the wrap
  distance on `update_head` and which `clear()` resets to 0, and a count `size`;
- its slot addressing: logical index `k` lives in slot `k % Size`;
- `push`, which overwrites the oldest element when the buffer is full;
- `pop`, which does nothing on an empty buffer;
- its random-access iterator;
- the two operations that keep the cursors in step with a DMA engine writing the storage
  directly: `mend` and `update_head`;
- the free stream operators `<<`, `>> count`, `>> array` and `==`.

The repository's unit tests are restated as methods with contracts on their observed outputs.

Files and modules:

- `ring.dfy` (module `Ring`): pure slot arithmetic and the specification functions.
  - `Window(s, start, len)`: the `len` elements read through the slots from logical index `start`.
  - `Keep(s, n)`: the newest `n` elements of `s`.
  - `Store(s, t, xs)`: storage after writing `xs` from logical index `t`.
  - `WrapDistance`: the amount by which `update_head` advances.
  - The lemmas relating these functions.
- `circular_buffer.dfy` (module `CircularBuffers`): the buffer as a class and the iterator as a datatype.
  - The class has a `const data: array<T>` for the storage and mutable `tail` and `size`.
  - `Contents()` is the abstraction: `Window(data[..], tail - size, size)`.
  - The iterator is a pair of buffer and position.
- `operators.dfy` (module `BufferOperators`): `<<`, `>> count`, `>> array`, `==` as written, and `==` corrected.
- `scenarios.dfy` (module `Scenarios`): the unit tests, the read-out loops they use, a first-in-first-out round trip and the counterexamples for `==`.

## Model

| member | source | states |
|---|---|---|
| Ring.Slot | include/xitren/circular_buffer.hpp:387-397 | every storage access goes through slot `index % Size`, which is below the capacity |
| Ring.Keep | include/xitren/circular_buffer.hpp:278-292 | the survivors of pushing `s` into a ring of capacity `n` are its last `n` elements (all of them when it is shorter), in order |
| Ring.WrapDistance | include/xitren/circular_buffer.hpp:371-380 | the advance computed by `update_head` is below the capacity |
| Ring.WrapDistanceLands | include/xitren/circular_buffer.hpp:371-380 | after the advance, the write cursor is in the same slot as `head_next`, in both the wrapping and the non-wrapping branch |
| Ring.WrapDistanceUnique | include/xitren/circular_buffer.hpp:371-380 | the advance is the only one below the capacity that lands on `head_next`'s slot |
| Ring.WrapDistanceIsModDifference | include/xitren/circular_buffer.hpp:371-380 | the advance equals `(head_next - tail) mod Size`; it is 0 exactly when both name the same slot, so a full turn reads as no advance |
| Ring.RunToBoundary | include/xitren/circular_buffer.hpp:399-403 | `((head / Size) + 1) * Size - head` equals `Size - head % Size`; the slots from `head` run consecutively for that many steps, and the next index is slot 0 |
| Ring.WindowDrop | include/xitren/circular_buffer.hpp:294-298 | dropping the oldest `k` elements of the contents moves the read cursor by `k` |
| Ring.PushWindow | include/xitren/circular_buffer.hpp:278-292 | writing the tail slot, bumping the cursor and clamping the count gives old contents plus the new element, keeping the newest `Size` |
| Ring.AdvanceWindow | include/xitren/circular_buffer.hpp:371-380 | advancing cursor and count by `inc` without writing appends the `inc` slots after the old cursor, keeping the newest `Size` |
| Ring.KeepExtend | include/xitren/circular_buffer.hpp:412-420 | keeping the newest `n` after every push equals keeping them once at the end |
| Ring.StoreExtend | include/xitren/circular_buffer.hpp:412-420 | each push writes its element over the slot after the previous one |
| Ring.StoreSlots | include/xitren/circular_buffer.hpp:412-420 | after writing at most `Size` elements from cursor `t`, slot `(t + i) % Size` holds the `i`-th element and every slot no write reached keeps its old value |
| Ring.CursorSlot | include/xitren/circular_buffer.hpp:278-292 | the slot `push` writes is the oldest element's when the ring is full, and no element's otherwise |
| CircularBuffers.CircularBuffer.constructor | include/xitren/circular_buffer.hpp:383-385 | a new buffer has both cursors at 0 and holds nothing |
| CircularBuffers.CircularBuffer.Capacity | include/xitren/circular_buffer.hpp:218-222 | the capacity is positive and bounds the size |
| CircularBuffers.CircularBuffer.Tail | include/xitren/circular_buffer.hpp:187-198 | the write cursor's slot is the oldest element's when the buffer is full, and the slot of no element otherwise |
| CircularBuffers.HeadHoldsOldest | include/xitren/circular_buffer.hpp:200-210 | the read cursor's slot holds the oldest element of a non-empty buffer |
| CircularBuffers.CircularBuffer.Size | include/xitren/circular_buffer.hpp:212-216 | the size is the number of elements held and never exceeds the capacity |
| CircularBuffers.CircularBuffer.Empty | include/xitren/circular_buffer.hpp:224-228 | empty exactly when the contents are empty |
| CircularBuffers.CircularBuffer.Full | include/xitren/circular_buffer.hpp:230-234 | full exactly when the contents fill the capacity |
| CircularBuffers.CircularBuffer.Data | include/xitren/circular_buffer.hpp:387-397 | the private accessor reads the slot `index % Size`; a logical index between the read and write cursors reads the element at that offset from the read cursor |
| CircularBuffers.CircularBuffer.At | include/xitren/circular_buffer.hpp:266-276 | `buffer[i]` reads slot `(head + i) % Size` unchecked, which is the `i`-th oldest element when `i < size` |
| CircularBuffers.CircularBuffer.Front | include/xitren/circular_buffer.hpp:242-252 | `front()` is `buffer[0]`, the oldest element when not empty |
| CircularBuffers.CircularBuffer.Back | include/xitren/circular_buffer.hpp:254-264 | `back()` is the newest element when not empty; otherwise it reads the slot before the cursor, which wraps through `SIZE_MAX` at cursor 0 |
| CircularBuffers.CircularBuffer.Storage | include/xitren/circular_buffer.hpp:360-364 | `storage()` is the backing array, and the `i`-th element is in slot `(head + i) % Size` of it |
| CircularBuffers.CircularBuffer.Begin | include/xitren/circular_buffer.hpp:300-310 | `begin()` is position 0 and dereferences to the oldest element |
| CircularBuffers.CircularBuffer.End | include/xitren/circular_buffer.hpp:312-322 | `end()` is position `size` |
| CircularBuffers.CircularBuffer.SizeCircleEnd | include/xitren/circular_buffer.hpp:399-403 | the run length is `min(size, Size - head % Size)`; its slots are consecutive; it stops only at slot 0 or the last element; it is positive when non-empty |
| CircularBuffers.CircularBuffer.Mend | include/xitren/circular_buffer.hpp:348-358 | `mend()` is at the end of the contiguous run and never past `end()` |
| CircularBuffers.CircularBuffer.Clear | include/xitren/circular_buffer.hpp:236-240 | both cursors reset to 0 and the contents become empty |
| CircularBuffers.CircularBuffer.Push | include/xitren/circular_buffer.hpp:278-292 | cursor +1, size +1 clamped to `Size`; only the old tail slot changes, to the item; contents are old plus item, or lose the oldest when full |
| CircularBuffers.CircularBuffer.Pop | include/xitren/circular_buffer.hpp:294-298 | the size drops by one and the oldest element goes; on an empty buffer nothing changes |
| CircularBuffers.CircularBuffer.UpdateHead | include/xitren/circular_buffer.hpp:371-380 | the cursor advances by the wrap distance onto `head_next`'s slot and the size is clamped; the contents gain the slots written from outside, newest `Size` kept |
| CircularBuffers.Iterator.Deref | include/xitren/circular_buffer.hpp:29-39 | `*it` is the element at offset `pos` from the read cursor |
| CircularBuffers.IteratorArithmetic | include/xitren/circular_buffer.hpp:53-159 | comparisons follow the sign of the iterator difference; `it + n - it == n`; stepping is undone by the opposite step |
| CircularBuffers.IterationCoversContents | include/xitren/circular_buffer.hpp:300-358 | `end() - begin()` is the size; `begin() + i` visits the `i`-th element; `begin() <= mend() <= end()`, and strictly after `begin()` when not empty |
| BufferOperators.PushAll | include/xitren/circular_buffer.hpp:412-420 | `<<` leaves the newest `Size` of old contents plus input, and the storage is the old storage with the input written slot by slot from the old cursor; when the input is no longer than `Size`, `Ring.StoreSlots` gives each slot's value |
| BufferOperators.Discard | include/xitren/circular_buffer.hpp:422-431 | `>> count` removes the oldest `min(count, size)` elements |
| BufferOperators.Drain | include/xitren/circular_buffer.hpp:433-444 | `>> array` does nothing when fewer elements than the array length are held; otherwise it moves the oldest ones into the array, in order |
| BufferOperators.EqualsAsWritten | include/xitren/circular_buffer.hpp:446-456 | `==` as written: the uninitialised start value and-ed with element-wise equality over the argument's length, with no length check |
| BufferOperators.Equals | include/xitren/circular_buffer.hpp:446-456 | corrected `==`: true exactly when the contents equal the argument |
| BufferOperators.AsWrittenAcceptsPrefix | include/xitren/circular_buffer.hpp:446-456 | every strict prefix of the contents passes the as-written element checks, though the contents differ from it |
| Scenarios.PopEach | tests/circular_buffer_base_test.cpp:18-21 | reading `front()` and popping `count` times yields the oldest `count` elements in order, and removes them |
| Scenarios.Collect | tests/circular_buffer_base_test.cpp:36-38 | the range-for from `begin()` to `end()` visits exactly the contents in order |
| Scenarios.FillStorage | tests/circular_buffer_base_test.cpp:114-114 | copying into `storage()` sets the slots and moves no cursor |
| Scenarios.DrainNew | tests/circular_buffer_base_test.cpp:74-75 | `>>` into a new array of `k` elements returns the oldest `k` |
| Scenarios.BasicPushPull | tests/circular_buffer_base_test.cpp:7-23 | capacity 8; size 5 after pushing "12345", which reads back in order; size 0 after |
| Scenarios.BasicPushPullMass | tests/circular_buffer_base_test.cpp:25-41 | `end() - begin()` is 5, the range-for visits "12345", `>> 5` empties |
| Scenarios.Overburned | tests/circular_buffer_base_test.cpp:43-51 | sixteen pushes into ten slots leave "ghijklmnop" |
| Scenarios.BasicPushPullOverburn | tests/circular_buffer_base_test.cpp:43-60 | size 10, the elements read back are "ghijklmnop", size 0 after |
| Scenarios.BasicPushPullArray | tests/circular_buffer_base_test.cpp:62-88 | sizes 10 then 6; arrays of 4 and 6 receive "ghij" and "klmnop"; size 0 after |
| Scenarios.BasicPushPullMassOverburn | tests/circular_buffer_base_test.cpp:90-107 | `end() - begin()` is 10, the range-for visits "ghijklmnop", `>> 10` empties |
| Scenarios.Filled | tests/circular_buffer_base_test.cpp:112-114 | after the external copy the storage holds "abcdefghij" and the buffer is empty |
| Scenarios.ExposeFilled | tests/circular_buffer_base_test.cpp:117-126 | `update_head(4)` from 0, then `update_head(8)` from 4, expose "abcd" then "efgh"; `update_head(8)` from 0 exposes "abcdefgh" |
| Scenarios.BasicUpdateHead | tests/circular_buffer_base_test.cpp:109-135 | sizes 4 and 4, reading "abcd" then "efgh", size 0 after |
| Scenarios.BasicUpdateHeadOverburn | tests/circular_buffer_base_test.cpp:137-154 | size 8, the range-for visits "abcdefgh", `>> 8` empties |
| Scenarios.FillCounting | tests/circular_buffer_base_test.cpp:183-186 | the size after the `i`-th push into sixteen empty slots is `i + 1` |
| Scenarios.DrainCounting | tests/circular_buffer_base_test.cpp:190-193 | the size after the `k`-th pop of a full buffer of sixteen is `15 - k` |
| Scenarios.BasicBoundary | tests/circular_buffer_base_test.cpp:178-196 | the size counts up to 16, stays 16 on an extra push, counts down to 0, and stays 0 on an extra pop |
| Scenarios.MendAtWrap | include/xitren/circular_buffer.hpp:348-358 | with capacity 10, read cursor at slot 6 and eight elements, `mend()` is four past `begin()` and four elements remain after it |
| Scenarios.PushThenDrain | include/xitren/circular_buffer.hpp:412-444 | `<<` into an empty buffer then `>>` of everything returns the input in order, or its newest `Size` elements |
| Scenarios.EqualsUninitialisedFalse | include/xitren/circular_buffer.hpp:446-456 | with a false start value, `==` as written rejects a buffer holding exactly "ab"; the corrected `==` accepts it |
| Scenarios.EqualsIgnoresLength | include/xitren/circular_buffer.hpp:446-456 | with a true start value, `==` as written says a buffer holding "ab" equals "a"; the corrected `==` does not |

`update_head` cannot tell a DMA engine that wrote a full turn of `Size` slots from one that wrote
nothing. It computes the distance from two slot numbers, so the advance is always below `Size`.
`Ring.WrapDistanceIsModDifference` states this.

## Left out

- Reverse iterators (`rbegin`/`rend`, lines 324-346): they are declared to return `iterator` but build
  `reverse_iterator{this, size_}`, which has no such constructor, so they are ill-formed as soon as
  they are instantiated. Nothing can call them.
- `storage_size_in_bytes` (lines 365-369) and the `aligned_storage` cast in `data`: these are about
  byte layout, which the model does not represent. Each slot holds a `T`.
- `circle_end` (lines 405-409): it is a helper that no other member or test uses.
- Post-increment and post-decrement of iterators, and `operator->`. Post-increment and post-decrement
  return a copy and step the iterator, which `Next` and `Prev` cover. `operator->` is `&*it`.
- The `const` overloads. They behave like the non-const ones.
- The timing tests `basic_time_measure_push` and `basic_time_measure_push_pop`: they measure speed.
  Their only check is `capacity() == 1024` (tests lines 160 and 171), which
  `CircularBuffers.CircularBuffer.Capacity` covers for any capacity.
- CircularBuffers.Iterator.Prev: requires `pos > 0`; the source's `size_t` position wraps below zero
  instead.
- CircularBuffers.Iterator.Advance: requires a non-negative result, for the same reason.
- CircularBuffers.Iterator.Retreat: requires a non-negative result, for the same reason.
- Unsigned wrap-around of `tail_` is not modelled: the cursors are unbounded naturals. A 64-bit `tail_`
  wraps only after 2^64 pushes. The source also wraps in practice in `back()` at cursor 0, which
  `CircularBuffers.CircularBuffer.Back` models through `SizeMax`, and in iterator `-`, `-=` and
  `it - rhs` (lines 141-159), which wrap a `size_t` position below zero; `Retreat` and `Distance`
  work on integers instead.
- CircularBuffers.CircularBuffer.Back: assumes a 64-bit `size_t` (`SizeMax` is 2^64 - 1). With a
  32-bit `size_t`, `back()` at cursor 0 reads slot `(2^32 - 1) % Size`, which differs from
  `(2^64 - 1) % Size` for some capacities (for `Size` 7 it is slot 3, not slot 1).
- BufferOperators.Drain: requires that the output array is not the buffer's own storage. `storage()`
  is public, so the source accepts an `out_data` span over it; the element moved out would then
  overwrite slots the loop still reads, and the model excludes that aliasing.
- BufferOperators.PushAll: reads the input as a value taken before the loop. The source reads
  `in_data` through references while `push` writes the storage, so an `in_data` that views the
  buffer's own `storage()` sees slots the loop has already overwritten; the model does not capture
  that aliasing.
- The element type needs a default value (`T(0)`) so that fresh storage can be allocated. This stands
  for the uninitialised `aligned_storage`. Several members can read a slot that was never written:
  `back()` on a new buffer, `front()` and `[]` past the size, `==` past `end()`, and `update_head`
  exposing slots the DMA engine did not fill. In the model a never-written slot holds the default
  value; in the source its contents are indeterminate.
- Concurrency is not modelled. The DMA engine writes between calls, which the model represents by the
  caller writing `Storage()` (see `Scenarios.FillStorage`).
- The namespace, `std::ranges::common_range` and the `r_value` overload of `push` are not modelled.
  The rvalue overload does the same as the const-reference one.

## Findings

| source | as written | input that shows it | evidently intended | confidence | as-written member | corrected member |
|---|---|---|---|---|---|---|
| include/xitren/circular_buffer.hpp:446-456 | `bool res;` is never initialised before `res = res & (...)`, so the result depends on whatever the stack held; for an empty `in_data` the indeterminate value is returned as is | buffer holding "ab", `in_data` "ab", `res` happening to start false: the result is false | start from `true` and return whether the buffer holds exactly `in_data` | not executed | Scenarios.EqualsUninitialisedFalse | BufferOperators.Equals |
| include/xitren/circular_buffer.hpp:446-456 | the loop compares only as many elements as `in_data` has and never compares lengths; a longer `in_data` also reads stale slots past `end()` | buffer holding "ab", `in_data` "a", `res` happening to start true: the result is true | false unless `size() == in_data.size()` and every element matches | not executed | Scenarios.EqualsIgnoresLength | BufferOperators.Equals |
