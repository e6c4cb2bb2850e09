# Growable inline-buffer containers: stack, queue and deque

This project models the three generic containers of `c-core-utils`, each
generated per element type by a pair of macros:

- the LIFO stack of `src/stack.h`
- the circular FIFO queue of `src/queue.h`
- the circular double-ended queue of `src/deque.h`

Each container starts on an inline buffer of `init_size` slots that is
embedded in its struct. It moves to a heap buffer when it must grow, and
every growth multiplies the capacity by `growth_factor`. Both constants are
powers of two, so the circular containers find the slot of logical position
`x` as `x & (size - 1)` and never divide.

The model:

- `Bits`: powers of two, and the C operator `&` on naturals (`BitAnd`). It
  proves that masking with `size - 1` is the remainder by `size`.
- `Ring`: the logical contents of a circular buffer, as a pure function of
  the slots, the start index and the length. Beside it are lemmas saying what
  writing a slot, moving the start, swapping two slots and relocating the
  buffer do to those contents.
- `Memory`: `MEMORY_COPY` and `SWAP` on arrays of elements.
- `Growth`: the macro arguments (`Params`), with the static assertions of
  `DEFINE_*` and `GENERATE_*` as `Params.Valid`. It also holds the overflow
  guard of every resize, and the relocation step that the three resize
  routines share (`Relocate`).
- `Stacks`, `Queues` and `Deques`: one class per container. The fields are
  those of the C struct: the inline buffer, the buffer in use, `len`, `size`,
  and `head` or `front`. The methods update them in place, and each states
  the new contents in terms of the old ones.
- `StackLaws`, `QueueLaws` and `DequeLaws`: client methods that allocate
  their own container and establish, for every configuration and every
  input, what the repository's unit tests check on particular values. They
  cover last in first out, first in first out, reversal, the
  full / grow / refill cycle, and repeated growth followed by delete.

The allocator is an input: `allocOk` is false exactly when `alloc_fn` or
`realloc_fn` would return NULL. A reallocation is modelled as a fresh array
holding a copy of the old slots. The code is followed throughout, except for
one defect in the queue and deque resize, described under "## Findings". The
containers use the corrected relocation. The relocation as written is
modelled beside it, with the input that shows the difference.

## Model

| member | source | states |
|---|---|---|
| Bits.MaskIndex | src/queue.h:174-175 | The masked slot `x & (size - 1)` equals `x % size` and lies inside the buffer, for every power-of-two size. |
| Bits.AndLowMaskIsMod | src/deque.h:266-267 | For a power of two m, `x & (m - 1)` is exactly `x % m`, the form the commented-out line uses. |
| Bits.Pow2Product | src/queue.h:92-95 | A power-of-two capacity times a power-of-two growth factor is again a power of two, so masking stays valid after growth. |
| Growth.GuardMeansNoOverflow | src/stack.h:106-108 | The guard `size > MAX / growth_factor` refuses exactly the sizes whose product with the factor would exceed the maximum of len_type. |
| Growth.GrownSizeValid | src/stack.h:106-108 | Growth that passes the guard gives a power-of-two capacity that is strictly larger and still fits in len_type. |
| Growth.GrowthStep | src/stack.h:106-108 | From capacity init_size·gf^i the guard admits growth whenever init_size·gf^k fits for some k > i, and the new capacity is init_size·gf^(i+1). |
| Growth.RingIndexFits | src/deque.h:267 | The unsigned sums front + len and front + size - 1 never exceed len_type's maximum, so unbounded arithmetic loses no wrap-around. |
| Growth.Relocate | src/queue.h:112-145 | The resize relocation, with the not-wrapped inline case corrected. Allocation failure leaves everything as it was. A not-wrapped heap buffer keeps every slot and head. A wrapped run is laid out as its tail part, then its head part, from slot 0. A not-wrapped inline run is moved to slot 0. The live sequence is the same afterwards. |
| Growth.RelocationKeepsOrder | src/deque.h:212-242 | Each of the three relocations of Growth.Relocate leaves the logical contents unchanged, and the new start lies inside the new buffer. The inline not-wrapped relocation is in its corrected form, not the copy from slot 0 of src/deque.h:224-227. |
| Growth.RelocatedAsWritten | src/queue.h:115-145 | The relocation as the code writes it. The contents are kept when the buffer is on the heap, when the run wraps, or when head is 0. The not-wrapped inline case copies len slots from slot 0 and keeps head. |
| Growth.AsWrittenLosesElement | src/queue.h:127-130 | With init_size 4, after enqueue 1, enqueue 2 and one dequeue, the contents are [2]. After the relocation as written they read [0] from a zeroed block. |
| Memory.MemoryCopy | src/memory-copy.h:19-31 | count elements of src from `from` land at `at` in dst, and every other slot of dst is unchanged. |
| Memory.Swap | src/swap.h:17-24 | The two slots are exchanged and nothing else in the array changes. |
| Ring.LogicalFromZero | src/stack.h:110-116 | Started at slot 0, the live sequence is the buffer prefix of length len: the stack's layout. |
| Ring.LogicalPushBack | src/queue.h:174-176 | Writing slot (head + len) mod size and counting one more element appends that element to the contents. |
| Ring.LogicalPopFront | src/queue.h:185-187 | Moving the start one slot forward (mod size) with one fewer element drops the first element. |
| Ring.LogicalEnds | src/deque.h:52-65 | The first element sits at the start slot, and the last at (front + len - 1) mod size. |
| Ring.LogicalPopBack | src/deque.h:295-302 | Counting one fewer element, with the start fixed, drops the last element. |
| Ring.LogicalPushFront | src/deque.h:265-268 | Moving the start one slot back, to (front + size - 1) mod size, and writing that slot prepends the element. |
| Ring.LogicalSwap | src/queue.h:207-209 | Swapping the slots of live positions a and b swaps those two elements of the contents and no other. |
| Ring.UnwrapKeepsOrder | src/queue.h:131-136 | A new buffer that starts with the tail run and then the head run holds the same contents from slot 0. |
| Ring.InPlaceKeepsOrder | src/queue.h:115-120 | A larger buffer that keeps the live slots of a not-wrapped run in place holds the same contents from the same start. |
| Ring.CopyToFrontKeepsOrder | src/queue.h:127-130 | A new buffer that starts with the run values[head..head+len] holds the same contents from slot 0. This is the corrected not-wrapped inline case. |
| Ring.SwappedEndsBounds | src/stack.h:179-183 | Zero symmetric swaps leave the sequence as it was, and len / 2 of them reverse it. |
| Ring.SwappedEndsStep | src/stack.h:182-183 | One more symmetric swap, of positions k and len - 1 - k, advances the partial reversal by one step. |
| Ring.PrefixReverseStep | src/stack.h:182-183 | Swapping slots i and len - 1 - i of the stack buffer advances the reversal of its prefix and leaves the slots above len alone. |
| Ring.LogicalReverseStep | src/queue.h:204-209 | Swapping the masked slots of positions i and len - 1 - i advances the reversal of the queue's contents. |
| Ring.ReverseInvolution | src/stack.h:176-184 | Reversing twice gives back the original sequence: the helper behind the second reversal in StackLaws.PushAllReverse and QueueLaws.EnqueueAllReverse. |
| Stacks.Stack.Init | src/stack.h:43-48 | A new stack is empty, on its inline buffer, with capacity init_size. |
| Stacks.Stack.IsEmpty | src/stack.h:49-53 | True exactly when the stack holds no element. |
| Stacks.Stack.IsFull | src/stack.h:54-58 | True exactly when the number of elements equals the capacity. |
| Stacks.Stack.Resize | src/stack.h:101-127 | Succeeds exactly when the guard admits growth and the allocator succeeds. On success the capacity is multiplied by the factor, the elements are kept, and a heap buffer's slots are kept. On failure nothing changes. |
| Stacks.Stack.Clear | src/stack.h:129-133 | The stack is empty; buffer and capacity stay. |
| Stacks.Stack.Delete | src/stack.h:135-145 | The stack is empty, back on its inline buffer with capacity init_size. |
| Stacks.Stack.Push | src/stack.h:147-157 | Fails only when the stack is full and growth fails, and then changes nothing. On success v is appended on top, and the capacity grows only if the stack was full. |
| Stacks.Stack.Pop | src/stack.h:159-167 | Fails exactly on an empty stack. Otherwise the top element is dropped and nothing else changes. |
| Stacks.Stack.Peek | src/stack.h:169-174 | Returns the last (top) element of the contents. |
| Stacks.Stack.Reverse | src/stack.h:176-184 | The contents are reversed in place; the slots above the top are untouched. |
| Stacks.ReversePrefix | src/stack.h:182-183 | The swap loop turns `a[..len]` into its reverse and leaves `a[len..]` alone. |
| Queues.Queue.Init | src/queue.h:44-50 | A new queue is empty, head at slot 0, on its inline buffer with capacity init_size. |
| Queues.Queue.IsEmpty | src/queue.h:51-55 | True exactly when the queue holds no element. |
| Queues.Queue.IsFull | src/queue.h:56-60 | True exactly when the number of elements equals the capacity. |
| Queues.Queue.Resize | src/queue.h:103-147 | Succeeds exactly when the guard admits growth and the allocator succeeds. On success the capacity is multiplied by the factor. A wrapped queue is unwrapped to head 0, a not-wrapped heap queue keeps its slots and head, and a not-wrapped inline queue is moved to slot 0 (corrected). The contents are unchanged. |
| Queues.Queue.Clear | src/queue.h:149-154 | The queue is empty and head is back at slot 0. |
| Queues.Queue.Delete | src/queue.h:156-166 | The queue is empty, head 0, back on its inline buffer with capacity init_size. |
| Queues.Queue.Enqueue | src/queue.h:168-178 | Fails only when the queue is full and growth fails, and then changes nothing. On success v is appended at the back, and the capacity grows only if the queue was full. Without growth head and the buffer stay; after growth head is 0. |
| Queues.Queue.PutBack | src/queue.h:174-176 | With room left, writing slot (head + len) & (size - 1) appends v. |
| Queues.Queue.Dequeue | src/queue.h:180-189 | Fails exactly on an empty queue. Otherwise head advances by one mod size and the first element is dropped. |
| Queues.Queue.Peek | src/queue.h:191-196 | Returns the first (oldest) element of the contents. |
| Queues.Queue.Reverse | src/queue.h:198-210 | The contents are reversed in place, head and len unchanged. |
| Queues.ReverseRing | src/queue.h:204-209 | Swapping masked slots (head + i) and (tail - i) for i below len / 2 reverses the circular contents. |
| Deques.Deque.Init | src/deque.h:44-50 | A new deque is empty, front at slot 0, on its inline buffer with capacity init_size. |
| Deques.Deque.PeekFront | src/deque.h:52-57 | Returns the first element of the contents. |
| Deques.Deque.PeekBack | src/deque.h:59-65 | Returns the last element of the contents, read at the masked slot front + len - 1. |
| Deques.Deque.IsEmpty | src/deque.h:156-159 | True exactly when the deque holds no element. |
| Deques.Deque.IsFull | src/deque.h:151-154 | True exactly when the number of elements equals the capacity. |
| Deques.Deque.Resize | src/deque.h:200-244 | As for the queue, with front in place of head: success exactly when the guard admits growth and allocation succeeds. The three relocations are as stated, with the not-wrapped inline case corrected, and the contents are unchanged. |
| Deques.Deque.Clear | src/deque.h:161-164 | The deque is empty; front, buffer and capacity stay. |
| Deques.Deque.Delete | src/deque.h:246-257 | The deque is empty, front 0, back on its inline buffer with capacity init_size. |
| Deques.Deque.InsertFront | src/deque.h:259-270 | Fails only when the deque is full and growth fails, and then changes nothing. On success v is prepended, and the capacity grows only if the deque was full. Without growth the buffer stays and front becomes (front + size - 1) mod size; after growth front is size - 1. |
| Deques.Deque.PutFront | src/deque.h:265-268 | With room left, len grows by one, front becomes (front + size - 1) mod size, and v written there is prepended. |
| Deques.Deque.InsertBack | src/deque.h:272-282 | Fails only when the deque is full and growth fails, and then changes nothing. On success v is appended; without growth, front and the buffer stay; after growth front is 0. |
| Deques.Deque.PutBack | src/deque.h:278-280 | With room left, writing slot (front + len) & (size - 1) appends v. |
| Deques.Deque.RemoveFront | src/deque.h:284-293 | Fails exactly on an empty deque. Otherwise front advances by one mod size and the first element is dropped. |
| Deques.Deque.RemoveBack | src/deque.h:295-302 | Fails exactly on an empty deque. Otherwise the last element is dropped and front stays. |
| StackLaws.PushAllPopAll | test/stack.test.c:95-114 | Pushing any vs of at most MAX / growth_factor elements and then peeking and popping until empty yields vs reversed. |
| StackLaws.PushAllReverse | test/stack.test.c:164-184 | Reversing a stack built from any vs of at most MAX / growth_factor elements holds vs reversed; reversing again gives vs. |
| StackLaws.FullCycle | test/stack.test.c:129-150 | A new stack is not full; init_size pushes fill it; one resize leaves it not full; size - len more pushes fill it. |
| StackLaws.RepeatedGrowth | test/stack.test.c:61-79 | k resizes all succeed while init_size·gf^k fits; the i-th leaves capacity init_size·gf^(i+1); delete restores init_size. |
| QueueLaws.EnqueueAllDequeueAll | test/queue.test.c:123-140 | Enqueueing any vs of at most MAX / growth_factor elements and then peeking and dequeueing until empty yields vs in order. |
| QueueLaws.WrappedGrowth | test/queue.test.c:87-106 | A full queue that wraps, with head at k, grows to init_size·gf with head 0 and its elements in order. |
| QueueLaws.FullCycle | test/queue.test.c:155-176 | A new queue is not full; init_size enqueues fill it; one resize leaves it not full; size - len more enqueues fill it. |
| QueueLaws.RepeatedGrowth | test/queue.test.c:68-86 | k resizes all succeed while init_size·gf^k fits; the i-th leaves capacity init_size·gf^(i+1); delete restores init_size. |
| QueueLaws.EnqueueAllReverse | src/queue.h:198-210 | Reversing a queue built from any vs of at most MAX / growth_factor elements holds vs reversed; reversing again gives vs. |
| DequeLaws.FrontInFrontOut | test/deque.test.c:126-145 | Inserting any vs of at most MAX / growth_factor elements at the front and then peeking and removing at the front yields vs reversed. |
| DequeLaws.BackInBackOut | test/deque.test.c:147-166 | Inserting any vs of at most MAX / growth_factor elements at the back and then peeking and removing at the back yields vs reversed. |
| DequeLaws.BackInFrontOut | src/deque.h:272-293 | Inserting any vs of at most MAX / growth_factor elements at the back and then peeking and removing at the front yields vs in order. |
| DequeLaws.FullCycle | test/deque.test.c:181-202 | A new deque is not full; init_size front insertions fill it; one resize leaves it not full; size - len back insertions fill it. |
| DequeLaws.RepeatedGrowth | test/deque.test.c:68-86 | k resizes all succeed while init_size·gf^k fits; the i-th leaves capacity init_size·gf^(i+1); delete restores init_size. |

## Left out

- Allocation, reallocation and freeing are not modelled as memory. Success of `alloc_fn` / `realloc_fn` is the input `allocOk`. A reallocation is a fresh array with a copy of the old slots, so the address identity realloc may keep is not modelled. `free_fn` is dropping the reference.
- `validate_value_fn` is not modelled. push, enque, insert_front and insert_back call it only inside a debug `assert()` before each insertion (src/stack.h:150, src/queue.h:171, src/deque.h:262, src/deque.h:275). A false result aborts a debug build and has no effect in a release build.
- The `assert_istype` / `assert_type` / `typecheck_*` compile-time checks and the container declaration macros are not modelled. Only the numeric static assertions are kept, in `Growth.Params.Valid`.
- `len_type` is modelled as unbounded naturals bounded by `Params.maxLen`, the value of `(len_type)(-1)`. `Growth.RingIndexFits` shows that the index sums the code forms stay within that bound.
- Calling a peek on an empty container is a contract violation in the code, caught by a debug `assert`. Without it, the stack's peek reads `values[len - 1]` with len 0 (src/stack.h:173). That index is outside the buffer, which is undefined behaviour. The queue and deque peeks read a stale slot inside the buffer (src/queue.h:195, src/deque.h:56, src/deque.h:64). The model states non-emptiness as a precondition of `Stacks.Stack.Peek`, `Queues.Queue.Peek`, `Deques.Deque.PeekFront` and `Deques.Deque.PeekBack`.
- The contents of unused slots, and of new memory before it is written, are whatever Dafny's default value of the element type is. C leaves them indeterminate. No contract depends on them, except that `Growth.RelocatedAsWritten` takes them as the explicit parameter `block`.
- `MEMORY_COPY` copies bytes; the model copies whole elements. The byte count in each call is `sizeof(type)` times the element count, so the two agree while that product fits in size_t. Byte-count overflow of `sizeof(type) * n`, here and in the allocation sizes (src/stack.h:112, src/stack.h:119, src/queue.h:117, src/queue.h:123), is not modelled.
- Queues.Queue.Resize: models the corrected relocation for the not-wrapped inline case, not the code as written. The code as written is `Growth.RelocatedAsWritten`; see "## Findings".
- Growth.Relocate: the inline not-wrapped branch is the corrected one. It copies the run from head and sets head to 0, where src/queue.h:127-130 and src/deque.h:224-227 copy len slots from slot 0 and keep head. The code as written is `Growth.RelocatedAsWritten`.
- Growth.RelocationKeepsOrder: its third case is the corrected copy-to-front layout of Growth.Relocate, not the layout the code writes in the inline not-wrapped branch. For that layout the contents are kept only when head is 0 (`Growth.RelocatedAsWritten`).
- Deques.Deque.Resize: models the corrected relocation for the not-wrapped inline case, like the queue. The code as written is `Growth.RelocatedAsWritten`; see "## Findings".
- The all-input laws bound the input to at most MAX / growth_factor elements, the length up to which every insertion is sure to succeed. Longer inputs that still fit the largest reachable capacity are not covered. For example, an 8-bit len_type with init_size 2 and growth_factor 4 reaches 128 slots.
- Writing to the struct fields directly, as the resize tests do (setting `head` and `len` by hand), is not modelled. `QueueLaws.WrappedGrowth` reaches a wrapped full queue through enqueue and dequeue instead.

## Findings

| source | as written | input that shows it | evidently intended | confidence | as-written member | corrected member |
|---|---|---|---|---|---|---|
| src/queue.h:127-130 | When the buffer is inline and the live run does not wrap, resize copies `len` slots starting at slot 0 and keeps `head`. Live slots from `len` onwards are never copied. | init_size 4; enqueue 1, enqueue 2, dequeue (head 1, contents [2]); then `queue_resize`. The new buffer's slot 1 was never written, so peek reads an indeterminate value instead of 2. | Copy the run starting at `head` and move `head` to 0, keeping the contents. | not executed | Growth.AsWrittenLosesElement | Growth.Relocate |
| src/deque.h:224-227 | The same relocation in deque_resize, with `front` in place of `head`. | init_size 4; insert_back 1, insert_back 2, remove_front (front 1, contents [2]); then `deque_resize`. | Copy the run starting at `front` and move `front` to 0. | not executed | Growth.RelocatedAsWritten | Growth.Relocate |

Only an explicit resize reaches the defect. Growth triggered by enqueue or
insert happens only when the container is full. A full run does not wrap
only when its start is 0, and that case is copied correctly.
