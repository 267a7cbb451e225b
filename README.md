# ThreadSafeStructures in Dafny

A model of the three containers of the ThreadSafeStructures C++ library, with
proofs about the model:

- `DynArr`, the growable array, in two versions:
  - src/dynarr.hpp, with `reserve` and `clear`, modelled by `common.dfy` and `src_dynarr.dfy`;
  - inc/dynarr.hpp, whose `reallocate` doubles on a zero argument and copies only the elements, modelled by `inc_dynarr.dfy`.
- `Stack` of src/stack.hpp, a LIFO over a `DynArr` and a signed `topIndex`, modelled by `src_stack.dfy`.
- `LinkedList` of src/linkedlist.hpp, a doubly-linked list of heap-allocated `ListNode`s, modelled by `src_linkedlist.dfy`.

Each container is a Dafny `class` with the C++ fields, and each operation is
a method that updates them in place. A ghost invariant `Valid()` ties the
fields to an abstract view, and every method states its effect on that view:

- `Elements()` for the array;
- `Items()` for the stack;
- the ghost sequences `Nodes` and `Contents` for the list.

Each method also states its error cases. The C++ exceptions become a
`Result` or `Outcome` value whose error names the exception class
(`RuntimeError` for `std::runtime_error`, `OutOfRange` for
`std::out_of_range`).

Other modelling choices:

- **Unsigned fields** are `nat`s bounded by `UINT_MAX`. Where the code
  doubles a capacity or an index, the caller must keep the result within 32
  bits.
- **Stack size:** `Stack::size()` converts `topIndex + 1` to `unsigned`
  explicitly (`Common.ToUnsigned`), because that conversion is observable
  after a pop on an empty stack.
- **Undefined behaviour:** where the C++ code would dereference null, index
  past a buffer or write to a zero-length buffer, the model has a
  precondition that excludes the input, and the method's doc comment names
  it. The exceptions are the overflow of the `int` loop counters and of
  `topIndex` in repeated failed pops, and `memcpy` on a `T` that is not
  trivially copyable; each is listed under "Left out".
- **Fresh buffers:** the slots of a fresh `new T[n]` are unconstrained, like
  the indeterminate slots of the C++ buffer.

Where the library's intended behaviour and its code differ, the model
follows the code:

- `get`/`set` never report an out-of-bounds index. They grow the buffer
  when `index > capacity`.
- src `clear()` keeps the array's size.
- `remove(pos)` rejects only `pos > size()`.
- `pop()` decrements before it checks for emptiness.
- `remove` never updates `head` or `tail`.
- The code has no list iterators, so none are modelled.
- The comments at src/dynarr.hpp:32, inc/dynarr.hpp:27 and
  src/stack.hpp:26 promise 64 slots. The code allocates 16, and so does
  the model.

When an operation behaves in a way its authors evidently did not intend, the
model has it as written and beside it a corrected version; the "Findings"
table pairs them.

## Model

| member | source | states |
|---|---|---|
| Common.ToUnsigned | src/stack.hpp:43 | the `int` to `unsigned` conversion: the result is below 2^32, equals `x` for values already in range, and is `x + 2^32` for negative values down to -2^32 |
| Common.GrownCapacity | src/dynarr.hpp:69-70 | the grow check of `get`/`set`/`operator[]`, written alike at inc/dynarr.hpp:64-65: capacity never shrinks; every index other than `capacity` ends inside the buffer; `index == capacity` is left one past it; a smaller index keeps the capacity |
| Common.GrownCapacityChecked | src/dynarr.hpp:69-70 | the intended `index >= capacity` check: capacity never shrinks, and afterwards the index is inside the buffer except for index 0 of a zero-capacity array |
| Common.PushBackCapacity | src/dynarr.hpp:101-102 | the grow check of `pushBack`, the same at inc/dynarr.hpp:96-97: capacity doubles exactly when the array is full, is kept otherwise, and a non-zero capacity always leaves room for one more element |
| SrcDynArr.DynArr.constructor | src/dynarr.hpp:24-36 | `DynArr()` gives an empty array with a fresh 16-slot buffer |
| SrcDynArr.DynArr.WithCapacity | src/dynarr.hpp:38-43 | `DynArr(capacity)` gives an empty array with a fresh buffer of that capacity |
| SrcDynArr.DynArr.Size | src/dynarr.hpp:56-63 | `size()` is the number of elements and never exceeds the capacity |
| SrcDynArr.DynArr.Reallocate | src/dynarr.hpp:107-118 | a fresh buffer of `newCap` slots holds a copy of every old slot (the copy loop runs to the old capacity), and the elements are unchanged |
| SrcDynArr.DynArr.Get | src/dynarr.hpp:65-74 | `get(index)` returns slot `index` (element `index` when `index < size()`), grows the capacity as `GrownCapacity` says while keeping every old slot, and changes nothing when the index is inside the buffer |
| SrcDynArr.DynArr.GetChecked | src/dynarr.hpp:65-74 | `get` with the intended check: afterwards the index is inside the buffer, the returned value is that slot, and the elements are kept |
| SrcDynArr.DynArr.Set | src/dynarr.hpp:87-95 | `set(index, val)` writes slot `index` and leaves every other slot, and the size, unchanged; below the size the elements are updated at `index` |
| SrcDynArr.DynArr.PushBack | src/dynarr.hpp:97-105 | `pushBack(val)` appends `val` to the elements, doubling the capacity exactly when full; it keeps the slots above the size, and the buffer itself when no growth is needed |
| SrcDynArr.DynArr.Reserve | src/dynarr.hpp:120-127 | `reserve(newCap)` makes the capacity the larger of the two, keeps every slot and the elements, and changes nothing when no growth is needed |
| SrcDynArr.DynArr.Clear | src/dynarr.hpp:129-137 | as written: a fresh buffer of the same capacity, and the size is not reset |
| SrcDynArr.DynArr.ClearReset | src/dynarr.hpp:129-137 | `clear()` as intended: same capacity, no elements |
| SrcDynArr.PushBackReadBack | test/tests.cpp:5-11 | pushing 0 .. n-1 onto a new array and reading each index back yields 0 .. n-1, across every growth |
| SrcDynArr.ClearKeepsSize | src/dynarr.hpp:129-137 | push one value and `clear()`: `size()` still reports 1 |
| SrcDynArr.ClearResetEmpties | src/dynarr.hpp:129-137 | the same with the intended `clear()`: `size()` reports 0 |
| SrcDynArr.GetCheckedAtCapacity | src/dynarr.hpp:65-74 | with the intended check, `get(16)` on a new array grows it to 32 slots |
| IncDynArr.ReallocTarget | inc/dynarr.hpp:102-106 | the capacity `reallocate(newCap)` installs: `newCap` when non-zero, otherwise twice the capacity, which is larger than a non-zero capacity |
| IncDynArr.DynArr.constructor | inc/dynarr.hpp:17-31 | `DynArr()` gives an empty array with a fresh 16-slot buffer |
| IncDynArr.DynArr.WithCapacity | inc/dynarr.hpp:33-38 | `DynArr(capacity)` gives an empty array with a fresh buffer of that capacity |
| IncDynArr.DynArr.Size | inc/dynarr.hpp:51-58 | `size()` is the number of elements and never exceeds the capacity |
| IncDynArr.DynArr.Reallocate | inc/dynarr.hpp:102-114 | a fresh buffer of the `ReallocTarget` capacity into which exactly the elements are copied; the elements are unchanged |
| IncDynArr.DynArr.Get | inc/dynarr.hpp:60-69 | `get(index)` returns slot `index`, grows as `GrownCapacity` says, keeps the elements, and changes nothing when the index is inside the buffer |
| IncDynArr.DynArr.Set | inc/dynarr.hpp:82-90 | `set(index, val)` writes slot `index` and keeps the size; without growth the other slots are kept, after a growth only the elements survive |
| IncDynArr.DynArr.PushBack | inc/dynarr.hpp:92-100 | `pushBack(val)` appends `val`, calling `reallocate()` with its doubling default exactly when full; without growth the buffer and every slot above the new size are kept |
| IncDynArr.PushThenReadBySize | src/main.cpp:10-16 | pushing 0 .. n-1 onto a new array and reading indices below `size()` yields 0 .. n-1 |
| SrcStack.Stack.constructor | src/stack.hpp:26-30 | `Stack()` is empty (`topIndex == -1`) over a fresh empty array of 16 slots |
| SrcStack.Stack.WithCapacity | src/stack.hpp:32-37 | `Stack(init_capacity)` is empty over a fresh empty array of that capacity |
| SrcStack.Stack.Size | src/stack.hpp:39-46 | `size()` is the number of items while `topIndex >= -1`, and UINT_MAX when a pop on an empty stack has left `topIndex` at -2 |
| SrcStack.Stack.Top | src/stack.hpp:48-54 | `top()` throws `runtime_error` on an empty stack, otherwise returns the last item, and changes nothing |
| SrcStack.Stack.Push | src/stack.hpp:56-63 | `push(val)` raises `topIndex` by one and appends `val` to the array; on a stack whose top is the array's last element `val` becomes the top, otherwise the stale slot above the old top does |
| SrcStack.Stack.Pop | src/stack.hpp:65-74 | `pop()` lowers `topIndex` by one in every case; on an empty stack it throws `runtime_error`, otherwise it returns the old top and drops it from the items; the array is untouched |
| SrcStack.Stack.PushAtTop | src/stack.hpp:56-63 | `push` as intended: `val` always becomes the top, overwriting a stale slot or appending |
| SrcStack.Stack.PopChecked | src/stack.hpp:65-74 | `pop` as intended: on an empty stack it throws and changes nothing; otherwise it returns and drops the top |
| SrcStack.PushThenPopAll | test/tests.cpp:13-22 | pushing 0 .. n-1 and then popping n times yields n-1 down to 0 |
| SrcStack.PopEmptyWrapsSize | src/stack.hpp:65-74 | a pop on a new stack throws, after which `size()` is UINT_MAX |
| SrcStack.PopCheckedEmptyKeepsSize | src/stack.hpp:65-74 | with the intended pop, the same throws and `size()` stays 0 |
| SrcStack.StaleTopAfterPopPush | src/stack.hpp:56-74 | push 10 and 20, pop, push 30: `top()` returns the stale 20 |
| SrcStack.TopAfterPopPushChecked | src/stack.hpp:56-74 | the same with the intended push and pop: `top()` returns 30 |
| SrcLinkedList.ListNode.constructor | src/linkedlist.hpp:9-14 | a new node holds its value and has null `next` and `prev` |
| SrcLinkedList.LinkedList.constructor | src/linkedlist.hpp:19-38 | `LinkedList()` is the empty list: no nodes, size 0, doubly linked |
| SrcLinkedList.LinkedList.WithValue | src/linkedlist.hpp:44-50 | as written, `LinkedList(initVal)` holds one fresh node with `initVal` but a size of 0 |
| SrcLinkedList.LinkedList.WithValueCounted | src/linkedlist.hpp:44-50 | the intended `LinkedList(initVal)`: one fresh node with `initVal`, size 1 |
| SrcLinkedList.LinkedList.Clear | src/linkedlist.hpp:73-82 | `clear()` leaves the empty list with null head and tail and size 0 |
| SrcLinkedList.LinkedList.Size | src/linkedlist.hpp:84-91 | `size()` is the node count, or one less on a list built by `LinkedList(initVal)` |
| SrcLinkedList.LinkedList.Front | src/linkedlist.hpp:93-102 | `front()` throws `runtime_error` on an empty list, otherwise returns the first value |
| SrcLinkedList.LinkedList.Back | src/linkedlist.hpp:104-113 | `back()` throws `runtime_error` on an empty list, otherwise returns the last value |
| SrcLinkedList.LinkedList.At | src/linkedlist.hpp:115-143 | `at(pos)` throws `out_of_range` exactly when `pos >= size()`, otherwise returns the value at `pos`; the backward walk is unreachable |
| SrcLinkedList.LinkedList.PushBack | src/linkedlist.hpp:145-166 | `pushBack(val)` appends a fresh node holding `val`, linked both ways with the old tail; no old node's `prev` changes; size grows by one; a doubly-linked list stays doubly linked |
| SrcLinkedList.LinkedList.PushFront | src/linkedlist.hpp:168-189 | `pushFront(val)` prepends a fresh node holding `val`, linked both ways with the old head; no other node's `prev` changes; size grows by one; a doubly-linked list stays doubly linked |
| SrcLinkedList.LinkedList.Insert | src/linkedlist.hpp:191-234 | `insert(val, pos)`: at 0 as `pushFront`, at `size()` as `pushBack`, beyond it throws `out_of_range` and changes nothing, otherwise a fresh node holding `val` is placed at `pos` with a null `prev`, and its successor's `prev` names it; no other old node's `prev` changes |
| SrcLinkedList.LinkedList.SpliceAfter | src/linkedlist.hpp:224-232 | the splice at the end of `insert`: the new node becomes node `pos` of the list, node `pos + 1`'s `prev` names it, every other old node keeps its `prev`, and the size grows by one |
| SrcLinkedList.LinkedList.InsertLinked | src/linkedlist.hpp:191-234 | `insert` as intended: the same, except that the new node's `prev` names its predecessor, so a doubly-linked list stays doubly linked |
| SrcLinkedList.LinkedList.PopFront | src/linkedlist.hpp:236-252 | `popFront()` throws `out_of_range` on an empty list and changes nothing, otherwise returns and drops the first value; the new head's `prev` is null and no other node's `prev` changes |
| SrcLinkedList.LinkedList.PopBack | src/linkedlist.hpp:254-270 | `popBack()` throws `out_of_range` on an empty list and changes nothing, otherwise returns and drops the last value; no node's `prev` changes |
| SrcLinkedList.LinkedList.Remove | src/linkedlist.hpp:272-296 | `remove(pos)` throws `out_of_range` when `pos > size()` and changes nothing, otherwise drops the value at `pos`: its predecessor's `next` skips it and its successor's `prev` takes over its `prev`; no other node's `prev` changes |
| SrcLinkedList.FromSeq | src/linkedlist.hpp:145-166 | `pushBack`s onto an empty list give a doubly-linked, counted list holding exactly the pushed values |
| SrcLinkedList.ReadAll | src/linkedlist.hpp:115-143 | `at(0)`, `at(1)`, ... up to `size()` read exactly the list's values |
| SrcLinkedList.PushBackThenAt | src/linkedlist.hpp:115-166 | values pushed with `pushBack` are read back in order by `at` |
| SrcLinkedList.InsertThenRemove | src/linkedlist.hpp:191-296 | `insert(v, t)` strictly inside the list puts `v` at position `t`, and `remove(t)` then restores the list |
| SrcLinkedList.PushFrontThenPopFront | src/linkedlist.hpp:168-252 | `pushFront(v)` then `popFront()` on a non-empty list returns `v` and restores the list |
| SrcLinkedList.PushBackThenPopBack | src/linkedlist.hpp:145-270 | `pushBack(v)` then `popBack()` on a non-empty list returns `v` and restores the list |
| SrcLinkedList.InsertLeavesPrevNull | src/linkedlist.hpp:224-230 | `insert(9, 1)` on [1, 2, 3] makes `at(1)` return 9; `popBack()` twice returns 3 and 2, after which the tail, the inserted node, has a null `prev`, so a third `popBack()` dereferences null |
| SrcLinkedList.InsertLinkedThenPopBack | src/linkedlist.hpp:191-270 | with the intended `insert`, the same list can be popped from the back: 3, 2, 9 |
| SrcLinkedList.InitValueUncounted | src/linkedlist.hpp:44-50 | `LinkedList(5)`: `front()` is 5, but `size()` is 0 and `at(0)` throws |
| SrcLinkedList.InitValueCounted | src/linkedlist.hpp:44-50 | the intended `LinkedList(5)`: `front()` and `at(0)` are 5 and `size()` is 1 |

## Left out

- The mutexes, `lock()`/`unlock()` and all thread-safety behaviour, because each operation is modelled as one atomic sequential step. This includes `pushFront` unlocking before it increments the size (src/linkedlist.hpp:178-179) and the throws that leave the mutex locked (src/linkedlist.hpp:206-207, 276-277).
- Destructors, the `freed` flags, `emptyList` and every `delete`, because Dafny's heap is garbage-collected, so releasing memory has no counterpart. `clear()` simply drops the nodes.
- `operator[]` of both arrays, because it has the same grow check as `get`. Its reads are modelled by `Get` and its writes by `Set`; the returned reference outliving the lock is not modelled.
- The backward walk of `at` and `insert` (the `std::function` lambdas that follow `prev`), because its guard can never hold for unsigned operands. The model asserts that branch unreachable.
- `Stack(unsigned)` copy-assigns a temporary `DynArr`. That array holds a `std::mutex` and has no copy operations, so the constructor is modelled by its evident intent: an empty array of the given capacity. The copy itself is not modelled.
- `DynArr<T>` requires a default-constructible `T` (`T(0)`), because `new T[n]` must fill its slots.
- inc/stack.hpp, included by src/main.cpp, is not part of this model; nor is main.cpp's printing.
- SrcDynArr.DynArr.Get, SrcDynArr.DynArr.Set, IncDynArr.DynArr.Get, IncDynArr.DynArr.Set: `index == capacity` reads or writes one past the buffer (see Findings), so it is excluded by a precondition.
- SrcDynArr.DynArr.PushBack, IncDynArr.DynArr.PushBack: pushing onto a zero-capacity array writes past its empty buffer, so it is excluded by a precondition.
- SrcDynArr.DynArr.Get, SrcDynArr.DynArr.Set, SrcDynArr.DynArr.PushBack, IncDynArr.DynArr.Get, IncDynArr.DynArr.Set, IncDynArr.DynArr.PushBack do not model 32-bit wrap-around of `index * 2` and `capacity * 2`; their preconditions keep the doubled value below 2^32.
- SrcStack.Stack.Push does not model signed overflow of `topIndex`, which is undefined in C++; its precondition keeps `topIndex` below INT_MAX.
- SrcStack.Stack.Pop does not model signed underflow of `topIndex`. Each failed pop still decrements it (src/stack.hpp:69), so after 2^31 - 1 failed pops on an empty stack the next decrement starts from INT_MIN, which is undefined in C++. The model's `topIndex` is unbounded and keeps decreasing; no precondition excludes that input.
- IncDynArr.DynArr.Reallocate assumes a trivially copyable `T`, such as the `int` of src/main.cpp. The code copies the elements with `memcpy` and then runs `delete[]` on the old buffer (inc/dynarr.hpp:109, 111). For a type with its own copy or destructor, such as `std::string`, the new slots would be byte copies of destroyed objects. The model copies the elements as values for every `T`.
- SrcStack.Stack.Top requires `topIndex >= -1`. Below that, `top()` passes `topIndex` to `operator[]`, where -2 converts to the index 4294967294; `index * 2` wraps to 4294967292 (src/dynarr.hpp:80-81), and the read at 4294967294 lands past the reallocated buffer.
- SrcLinkedList.LinkedList.PushBack, SrcLinkedList.LinkedList.PushFront, SrcLinkedList.LinkedList.Insert, SrcLinkedList.LinkedList.InsertLinked do not model `listSize++` wrapping to 0 on a list of UINT_MAX elements (src/linkedlist.hpp:155, 164, 179, 187, 232); their precondition `listSize < UINT_MAX` keeps the increment within 32 bits.
- SrcDynArr.DynArr.Reallocate, SrcDynArr.DynArr.Get, SrcDynArr.DynArr.Set, SrcDynArr.DynArr.PushBack, SrcDynArr.DynArr.Reserve, SrcLinkedList.LinkedList.At, SrcLinkedList.LinkedList.Insert, SrcLinkedList.LinkedList.Remove do not model the signed overflow of the `int` loop counters compared against `unsigned` bounds (src/dynarr.hpp:112; src/linkedlist.hpp:125, 209, 279). In C++ a copy of more than INT_MAX slots, or a walk to a position beyond INT_MAX, overflows the counter, which is undefined. The model's counters are unbounded, so there it behaves as if the counter were wide enough; no precondition excludes those inputs.
- SrcLinkedList.LinkedList.PopFront, SrcLinkedList.LinkedList.PopBack: on a one-node list the code dereferences null (src/linkedlist.hpp:248, 266), so that case is excluded by a precondition. After an `insert` as written, `popBack` can reach a node whose `prev` is null; that is excluded too.
- SrcLinkedList.LinkedList.Remove: removing the first or last node leaves `head` or `tail` naming the removed node, and `pos == size()` walks off the end. Only `pos > size()` and positions strictly inside the list are allowed.

## Findings

| source | as written | input that shows it | evidently intended | confidence | as-written member | corrected member |
|---|---|---|---|---|---|---|
| src/dynarr.hpp:69 | the grow check of `get`, `operator[]` and `set` is `index > capacity`, so `index == capacity` accesses one slot past the buffer (same check at inc/dynarr.hpp:64) | `get(16)` on a new `DynArr` of 16 slots | grow when `index >= capacity` | high, not executed | Common.GrownCapacity | Common.GrownCapacityChecked |
| src/dynarr.hpp:130-137 | `clear()` replaces the buffer but keeps `arrSize`, so the size still counts elements that are now indeterminate | `pushBack(7)`, `clear()`, `size()` returns 1 | reset `arrSize` to 0 | high, not executed | SrcDynArr.ClearKeepsSize | SrcDynArr.DynArr.ClearReset |
| src/stack.hpp:69-72 | `pop()` decrements `topIndex` before the emptiness check, so a failed pop still changes the stack | `pop()` on a new stack throws, then `size()` returns 4294967295 | check for emptiness first | high, not executed | SrcStack.PopEmptyWrapsSize | SrcStack.Stack.PopChecked |
| src/stack.hpp:60-62 | `pop()` never shrinks the array and `push` always appends, so after a pop the pushed value lands above a stale slot that becomes the top | `push(10)`, `push(20)`, `pop()`, `push(30)`, `top()` returns 20 | the pushed value becomes the top | high, not executed | SrcStack.StaleTopAfterPopPush | SrcStack.Stack.PushAtTop |
| src/linkedlist.hpp:224-230 | `insert` sets the new node's `next` and its successor's `prev` but never the new node's own `prev` | `insert(9, 1)` on [1, 2, 3]; `popBack()` returns 3, then 2, and the third `popBack()` dereferences null | `newNode->prev = curr` | high, not executed | SrcLinkedList.InsertLeavesPrevNull | SrcLinkedList.LinkedList.InsertLinked |
| src/linkedlist.hpp:45-50 | `LinkedList(initVal)` creates one node but leaves `listSize` at 0 | `LinkedList(5)`: `size()` is 0 and `at(0)` throws although `front()` is 5 | `listSize = 1` | high, not executed | SrcLinkedList.InitValueUncounted | SrcLinkedList.LinkedList.WithValueCounted |
