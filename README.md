# scc ownership primitives in Dafny

This project models the two ownership primitives of the scc C++ library and proves
properties of the model:

- `UniquePtrVector<T>` (`include/scc/unique_ptr_vector.hpp`): a growable array of owning
  `T*` slots. It has a buffer `m_data` of `m_cap` slots, and the first `m_size` of them
  are in use. When an append does not fit, the capacity doubles.
- `ValuePtr<T>` (`include/scc/value_ptr.hpp`): a single-owner pointer with value
  semantics. Copying the box copies the object it holds. Moving the box hands the object
  over and leaves the source null.

Files:

- `memory.dfy`, module `Memory`. The free store is a `Heap` class: a map from addresses to
  objects, where each object has a dynamic-type tag and a value. Its `New`, `Delete` and
  `Assign` methods model C++ `new`, `delete` and the object's own copy assignment.
  `UniquePtr` models the part of `std::unique_ptr` the vector uses. This module also holds
  lemmas about the set of objects a sequence of pointers owns.
- `growth.dfy`, module `Growth`. The capacity policy as functions: `ExpandFactor`,
  `GrownCapacity` (one `maybeExpand`), `CapacityAfter` and `RelocationsAfter` (a run of
  `pushBack` calls). Lemmas about these functions state the growth guarantees.
- `unique_ptr_vector.dfy`, module `UniquePtrVectors`. The class `UniquePtrVector` with
  fields `data: array<Ptr>`, `size` and `cap`. Each method's `ensures` gives the new
  contents (`data[..size]`) and capacity in terms of the old ones and the `Growth`
  functions. `at` returns a `Result` instead of throwing `std::range_error`.
- `value_ptr.dfy`, module `ValuePtrs`. The class `ValuePtr` with a constant `declared` (the
  static type `T`) and a field `ptr` (`m_ptr`). Contracts are stated as pointer identities
  and heap updates: which object is fresh, which is deleted, whose value is written.

Behaviour of the code that the model keeps on purpose:

- `expandFactor(0) == 0`. A vector built with `UniquePtrVector(0)` never grows, so its first
  `pushBack` writes past the end of the buffer. `PushBack` and `PushBackUnique` therefore
  require `0 < cap`. The lemma `Growth.ZeroCapacityNeverGrows` proves that from capacity 0
  no number of appends ever makes room.
- Both copy constructors construct the new object at the source box's static type:
  `new T(*v.m_ptr)` and `new U(*v.m_ptr)`. A value pointer is meant to copy polymorphically,
  keeping the held object's dynamic type. The code does not do this: a `ValuePtr<Base>` that
  holds a `Derived` copies as a `Base`. The model follows the code. `Copy` and
  `CopyFromDerived` tag the new object with the source box's `declared` type, and
  `CopyOfBaseBoxHoldingDerived` shows the copy losing its dynamic type.
- The adopt-pointer constructor is meant to reject null. The code only deletes the
  `nullptr_t` overload, so a null `T*` value is still accepted. `Adopt` has no precondition.
- `reset(p)` with `p` equal to the held pointer deletes that object and keeps the pointer.
  `Reset` has no precondition against this. Its contract states that the box is then
  dangling.
- Growth relocates only the slots in use. The rest of the new buffer is not initialised, so
  `MaybeExpand` promises nothing about it.

## Model

| member | source | states |
|---|---|---|
| `UniquePtrVectors.UniquePtrVector.constructor` | include/scc/unique_ptr_vector.hpp:103-108 | the default vector has size 0, capacity 1, a fresh buffer, and its one slot is null |
| `UniquePtrVectors.UniquePtrVector.WithCapacity` | include/scc/unique_ptr_vector.hpp:110-115 | `UniquePtrVector(n)` has size 0, capacity `n`, a fresh buffer, and all `n` slots null |
| `UniquePtrVectors.UniquePtrVector.Wrap` | include/scc/unique_ptr_vector.hpp:96-99 | the private constructor adopts the given buffer, size and capacity unchanged |
| `UniquePtrVectors.UniquePtrVector.MaybeExpand` | include/scc/unique_ptr_vector.hpp:142-152 | returns true iff `size + sz > cap`; then the capacity is exactly `2 * cap` in a fresh buffer, otherwise the buffer and capacity are unchanged; the slots in use keep their values and order; `size <= cap` is preserved |
| `UniquePtrVectors.UniquePtrVector.ThrowIfOutOfRange` | include/scc/unique_ptr_vector.hpp:154-159 | fails iff `index >= size`, with the source's range-error message; the `index < 0` test is dead for an unsigned index |
| `UniquePtrVectors.UniquePtrVector.PushBack` | include/scc/unique_ptr_vector.hpp:162-165 | on positive capacity, the buffer is the old one or a fresh one, and when the vector was not full it is the old one with the unused slots after the new element unchanged; the contents become the old contents followed by `p` (size grows by one, earlier slots unchanged and in order), the capacity follows the growth rule, and `size <= cap` still holds |
| `UniquePtrVectors.UniquePtrVector.PushBackUnique` | include/scc/unique_ptr_vector.hpp:167-170 | as `PushBack`, appending the pointer the `unique_ptr` owned, which is left null |
| `UniquePtrVectors.UniquePtrVector.Index` | include/scc/unique_ptr_vector.hpp:172-178 | unchecked `[]` for `index < cap` returns that buffer slot, which is element `index` when `index < size` |
| `UniquePtrVectors.UniquePtrVector.At` | include/scc/unique_ptr_vector.hpp:180-188 | returns a range error iff `index >= size`, and otherwise element `index` unchanged |
| `UniquePtrVectors.UniquePtrVector.Front` | include/scc/unique_ptr_vector.hpp:190-196 | on a non-empty vector returns the first element |
| `UniquePtrVectors.UniquePtrVector.Back` | include/scc/unique_ptr_vector.hpp:198-204 | on a non-empty vector returns the last element, slot `size - 1` |
| `UniquePtrVectors.UniquePtrVector.Destroy` | include/scc/unique_ptr_vector.hpp:128-134 | when the slots in use are null or live and hold no object twice, the destructor deletes exactly the objects they point to and no others, so the heap shrinks by the number of non-null slots |
| `UniquePtrVectors.UniquePtrVector.FromPtr` | include/scc/unique_ptr_vector.hpp:209-217 | a fresh vector with size = capacity = number of arguments, whose slots are the arguments in order |
| `UniquePtrVectors.UniquePtrVector.FromUniquePtrs` | include/scc/unique_ptr_vector.hpp:220-228 | a fresh vector with size = capacity = number of arguments; slot `i` is the pointer argument `i` owned (null if the same `unique_ptr` was passed earlier), and every argument is left null |
| `UniquePtrVectors.TwoPushesFromDefault` | include/scc/unique_ptr_vector.hpp:162-165 | two appends onto a default vector hold the two pointers in order, with the capacity `Growth.CapacityAfter(0, 1, 2) == 2` that the growth run lemmas speak about |
| `UniquePtrVectors.PushAll` | include/scc/unique_ptr_vector.hpp:162-165 | any number of successive appends onto any vector of positive capacity leave the old contents followed by the new pointers in order, with exactly the capacity `Growth.CapacityAfter` gives, so the growth run lemmas apply to the vector |
| `Growth.ExpandFactor` | include/scc/unique_ptr_vector.hpp:138-140 | the grown capacity is exactly twice the old one: even, halving back to it, never smaller, and equal to it only for capacity 0 (see `Growth.ZeroCapacityNeverGrows`) |
| `Growth.GrownCapacity` | include/scc/unique_ptr_vector.hpp:142-146 | the capacity after `maybeExpand(sz)` never shrinks, is either the old capacity or its `expandFactor`, changes only when the request did not fit, and stays exactly when it fit or the capacity was 0 |
| `Growth.GrowthStep` | include/scc/unique_ptr_vector.hpp:138-152 | for one append on a vector with `size <= cap` and `0 < cap`, the capacity stays iff the vector was not full, and otherwise becomes exactly `2 * cap`; the new element always fits |
| `Growth.PushesFit` | include/scc/unique_ptr_vector.hpp:138-152 | from any state with `size <= cap` and positive capacity, any number of appends never shrinks the capacity and always leaves room for every element |
| `Growth.ZeroCapacityNeverGrows` | include/scc/unique_ptr_vector.hpp:138-148 | from capacity 0 the capacity stays 0 for ever, so the `n`-th append never fits |
| `Growth.CapacityIsDoubling` | include/scc/unique_ptr_vector.hpp:138-146 | the capacity is always the starting capacity doubled some number of times (a power of two from the default vector) |
| `Growth.CapacityTight` | include/scc/unique_ptr_vector.hpp:142-146 | after appends, the capacity either never grew or is below twice the size |
| `Growth.RelocationsMatchGrowth` | include/scc/unique_ptr_vector.hpp:142-152 | the slots copied by all growth steps add up exactly to the capacity gained, because a vector only grows when it is full |
| `Growth.AmortisedRelocations` | include/scc/unique_ptr_vector.hpp:142-152 | after `n > 0` appends, fewer than two slots have been copied per element held: append is amortised constant time |
| `Growth.SingleDoublingMayFallShort` | include/scc/unique_ptr_vector.hpp:142-146 | for every size, capacity and request, the room asked of `maybeExpand(sz)` is there afterwards exactly when it fits in the current or the doubled capacity, so a request beyond the doubled capacity is left short; the vector only ever asks for one slot |
| `Memory.Teardown` | include/scc/unique_ptr_vector.hpp:128-134 | deleting every slot of a duplicate-free sequence of null-or-live pointers frees exactly as many objects as it has non-null slots |
| `ValuePtrs.ValuePtr.Default` | include/scc/value_ptr.hpp:27-28 | the box holds a non-null pointer to a fresh object of the box's static type with the value-initialised value; nothing else in the heap changes |
| `ValuePtrs.ValuePtr.Adopt` | include/scc/value_ptr.hpp:32-33 | the box holds exactly the given pointer and allocates nothing; the derived-pointer form at lines 44-46 behaves the same |
| `ValuePtrs.ValuePtr.Copy` | include/scc/value_ptr.hpp:36-37 | a new box holding a fresh object distinct from the source's, with the source object's value and with the source box's static type as its dynamic type; the source box and its object are unchanged |
| `ValuePtrs.ValuePtr.CopyFromDerived` | include/scc/value_ptr.hpp:48-50 | as `Copy`, into a box of the base type; the new object's dynamic type is the source box's static type `U` |
| `ValuePtrs.ValuePtr.Move` | include/scc/value_ptr.hpp:39-40 | the new box holds the source's former pointer and the source is null; nothing is allocated or deleted |
| `ValuePtrs.ValuePtr.MoveFromDerived` | include/scc/value_ptr.hpp:52-54 | as `Move`, into a box of the base type |
| `ValuePtrs.ValuePtr.Destroy` | include/scc/value_ptr.hpp:57-59 | the destructor deletes the held object, if any, and nothing else |
| `ValuePtrs.ValuePtr.CopyAssign` | include/scc/value_ptr.hpp:62-65 | the box keeps its pointer and its object keeps its dynamic type; the object's value becomes the source object's value; the source is unchanged and nothing is allocated or deleted |
| `ValuePtrs.ValuePtr.MoveAssign` | include/scc/value_ptr.hpp:66-69 | the box holds the source's former pointer, the source is null, and the former object is deleted; on self-move the box keeps its pointer and nothing is deleted; if another box shared the object, it is deleted and the box is left dangling; the derived form at lines 77-80 behaves the same |
| `ValuePtrs.ValuePtr.Release` | include/scc/value_ptr.hpp:84-88 | returns the previously held pointer and leaves the box null |
| `ValuePtrs.ValuePtr.Reset` | include/scc/value_ptr.hpp:90-94 | the box holds `p` and the former object (if any) is deleted; resetting to the pointer already held leaves the box dangling |
| `ValuePtrs.ValuePtr.Swap` | include/scc/value_ptr.hpp:96-98 | the two boxes exchange their pointers |
| `ValuePtrs.ValuePtr.Arrow` | include/scc/value_ptr.hpp:99-101 | `operator->` returns the held pointer and changes nothing |
| `ValuePtrs.MakeValue` | include/scc/value_ptr.hpp:108-111 | a fresh box of the given static type holding a fresh object of that type with the constructed value |
| `ValuePtrs.CopyIsIndependent` | include/scc/value_ptr.hpp:36-37 | a copy's object is a different object: writing a new value into it leaves the original's object as it was |
| `ValuePtrs.CopyOfBaseBoxHoldingDerived` | include/scc/value_ptr.hpp:36-37 | copying a `ValuePtr<Base>` that holds a `Derived` yields an object of dynamic type `Base` with the same value |
| `ValuePtrs.SwapTwiceRestores` | include/scc/value_ptr.hpp:96-98 | swapping two boxes twice restores both pointers |

## Left out

- The iterator types `UniquePtrVectorIterator` and `ConstUniquePtrVectorIterator` (unique_ptr_vector.hpp:23-62) are not modelled. They are unfinished (post-increment returns `this`), and the vector never uses them.
- The `Head` helper and the `dktt` trait library are type-level utilities with no runtime behaviour.
- The vector's move constructor and move assignment only call `unreachable()`. The vector is modelled as non-movable, and its copy operations are deleted. Neither has a member.
- The destructor's early return on a null `m_data` is not modelled. No code path ever sets `m_data` to null: every constructor allocates a buffer, `maybeExpand` replaces it with a new one, and the move constructor only calls `unreachable()` and never touches its source.
- Freeing the buffers themselves (`delete[]` in `maybeExpand` and in the destructor) is not modelled, because Dafny arrays are garbage-collected. The heap records only the pointees, and no growth step touches them.
- `size_type` is unbounded in the model. The 64-bit wrap-around of `cap * 2` is not modelled, because it only happens at capacities no real buffer can reach.
- `m_size - 1` in `back()` wraps to `SIZE_MAX` on an empty vector, so `back()` then reads far past the buffer. `Back` requires a non-empty vector, which excludes this case.
- Writes through the references returned by `operator[]`, `at`, `front` and `back` are not modelled. The const and non-const overloads read the same slot, so each is modelled once. The const `at` calls the non-const `throwIfOutOfRange`, so like `ValuePtr::get()` it would not compile if instantiated; the model's `At` is the non-const overload.
- `fromPtr()` with no arguments does not compile in C++ (its temporary array would have length zero). The model accepts an empty argument list.
- Compile-time gating is not modelled: the `default_initializable`, `copyable` and `derived_from` constraints, the deleted `nullptr` constructor and assignment, and the deleted derived-to-base copy assignment. A deleted or constrained-away operation simply has no member. The derived-from relation between type names is not checked.
- `ValuePtr::get()` is not modelled. It returns a pointer as `T&` and would not compile if instantiated.
- Object values are opaque. When an object is copied or copy-assigned at a base type, the model copies its whole value and records the slicing only in the dynamic-type tag. The loss of derived-class members is not modelled.
- `ValuePtrs.ValuePtr.Destroy`, `ValuePtrs.ValuePtr.Reset`, `ValuePtrs.ValuePtr.MoveAssign`, `UniquePtrVectors.UniquePtrVector.Destroy`: `delete` goes through the pointer's static type `T`. When the object's dynamic type (its tag) differs from `T`, C++ defines the deletion only if `T` has a virtual destructor. The model does not track virtual destructors and treats every such deletion as defined. The test types `Base` and `Derived` in test/main.cpp have no virtual destructor, so `ValuePtr<Base>` holding a `Derived` is undefined behaviour when it is destroyed.
- Allocation failure (`std::bad_alloc`), exceptions thrown by `T`'s constructors or assignment, `noexcept` specifiers and `T`'s destructor side effects are not modelled.
- Concurrency does not arise: both types are single-threaded.
- The test harness `test/main.cpp` is not modelled. It checks which operations compile.
