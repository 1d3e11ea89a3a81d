# SimpleVector in Dafny

This project models `SimpleVector<Type>` from `simple_vector.h`. It is a growable, contiguous, index-addressable sequence. It owns one buffer and keeps two counters: `size`, the number of live elements, and `capacity`, the number of allocated slots.

The vector is the class `Vector.SimpleVector<T>`. Its fields are `buf: array<T>` (whose length is the capacity), `size` and `capacity`, plus `zero: T`, the value `Type{}` that default-filled slots receive. `Valid()` says `buf.Length == capacity && size <= capacity`. `Contents()` is the live prefix `buf[..size]`. Every mutating method is proved against this abstract view: its `ensures` gives the new contents as a function of the old contents, and also states the new capacity and whether the buffer was replaced.

Modules:

- `Algorithms` (algorithms.dfy): the loops the vector runs on its buffers. These are std::fill (and `FillWithDefaultValue`, which is std::fill with `Type{}`), the forward copy of std::copy and std::move, and the backward copy of std::copy_backward and std::move_backward. Each is specified slot by slot, and each also covers the overlapping in-place case. The module also gives copy_backward as one assignment at a time on a buffer value (`CopyBackwardSteps`) and proves that the array loop agrees with it.
- `VectorSpec` (vector_spec.dfy): the meaning of the operations on sequences (`Filled`, `Inserted`, `Erased`) and the three-way growth rule `GrownCapacity` shared by PushBack and Insert. It also proves the doubling schedule of repeated PushBack.
- `Vector` (simple_vector.dfy): `ReserveProxyObj`, the free function `Reserve`, and the class with all its constructors, assignments and operations.
- `Comparison` (comparison.dfy): the free operators `==`, `!=`, `<`, `<=`, `>`, `>=` as functions of two vectors' contents. The element order is a parameter `lt`.
- `InsertDefect` (insert_defect.dfy): the in-place branch of the copying Insert as written (line 280), which is undefined behaviour, through its element-by-element effect, next to the correct shift (line 307).
- `Clients` (clients.dfy): callers that use only the contracts. They cover a worked sequence of operations, the independence of a copy, the round trips, and the capacity after n pushes.

Two behaviours of the code that a reader might not expect:

- Growth doubles a full capacity. A full vector of capacity 3 doubles to 6 on PushBack (lines 226-231); `Clients.Walkthrough` proves capacity 6 after PushBack on `{1, 2, 3}`.
- The reserve-hint constructor is not a no-op. In the constructor at lines 62-64, the unqualified `Reserve` is looked up in class scope and finds the member `SimpleVector::Reserve` (line 338), not the free function at line 26. So the constructor gives size 0 and capacity equal to the hint, and `Vector.SimpleVector.WithReserve` is modelled that way.

## Model

| member | source | states |
|---|---|---|
| `Algorithms.FillRange` | simple_vector.h:352-358 | every slot in [from, to) gets the value; all other slots keep their old values |
| `Algorithms.CopyRange` | simple_vector.h:324 | forward copy: the destination range holds the old source range and the rest of the destination is untouched, even when the ranges overlap in one array with the destination start before the source; within one array the start may not lie in [first, last) |
| `Algorithms.CopyRangeBackward` | simple_vector.h:307 | backward copy: the range ending at dLast holds the old source range and the rest is untouched, even within one array when dLast is at or past the source end; in that case the result is the one CopyBackwardSteps computes on the old buffer |
| `Algorithms.CopyBackwardSteps` | simple_vector.h:280 | copy_backward as one assignment at a time, with no precondition on the destination: it fails (writes before the buffer) exactly when the destination end is below the length of the range; otherwise the buffer keeps its length |
| `Algorithms.CopyBackwardShifts` | simple_vector.h:307 | with the destination end at or past the source end, the assignments move the source range to end at dLast and leave the rest alone |
| `VectorSpec.Filled` | simple_vector.h:48-53 | n elements, each equal to the given value |
| `VectorSpec.Inserted` | simple_vector.h:260-263 | one element longer; the value is at pos; elements before pos are unchanged; elements from pos on move one slot toward the tail |
| `VectorSpec.Erased` | simple_vector.h:321-328 | one element shorter; elements before pos are unchanged; elements after pos move one slot toward the front |
| `VectorSpec.InsertedUnique` | simple_vector.h:260-263 | any sequence matching Inserted's pointwise description equals Inserted |
| `VectorSpec.ErasedUnique` | simple_vector.h:321-328 | any sequence matching Erased's pointwise description equals Erased |
| `VectorSpec.EraseAfterInsert` | simple_vector.h:322-328 | Erase at the position just inserted at gives back the original contents |
| `VectorSpec.InsertAfterErase` | simple_vector.h:264-285 | inserting the erased element back at its position gives back the original contents |
| `VectorSpec.GrownCapacity` | simple_vector.h:220-236 | after the growth rule there is room for one more element; capacity never shrinks and at most doubles (plus one from 0); a vector with room keeps its capacity |
| `VectorSpec.DoublingSchedule` | simple_vector.h:218-237 | after n >= 1 pushes from empty, capacity is 2^(m-1), where m is the number of reallocating pushes, and lies in [n, 2n); so it is the least power of two that holds n elements, and m = ceil(log2 n) + 1 |
| `Vector.ReserveProxyObj.GetCapacity` | simple_vector.h:12-24 | the requested capacity, which determines the hint object completely |
| `Vector.Reserve` | simple_vector.h:26-28 | the hint hands back exactly the capacity it was made with |
| `Vector.AllocateDefault` | simple_vector.h:40-46 | a fresh buffer of n slots, all holding the default value |
| `Vector.InsertIntoNewBuffer` | simple_vector.h:271-278 | the reallocating Insert branch: a fresh buffer of the new capacity whose first size+1 slots are the insertion of value at pos into the old contents |
| `Vector.InsertInBuffer` | simple_vector.h:306-310 | the in-place Insert branch: the first size+1 slots become the insertion of value at pos into the old contents |
| `Vector.SimpleVector.Empty` | simple_vector.h:37 | size 0, capacity 0 |
| `Vector.SimpleVector.Sized` | simple_vector.h:40-46 | n default values, capacity n |
| `Vector.SimpleVector.Repeated` | simple_vector.h:49-53 | n copies of value, capacity n |
| `Vector.SimpleVector.FromList` | simple_vector.h:56-60 | exactly the listed items, capacity equal to their number |
| `Vector.SimpleVector.WithReserve` | simple_vector.h:62-64 | empty, with capacity equal to the hint |
| `Vector.SimpleVector.Copy` | simple_vector.h:67-73 | equal contents in a fresh buffer; capacity is the source's size, not the source's capacity |
| `Vector.SimpleVector.Move` | simple_vector.h:76-80 | takes the source's buffer, size and capacity; the source is left with size 0 and capacity 0 |
| `Vector.SimpleVector.CopyAssign` | simple_vector.h:83-95 | self-assignment changes nothing; otherwise the target gets rhs's contents in a fresh buffer with capacity rhs.size (0 when rhs is empty); rhs is unchanged |
| `Vector.SimpleVector.MoveAssign` | simple_vector.h:98-105 | self-assignment changes nothing; otherwise the target takes rhs's buffer, size and capacity, and rhs is left with size 0 and capacity 0 |
| `Vector.SimpleVector.GetSize` | simple_vector.h:108-110 | the number of live elements |
| `Vector.SimpleVector.GetCapacity` | simple_vector.h:113-115 | the number of allocated slots, which is at least the size |
| `Vector.SimpleVector.IsEmpty` | simple_vector.h:118-120 | true exactly when there are no live elements |
| `Vector.SimpleVector.Get` | simple_vector.h:128-130 | unchecked read of live element index |
| `Vector.SimpleVector.Set` | simple_vector.h:123-125 | unchecked write: the contents with element index replaced |
| `Vector.SimpleVector.At` | simple_vector.h:134-152 | the element at index when index < size, the out-of-range error otherwise |
| `Vector.SimpleVector.Clear` | simple_vector.h:155-157 | no live elements; capacity and buffer kept |
| `Vector.SimpleVector.Resize` | simple_vector.h:161-180 | shrinking keeps the first n elements; growing appends n - size default values; capacity is kept while n fits and otherwise becomes max(2 * capacity, n) in a fresh buffer |
| `Vector.SimpleVector.PushBack` | simple_vector.h:220-258 | item is appended; capacity follows the growth rule; the buffer is replaced only when there was no room |
| `Vector.SimpleVector.Insert` | simple_vector.h:264-312 | the contents become Inserted(old, pos, value); the result is pos, which holds value; capacity follows the same growth rule as PushBack |
| `Vector.SimpleVector.PopBack` | simple_vector.h:315-319 | drops the last element; on an empty vector nothing changes; capacity kept |
| `Vector.SimpleVector.Erase` | simple_vector.h:322-328 | the contents become Erased(old, pos); the result is pos, which now holds the old next element; capacity and buffer kept |
| `Vector.SimpleVector.Swap` | simple_vector.h:331-335 | buffer, size, capacity and so contents are exchanged between the two vectors |
| `Vector.SimpleVector.Reserve` | simple_vector.h:338-345 | contents unchanged; capacity becomes max(capacity, k); a new buffer only when k exceeds the capacity |
| `Comparison.Equal` | simple_vector.h:362-365 | true exactly when the two contents are equal, lengths included |
| `Comparison.NotEqual` | simple_vector.h:367-370 | true exactly when the two contents differ |
| `Comparison.Less` | simple_vector.h:372-375 | nothing is less than the empty vector; a proper prefix is less, whatever the element order |
| `Comparison.Greater` | simple_vector.h:382-385 | the empty vector is greater than nothing; a proper extension is greater |
| `Comparison.LessEq` | simple_vector.h:377-380 | the empty vector is <= every vector; a proper extension is not <= its prefix |
| `Comparison.GreaterEq` | simple_vector.h:387-390 | every vector is >= the empty vector; a proper prefix is not >= its extension |
| `Comparison.LessIsLexLess` | simple_vector.h:372-375 | whatever operator< accepts is lexicographically smaller |
| `Comparison.LexLessIsLess` | simple_vector.h:372-375 | whatever is lexicographically smaller, operator< accepts |
| `Comparison.LessIsLexicographic` | simple_vector.h:372-375 | operator< is exactly the lexicographic order: a proper prefix, or smaller at the first difference |
| `Comparison.LessIrreflexive` | simple_vector.h:372-375 | no vector is less than itself |
| `Comparison.LessTransitive` | simple_vector.h:372-375 | operator< is transitive |
| `Comparison.LessTrichotomous` | simple_vector.h:372-375 | exactly one of a < b, a == b, b < a holds |
| `Comparison.DerivedOperators` | simple_vector.h:377-390 | > is the lexicographic order reversed; <= is < or ==; >= is > or ==; <= is not > |
| `InsertDefect.ShiftThenWriteInserts` | simple_vector.h:307-308 | shifting to end at size + 1 and then writing value at pos gives the insertion |
| `InsertDefect.InsertInPlace` | simple_vector.h:306-310 | the in-place Insert with destination end size + 1 yields exactly Inserted |
| `InsertDefect.InsertInPlaceAsWritten` | simple_vector.h:279-283 | the element-by-element effect of the in-place Insert as written: it writes before the buffer exactly when 2 * pos + 1 < size; otherwise the result is size + 1 long with value at pos; an append (pos == size) is the correct insertion |
| `InsertDefect.AsWrittenAtLastTakesSpareSlot` | simple_vector.h:280 | as written, an insert before the last element puts the spare slot's value where the old last element belongs |
| `InsertDefect.AsWrittenLosesAnElement` | simple_vector.h:280 | {1, 2} with a spare slot 0, inserting 9 at 1: the element-by-element effect of the call as written gives {1, 9, 0}; intended {1, 9, 2} |
| `InsertDefect.AsWrittenOverwritesPrefix` | simple_vector.h:280 | {1, 2, 3} with a spare slot 0, inserting 9 at 1: the element-by-element effect of the call as written gives {3, 9, 3, 0}; intended {1, 9, 2, 3} |
| `Clients.Walkthrough` | simple_vector.h:226-231 | {1, 2, 3}; PushBack(4); Insert(1, 99); Erase(0); At(10); Resize(2); Resize(6) ends as {99, 2, 0, 0, 0, 0} with capacity 6, and At(10) is out of range |
| `Clients.CopyThenMutate` | simple_vector.h:67-73 | after copying and then mutating the copy, the original's contents are unchanged |
| `Clients.InsertThenErase` | simple_vector.h:264-328 | Insert(pos, x) followed by Erase at the returned position restores the contents |
| `Clients.PushThenPop` | simple_vector.h:220-319 | PushBack then PopBack restores the contents; capacity never shrinks |
| `Clients.PushAll` | simple_vector.h:220-237 | n pushes from empty give exactly those items, with capacity CapacityAfterPushes(n), in [n, 2n) |

## Left out

- array_ptr.h is not part of this model. The owned buffer is a Dafny `array<T>` whose length is the capacity; releasing it on destruction is not modelled.
- Allocation failure and the strong/basic exception-safety levels are not modelled. Only the success path is, plus the out-of-range error of `At` as a `Result` value.
- The copy and move overloads of PushBack and Insert are collapsed into one method each, because Dafny has no move semantics. The one place where the overloads differ, the in-place shift of Insert, is the defect below.
- The const and non-const overloads of `At` and `operator[]` are collapsed. `operator[]` is split into `Get` (read) and `Set` (write through the returned reference).
- `Vector.SimpleVector.At`: writing through the reference that the non-const overload returns (lines 134-141) is not modelled. A checked write is `At`'s bounds test followed by `Set`.
- Iterators are raw pointers in the source (`begin`, `end`, `cbegin`, `cend`, and the iterators taken and returned by Insert and Erase). They are modelled as natural-number positions. Pointer identity and iterator invalidation are not modelled.
- `Type{}` is the `zero` value each vector receives at construction; copies and moves take the source's. In C++ every vector of one type shares it; the model does not tie the `zero` of two different vectors together.
- `Vector.SimpleVector.CopyAssign`: from an empty vector the source keeps its old allocation while recording capacity 0 (lines 85-89). The model installs an empty array so that the buffer length stays equal to the capacity.
- `size_t` wrap-around of `2 * capacity_` (lines 164, 227, 272) is not modelled: sizes and capacities are unbounded naturals.
- The values in slots past `size` are written as the source writes them (default values on growth), but no contract states them, because no operation exposes them except through default-filling, which every contract states.
- The comparison operators take the element order as a parameter `lt` standing for `Type::operator<`. Their lemmas assume it is a strict total order. Element equality is Dafny's `==` on `T`.

## Findings

| source | as written | input that shows it | evidently intended | confidence | as-written member | corrected member |
|---|---|---|---|---|---|---|
| simple_vector.h:280 | the in-place branch of the copying Insert shifts the tail with a backward copy whose destination end is pos + 1 | for pos < size the destination end lies in (pos, size], which breaks copy_backward's precondition, so the call is undefined behaviour. Its element-by-element effect: buffer {1, 2, _} of capacity 3, Insert(1, 9) gives {1, 9, _} and the 2 is lost; {1, 2, 3, _}, Insert(1, 9) gives {3, 9, 3, _}; {1, 2, 3, _}, Insert(0, 9) writes before the buffer | destination end size + 1, as in the moving overload at line 307, giving {1, 9, 2} and {1, 9, 2, 3} | not executed | `InsertDefect.InsertInPlaceAsWritten` with `InsertDefect.AsWrittenLosesAnElement` and `InsertDefect.AsWrittenOverwritesPrefix` | `Vector.SimpleVector.Insert` (through `Vector.InsertInBuffer`) and `InsertDefect.InsertInPlace` |
