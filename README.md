# SimpleVector in Dafny

A model of `SimpleVector<Type>` from `simple-vector/simple_vector.h`. It is a
dynamic array: a buffer of `capacity_` slots whose first `size_` slots hold the
live elements. The header also defines the reservation hint
`ReserveProxyObj`/`Reserve` and the free comparison operators.

The model has five modules:

- `BufferAlgorithms` (`buffer_algorithms.dfy`): the standard range algorithms the
  vector runs over its buffer. These are `std::fill`, `std::generate` with a
  default-value generator, `std::copy`, `std::move` and `std::move_backward`.
  Each is a method on Dafny arrays, proved against a slot-by-slot postcondition.
- `VectorSpec` (`vector_spec.dfy`): the abstract state `Shape`, made of the live
  elements and the capacity. It has one function per mutating operation, which
  states the new elements and the capacity rule, and lemmas about sequences of
  operations.
- `Comparisons` (`comparisons.dfy`): the three-range `std::equal` and
  `std::lexicographical_compare` over element sequences. The lemmas here show
  that the lexicographic order is a strict weak order whenever the element
  order is one (irreflexive, asymmetric, transitive, with transitive
  incomparability), and a trichotomy under a total element order.
- `SimpleVectors` (`simple_vector.dfy`): `ReserveProxyObj`, `Reserve`, the class
  `SimpleVector` and the six free operators. The class has the fields `size`,
  `capacity` and `items: array<T>`. Its invariant `Valid()` says
  `items.Length == capacity` and `size <= capacity`. Every mutating method
  promises `Valid()` again. `Resize`, `PushBack`, `Insert`, `Erase` and
  `Reserve` tie `State()` to the matching `VectorSpec` function of the old
  state. `Clear`, `PopBack`, `Swap`, `Assign`, `ShiftInsert` and
  `ReallocatingInsert` state their new elements and capacity directly. Each
  also says whether the buffer was kept or replaced by a fresh one.
- `VectorScenarios` (`vector_scenarios.dfy`): callers that use only the
  contracts. They show a list round trip, growth under repeated `PushBack`, copy
  independence, a move out of a vector, and erase undoing insert.

Conventions:

- Iterators become indices into the buffer: `begin()` is 0 and `end()` is `size`.
- `Type{}` becomes a `zero: T` argument. `Resize` takes it, and `SimpleVector(n)`
  is `Filled(n, zero)`. In `PushBack` it is an arbitrary value, because the slot
  is overwritten at once.
- The element type's `operator<` becomes a parameter `less: (T, T) -> bool`.
  Element `operator==` is Dafny equality.
- `size_t` becomes `nat`.

Two behaviours of the code are easy to miss:

- **Resize twice.** `Resize(n)` followed by `Resize(n)` does not always keep
  the capacity. Line 127 tests `new_size < capacity_`, so `new_size ==
  capacity_` takes the reallocating branch. When the first call leaves the
  capacity at exactly `n`, the second call doubles it. `VectorSpec.ResizeTwice`
  states this, and `ResizeToCapacityReallocates` shows it on `[a, b, c]` with
  capacity 3. Size and elements are unchanged either way.
- **Copy assignment.** It is guarded by value inequality (`*this != rhs`, line
  68), not by identity. An equal right-hand side therefore keeps this vector's
  buffer and capacity. `SimpleVector.Assign` states both cases.

## Model

| member | source | states |
|---|---|---|
| `SimpleVectors.Reserve` | simple-vector/simple_vector.h:12-26 | The hint built by `Reserve(c)` gives back `c` from `GetCapacity()`. |
| `SimpleVectors.SimpleVector.constructor` | simple-vector/simple_vector.h:34 | The default vector has no elements, capacity 0 and a fresh buffer. |
| `SimpleVectors.SimpleVector.Filled` | simple-vector/simple_vector.h:36-46 | `(n, value)`, and `(n)` with the default value, give size = capacity = n with every live slot equal to the value. |
| `SimpleVectors.SimpleVector.FromList` | simple-vector/simple_vector.h:48-52 | The live elements are the list, in order, and the capacity is its length. |
| `SimpleVectors.SimpleVector.WithReserve` | simple-vector/simple_vector.h:54-58 | Construction from the hint gives size 0 and capacity equal to the hinted capacity. |
| `SimpleVectors.SimpleVector.Copy` | simple-vector/simple_vector.h:60-65 | The copy has the source's live elements and capacity, in a fresh buffer. |
| `SimpleVectors.SimpleVector.Assign` | simple-vector/simple_vector.h:67-73 | Afterwards the elements equal the right-hand side's. If they differed, buffer and capacity come from a fresh copy of the right-hand side; if they were equal, buffer and capacity are kept. |
| `SimpleVectors.SimpleVector.Moved` | simple-vector/simple_vector.h:75-77 | The new vector takes over the source's buffer, size and capacity, and the source is left with size = capacity = 0. |
| `SimpleVectors.SimpleVector.Swap` | simple-vector/simple_vector.h:214-218 | Buffer, size, capacity and live elements are exchanged, including when a vector is swapped with itself. |
| `SimpleVectors.SimpleVector.IsEmpty` | simple-vector/simple_vector.h:93-95 | True iff there are no live elements. |
| `SimpleVectors.SimpleVector.Get` | simple-vector/simple_vector.h:97-103 | Unchecked access below the size returns the live element at that index. |
| `SimpleVectors.SimpleVector.At` | simple-vector/simple_vector.h:105-117 | Checked access fails with out-of-range iff the index is at least the size. Otherwise it returns the live element at that index. |
| `SimpleVectors.SimpleVector.Clear` | simple-vector/simple_vector.h:119-121 | No live elements remain; buffer and capacity are kept. |
| `SimpleVectors.SimpleVector.Resize` | simple-vector/simple_vector.h:123-140 | The new state is `ResizeState` of the old state. The buffer is kept iff the new size is below the old capacity; otherwise it is a fresh one. |
| `SimpleVectors.SimpleVector.PushBack` | simple-vector/simple_vector.h:166-175 | The new state is `PushBackState` of the old state. The buffer is kept iff there was a free slot. |
| `SimpleVectors.SimpleVector.Insert` | simple-vector/simple_vector.h:177-199 | Returns the position it was given. The new state is `InsertState` of the old state. The buffer is kept iff there was a free slot. |
| `SimpleVectors.SimpleVector.ShiftInsert` | simple-vector/simple_vector.h:179-184 | With a free slot, the elements become `old[..p] + [value] + old[p..]` in the same buffer, at the same capacity. |
| `SimpleVectors.SimpleVector.ReallocatingInsert` | simple-vector/simple_vector.h:185-198 | In a full buffer, the elements become `old[..p] + [value] + old[p..]` in a fresh buffer of capacity `max(size + 1, 2 * capacity)`. |
| `SimpleVectors.SimpleVector.PopBack` | simple-vector/simple_vector.h:201-204 | On a non-empty vector, drops the last element and keeps buffer and capacity. |
| `SimpleVectors.SimpleVector.Erase` | simple-vector/simple_vector.h:206-212 | Returns the position it was given. The new state is `EraseState` of the old state, in the same buffer. |
| `SimpleVectors.SimpleVector.Reserve` | simple-vector/simple_vector.h:220-227 | The new state is `ReserveState` of the old state. The buffer is fresh iff the requested capacity exceeds the old one; otherwise it is kept. |
| `SimpleVectors.Eq` | simple-vector/simple_vector.h:236-240 | `operator==`, including its identity short-cut, holds iff the live element sequences are equal. |
| `SimpleVectors.Ne` | simple-vector/simple_vector.h:242-245 | `operator!=` holds iff the live element sequences differ. |
| `SimpleVectors.Lt` | simple-vector/simple_vector.h:247-250 | Nothing orders before an empty vector, and a proper prefix orders first. |
| `SimpleVectors.Le` | simple-vector/simple_vector.h:252-255 | An empty vector is `<=` every vector. |
| `SimpleVectors.Gt` | simple-vector/simple_vector.h:257-260 | An empty vector is `>` no vector. |
| `SimpleVectors.Ge` | simple-vector/simple_vector.h:262-265 | Every vector is `>=` an empty vector. |
| `SimpleVectors.DerivedOrderings` | simple-vector/simple_vector.h:242-265 | Under a strict total element order: `<=` is `<` or `==`; `>=` is `>` or `==`; `!=` is `<` or `>`; and `<` and `>` never hold together. |
| `SimpleVectors.LtIsStrictOrder` | simple-vector/simple_vector.h:247-250 | Under a strict weak element order, `<` on vectors is a strict weak order: irreflexive, asymmetric, transitive, and incomparability is transitive. |
| `Comparisons.RangeEqual` | simple-vector/simple_vector.h:239 | Three-range `std::equal` holds iff the first range equals the same-length prefix of the second. |
| `Comparisons.LexicographicalCompare` | simple-vector/simple_vector.h:249 | An empty right side is never greater, and a proper prefix always orders first. |
| `Comparisons.LexIrreflexive` | simple-vector/simple_vector.h:249 | With an irreflexive element order, no sequence orders before itself. |
| `Comparisons.LexAsymmetric` | simple-vector/simple_vector.h:249 | With an irreflexive, transitive element order, `a < b` excludes `b < a`. |
| `Comparisons.LexTransitive` | simple-vector/simple_vector.h:249 | With a strict weak element order, the lexicographic order is transitive. |
| `Comparisons.LexEquivTransitive` | simple-vector/simple_vector.h:249 | With a strict weak element order, incomparability of sequences is transitive. |
| `Comparisons.LexFirstDifference` | simple-vector/simple_vector.h:249 | For any element order, sequences that agree before place k, where `a` has the smaller element at k, order `a` first. |
| `Comparisons.LexTrichotomy` | simple-vector/simple_vector.h:249 | With a strict total element order, exactly one of `a < b`, `a == b` and `b < a` holds. |
| `Comparisons.IntegerExamples` | simple-vector/simple_vector.h:247-250 | Over integers, `[1, 2] < [1, 2, 3] < [1, 3]`, and not `[1, 3] < [1, 2, 3]`. |
| `VectorSpec.GrownCapacity` | simple-vector/simple_vector.h:132 | The grown capacity is the larger of the needed size and twice the old capacity. |
| `VectorSpec.ResizeState` | simple-vector/simple_vector.h:123-140 | The size becomes the new size, and the old elements are kept up to it. Slots from the old size on hold the default. The capacity is unchanged below it, and grows to `max(new size, 2 * capacity)` at or above it. |
| `VectorSpec.PushBackState` | simple-vector/simple_vector.h:166-175 | Size goes up by one, the item is last and earlier elements are unchanged. The capacity is kept when there is room, and becomes `max(size + 1, 2 * capacity)` when full. |
| `VectorSpec.InsertState` | simple-vector/simple_vector.h:177-199 | Elements before `p` stay, `value` sits at `p`, and elements from `p` on move one place right. The capacity rule is the same as for a push. |
| `VectorSpec.EraseState` | simple-vector/simple_vector.h:206-212 | Elements before `p` stay, elements after `p` move one place left, size drops by one and the capacity is kept. |
| `VectorSpec.ReserveState` | simple-vector/simple_vector.h:220-227 | The elements are unchanged and the capacity becomes `max(capacity, requested)`: it never shrinks. |
| `VectorSpec.PushBackIsResizeThenStore` | simple-vector/simple_vector.h:171-174 | A push on a full buffer equals `Resize(size + 1)` followed by storing the item in the last slot, whatever default the resize fills in. |
| `VectorSpec.InsertAtEndIsPushBack` | simple-vector/simple_vector.h:166-199 | Inserting at `end()` gives the same state as `PushBack`. |
| `VectorSpec.EraseUndoesInsert` | simple-vector/simple_vector.h:177-212 | Erasing at `p` right after inserting at `p` gives back the original elements. |
| `VectorSpec.ResizeTwice` | simple-vector/simple_vector.h:123-140 | A second `Resize(n)` keeps the elements. It keeps the capacity unless the first call left the capacity at exactly n; then the capacity doubles. |
| `VectorSpec.ResizeToCapacityReallocates` | simple-vector/simple_vector.h:127-138 | `Resize(3)` on three elements at capacity 3 gives capacity 6 with the same elements. |
| `VectorSpec.PushBackAllAppends` | simple-vector/simple_vector.h:166-175 | Any run of pushes appends the items in order, keeps size <= capacity, and never lowers the capacity. |
| `VectorSpec.PushBacksWithinCapacity` | simple-vector/simple_vector.h:166-170 | Pushes that fit in the free slots never change the capacity. |
| `VectorSpec.PushBackKeepsTight` | simple-vector/simple_vector.h:166-175 | One push preserves "capacity 0 when empty, otherwise size <= capacity < 2 * size". |
| `VectorSpec.PushBacksKeepTight` | simple-vector/simple_vector.h:166-175 | From a tight state, such as the empty vector with no slots, k pushes add k to the size and the state stays tight. |
| `VectorSpec.ReserveIdempotent` | simple-vector/simple_vector.h:220-227 | Reserving the same capacity a second time changes nothing. |
| `BufferAlgorithms.Fill` | simple-vector/simple_vector.h:128 | Exactly the slots in the range take the value. |
| `BufferAlgorithms.CopyList` | simple-vector/simple_vector.h:51 | The list is copied into the leading slots, and the rest are untouched. |
| `BufferAlgorithms.MoveForward` | simple-vector/simple_vector.h:208 | The destination range receives the source range in order, and other slots are untouched. This also holds for the overlapping left shift of an erase. |
| `BufferAlgorithms.MoveBackward` | simple-vector/simple_vector.h:180 | The range lands so that it ends at the destination end, and other slots are untouched. This also holds for the overlapping right shift of an insert. |
| `VectorScenarios.ListRoundTrip` | simple-vector/simple_vector.h:48-117 | A vector built from `[x, y, z]` has size 3 and reads back x, y, z, and index 3 is out of range. |
| `VectorScenarios.PushAll` | simple-vector/simple_vector.h:166-175 | k pushes onto a new vector leave exactly the pushed items. The capacity is at least k and, for k > 0, below 2k. |
| `VectorScenarios.CopyThenPushBack` | simple-vector/simple_vector.h:60-65 | Pushing onto a copy leaves the source's elements and capacity unchanged. |
| `VectorScenarios.MoveOut` | simple-vector/simple_vector.h:75-77 | Moving out of a vector hands over its elements and capacity, and leaves it empty with capacity 0. |
| `VectorScenarios.InsertThenErase` | simple-vector/simple_vector.h:177-212 | Insert at `p` then erase at the returned position restores the elements. |

## Left out

- `ArrayPtr<Type>` (`array_ptr.h`) is not part of this model. The buffer is a Dafny array of exactly `capacity` slots, and a reallocation is a fresh array. Allocation, deallocation and allocation failure are not modelled.
- Move assignment (line 79) is `= default`. Its effect depends on `ArrayPtr`'s move assignment, which is not part of this model, so it is left out. Only the move constructor is shown to leave the source empty.
- Element moves (`std::move` of `Type`) are treated as copies of values, so a moved-from slot keeps its value.
- `size_t` arithmetic is unbounded here. The wrap-around of `capacity_ * 2` near 2^64 is not modelled.
- Iterators are indices. `begin()`, `end()`, `cbegin()` and `cend()` are the indices 0 and `size`, and are not separate members. Iterator invalidation is stated only as whether the buffer is kept (`items == old(items)`) or replaced (`fresh(items)`).
- Writing through the reference returned by `operator[]` or the non-const `At` is not modelled; only reads are. `GetSize()` and `GetCapacity()` are the fields `size` and `capacity`.
- The text of the `out_of_range` message and the empty destructor are left out. `At`'s failure `Checked.OutOfRange` carries the offending index in place of the source's fixed message text.
- `PopBack` on an empty vector and `Erase` at `end()` are undefined in the source, so they are preconditions here. `Insert` requires a position in `[0, size]`.
- `Lt`: its own contract states only the prefix and empty cases. The full relation is its definition through `Comparisons.LexicographicalCompare`, with order properties in `LtIsStrictOrder` and `DerivedOrderings`.
- `Le`: its own contract states only the empty case. `DerivedOrderings` states that it is `<` or `==`.
- `Gt`: its own contract states only the empty case. `DerivedOrderings` relates it to `<` and `!=`.
- `Ge`: its own contract states only the empty case. `DerivedOrderings` states that it is `>` or `==`.
