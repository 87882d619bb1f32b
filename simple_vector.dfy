/** SimpleVector<Type>: a dynamic array over a buffer of `capacity` slots, the
    first `size` of which hold the live elements. Positions (the source's
    pointer iterators) are indices into the buffer. */
module SimpleVectors {
  import opened VectorSpec
  import opened BufferAlgorithms
  import opened Comparisons

  /** The reservation hint: a capacity wrapped so that constructing from it is
      told apart from constructing `n` default elements. */
  datatype ReserveProxyObj = ReserveProxyObj(capacityToReserve: nat)
  {
    function GetCapacity(): nat { capacityToReserve }
  }

  /** Builds the reservation hint for a capacity. */
  function Reserve(capacityToReserve: nat): (r: ReserveProxyObj)
    ensures r.GetCapacity() == capacityToReserve
  {
    ReserveProxyObj(capacityToReserve)
  }

  /** The outcome of checked access: the element, or the out-of-range error
      with the offending index. */
  datatype Checked<T> = Ok(value: T) | OutOfRange(index: nat)

  class SimpleVector<T(0,==)> {
    var size: nat
    var capacity: nat
    var items: array<T>

    /** size <= capacity, and the buffer has exactly `capacity` slots. */
    predicate Valid()
      reads this
    {
      items.Length == capacity && size <= capacity
    }

    /** The live elements, [begin(), end()). */
    function Elements(): seq<T>
      reads this, items
      requires Valid()
    {
      items[..size]
    }

    /** The abstract state: live elements and capacity. */
    function State(): (s: Shape<T>)
      reads this, items
      requires Valid()
      ensures s.Valid()
    {
      Shape(items[..size], capacity)
    }

    /** The default constructor: no elements, no slots. */
    constructor ()
      ensures Valid() && fresh(items)
      ensures Elements() == [] && capacity == 0
    {
      size, capacity := 0, 0;
      items := new T[0];
    }

    /** SimpleVector(n, value), and SimpleVector(n) with `value` the default
      value Type{}: n slots, every one holding `value`. */
    constructor Filled(n: nat, value: T)
      ensures Valid() && fresh(items)
      ensures size == n && capacity == n
      ensures forall i | 0 <= i < n :: Elements()[i] == value
    {
      var a := new T[n];
      Fill(a, 0, n, value);
      size, capacity, items := n, n, a;
    }

    /** Construction from an initializer list: the list's elements, in order,
      in a buffer of exactly their number. */
    constructor FromList(init: seq<T>)
      ensures Valid() && fresh(items)
      ensures Elements() == init && capacity == |init|
    {
      var a := new T[|init|];
      CopyList(init, a);
      size, capacity, items := |init|, |init|, a;
    }

    /** Construction from a reservation hint: no elements, the hinted capacity. */
    constructor WithReserve(obj: ReserveProxyObj)
      ensures Valid() && fresh(items)
      ensures Elements() == [] && capacity == obj.GetCapacity()
    {
      size, capacity := 0, obj.GetCapacity();
      items := new T[obj.GetCapacity()];
    }

    /** The copy constructor: a new buffer of the other's capacity holding a copy
      of its live elements. */
    constructor Copy(other: SimpleVector<T>)
      requires other.Valid()
      ensures Valid() && fresh(items)
      ensures Elements() == other.Elements() && capacity == other.capacity
    {
      var a := new T[other.capacity];
      MoveForward(other.items, 0, other.size, a, 0);
      size, capacity, items := other.size, other.capacity, a;
    }

    /** The move constructor: starts empty and swaps with `other`, which takes
      over the empty state. */
    constructor Moved(other: SimpleVector<T>)
      requires other.Valid()
      modifies other
      ensures Valid() && other.Valid()
      ensures items == old(other.items) && size == old(other.size) && capacity == old(other.capacity)
      ensures Elements() == old(other.Elements())
      ensures other.size == 0 && other.capacity == 0
    {
      size, capacity := 0, 0;
      items := new T[0];
      new;
      Swap(other);
    }

    /** Copy assignment. The copy-and-swap runs only when the two vectors differ
      by value, so an equal right-hand side leaves this buffer and capacity as
      they were. */
    method Assign(rhs: SimpleVector<T>)
      requires Valid() && rhs.Valid()
      modifies this
      ensures Valid() && Elements() == old(rhs.Elements())
      ensures old(rhs.Elements()) == old(Elements()) ==> items == old(items) && capacity == old(capacity)
      ensures old(rhs.Elements()) != old(Elements()) ==> fresh(items) && capacity == old(rhs.capacity)
    {
      if Ne(this, rhs) {
        var tmp := new SimpleVector.Copy(rhs);
        Swap(tmp);
      }
    }

    /** Exchanges buffer, size and capacity with `other`. */
    method Swap(other: SimpleVector<T>)
      requires Valid() && other.Valid()
      modifies this, other
      ensures Valid() && other.Valid()
      ensures items == old(other.items) && size == old(other.size) && capacity == old(other.capacity)
      ensures other.items == old(items) && other.size == old(size) && other.capacity == old(capacity)
      ensures Elements() == old(other.Elements()) && other.Elements() == old(Elements())
    {
      var t := items;
      items := other.items;
      other.items := t;
      var s := size;
      size := other.size;
      other.size := s;
      var c := capacity;
      capacity := other.capacity;
      other.capacity := c;
    }

    /** No live elements. */
    function IsEmpty(): (r: bool)
      reads this, items
      requires Valid()
      ensures r <==> Elements() == []
    {
      size == 0
    }

    /** operator[]: unchecked access; an index past the end is the caller's fault. */
    function Get(index: nat): (r: T)
      reads this, items
      requires Valid() && index < size
      ensures r == Elements()[index]
    {
      items[index]
    }

    /** At: checked access, failing exactly when the index is not below the size. */
    function At(index: nat): (r: Checked<T>)
      reads this, items
      requires Valid()
      ensures r.OutOfRange? <==> index >= |Elements()|
      ensures r.OutOfRange? ==> r.index == index
      ensures r.Ok? ==> r.value == Elements()[index]
    {
      if index >= size then OutOfRange(index) else Ok(items[index])
    }

    /** Drops every element; the buffer and capacity stay. */
    method Clear()
      requires Valid()
      modifies this
      ensures Valid() && Elements() == [] && capacity == old(capacity) && items == old(items)
    {
      size := 0;
    }

    /** Resize(newSize), `zero` standing for the default value Type{}. */
    method Resize(newSize: nat, zero: T)
      requires Valid()
      modifies this, items
      ensures Valid()
      ensures State() == ResizeState(old(State()), newSize, zero)
      ensures newSize < old(capacity) ==> items == old(items)
      ensures newSize >= old(capacity) ==> fresh(items)
    {
      if newSize < size {
        size := newSize;
      } else if newSize < capacity {
        Fill(items, size, newSize, zero);
        size := newSize;
      } else {
        var newCapacity := GrownCapacity(capacity, newSize);
        var tmp := new T[newCapacity];
        MoveForward(items, 0, size, tmp, 0);
        Fill(tmp, size, newSize, zero);
        items := tmp;
        size := newSize;
        capacity := newCapacity;
      }
    }

    /** Appends `item`, growing through Resize when the buffer is full. */
    method PushBack(item: T)
      requires Valid()
      modifies this, items
      ensures Valid()
      ensures State() == PushBackState(old(State()), item)
      ensures old(size) < old(capacity) ==> items == old(items)
      ensures old(size) == old(capacity) ==> fresh(items)
    {
      if size < capacity {
        items[size] := item;
        size := size + 1;
      } else {
        var zero: T := *;  // Type{}, overwritten at once
        Resize(size + 1, zero);
        items[size - 1] := item;
      }
    }

    /** Inserts `value` before position `pos` and returns its position. */
    method Insert(pos: nat, value: T) returns (it: nat)
      requires Valid() && pos <= size
      modifies this, items
      ensures Valid() && it == pos
      ensures State() == InsertState(old(State()), pos, value)
      ensures old(size) < old(capacity) ==> items == old(items)
      ensures old(size) == old(capacity) ==> fresh(items)
    {
      if size < capacity {
        ShiftInsert(pos, value);
      } else {
        ReallocatingInsert(pos, value);
      }
      it := pos;
    }

    /** Insert into a buffer with a free slot: shift [pos, size) right by one. */
    method ShiftInsert(pos: nat, value: T)
      requires Valid() && pos <= size < capacity
      modifies this, items
      ensures Valid() && items == old(items) && capacity == old(capacity)
      ensures Elements() == old(Elements()[..pos]) + [value] + old(Elements()[pos..])
    {
      ghost var e := Elements();
      MoveBackward(items, pos, size, size + 1);
      assert forall i | pos < i <= size :: items[i] == e[i - 1];
      assert forall i | 0 <= i < pos :: items[i] == e[i];
      items[pos] := value;
      size := size + 1;
      ghost var r := e[..pos] + [value] + e[pos..];
      assert |Elements()| == |r|;
      forall i | 0 <= i < size
        ensures Elements()[i] == r[i]
      {
        if i < pos {
          assert r[i] == e[i];
        } else if i > pos {
          assert r[i] == e[i - 1];
        }
      }
    }

    /** Insert into a full buffer: copy the two halves around `value` into a
      new buffer of the grown capacity. */
    method ReallocatingInsert(pos: nat, value: T)
      requires Valid() && pos <= size == capacity
      modifies this
      ensures Valid() && fresh(items) && capacity == GrownCapacity(old(capacity), old(size) + 1)
      ensures Elements() == old(Elements()[..pos]) + [value] + old(Elements()[pos..])
    {
      var newSize := size + 1;
      var newCapacity := GrownCapacity(capacity, newSize);
      var tmp := new T[newCapacity];
      MoveForward(items, 0, pos, tmp, 0);
      tmp[pos] := value;
      MoveForward(items, pos, size, tmp, pos + 1);
      items := tmp;
      size := newSize;
      capacity := newCapacity;
    }

    /** Drops the last element; the vector must not be empty. */
    method PopBack()
      requires Valid() && size > 0
      modifies this
      ensures Valid() && items == old(items) && capacity == old(capacity)
      ensures Elements() == old(Elements())[..old(size) - 1]
    {
      size := size - 1;
    }

    /** Removes the element at `pos` and returns `pos`, now the position of the
      element that followed it. */
    method Erase(pos: nat) returns (it: nat)
      requires Valid() && pos < size
      modifies this, items
      ensures Valid() && it == pos && items == old(items)
      ensures State() == EraseState(old(State()), pos)
    {
      MoveForward(items, pos + 1, size, items, pos);
      size := size - 1;
      it := pos;
    }

    /** Grows the buffer to exactly `newCapacity` slots when that is more than
      it has; otherwise does nothing. */
    method Reserve(newCapacity: nat)
      requires Valid()
      modifies this
      ensures Valid()
      ensures State() == ReserveState(old(State()), newCapacity)
      ensures newCapacity > old(capacity) ==> fresh(items)
      ensures newCapacity <= old(capacity) ==> items == old(items)
    {
      if newCapacity > capacity {
        var tmp := new T[newCapacity];
        MoveForward(items, 0, size, tmp, 0);
        items := tmp;
        capacity := newCapacity;
      }
    }
  }

  // ---- The free comparison operators; `less` is the element type's `<` ----

  /** operator==: the same object, or equal sizes and pairwise-equal elements. */
  function Eq<T(0,==)>(lhs: SimpleVector<T>, rhs: SimpleVector<T>): (r: bool)
    reads lhs, lhs.items, rhs, rhs.items
    requires lhs.Valid() && rhs.Valid()
    ensures r <==> lhs.Elements() == rhs.Elements()
  {
    lhs == rhs || (lhs.size == rhs.size && RangeEqual(lhs.Elements(), rhs.Elements()))
  }

  /** operator!= */
  function Ne<T(0,==)>(lhs: SimpleVector<T>, rhs: SimpleVector<T>): (r: bool)
    reads lhs, lhs.items, rhs, rhs.items
    requires lhs.Valid() && rhs.Valid()
    ensures r <==> lhs.Elements() != rhs.Elements()
  {
    !Eq(lhs, rhs)
  }

  /** operator<: lexicographic over the live elements. */
  function Lt<T(0,==)>(lhs: SimpleVector<T>, rhs: SimpleVector<T>, less: (T, T) -> bool): (r: bool)
    reads lhs, lhs.items, rhs, rhs.items
    requires lhs.Valid() && rhs.Valid()
    ensures rhs.size == 0 ==> !r
    ensures lhs.size < rhs.size && lhs.Elements() == rhs.Elements()[..lhs.size] ==> r
  {
    LexicographicalCompare(lhs.Elements(), rhs.Elements(), less)
  }

  /** operator<= */
  function Le<T(0,==)>(lhs: SimpleVector<T>, rhs: SimpleVector<T>, less: (T, T) -> bool): (r: bool)
    reads lhs, lhs.items, rhs, rhs.items
    requires lhs.Valid() && rhs.Valid()
    ensures lhs.size == 0 ==> r
  {
    !Lt(rhs, lhs, less)
  }

  /** operator> */
  function Gt<T(0,==)>(lhs: SimpleVector<T>, rhs: SimpleVector<T>, less: (T, T) -> bool): (r: bool)
    reads lhs, lhs.items, rhs, rhs.items
    requires lhs.Valid() && rhs.Valid()
    ensures lhs.size == 0 ==> !r
  {
    Lt(rhs, lhs, less)
  }

  /** operator>= */
  function Ge<T(0,==)>(lhs: SimpleVector<T>, rhs: SimpleVector<T>, less: (T, T) -> bool): (r: bool)
    reads lhs, lhs.items, rhs, rhs.items
    requires lhs.Valid() && rhs.Valid()
    ensures rhs.size == 0 ==> r
  {
    !Lt(lhs, rhs, less)
  }

  /** Under a strict total element order, <= is "< or ==", >= is "> or ==",
      and < and > are the two halves of !=. */
  lemma DerivedOrderings<T(0,!new)>(lhs: SimpleVector<T>, rhs: SimpleVector<T>, less: (T, T) -> bool)
    requires lhs.Valid() && rhs.Valid() && StrictTotalOrder(less)
    ensures Le(lhs, rhs, less) <==> Lt(lhs, rhs, less) || Eq(lhs, rhs)
    ensures Ge(lhs, rhs, less) <==> Gt(lhs, rhs, less) || Eq(lhs, rhs)
    ensures Ne(lhs, rhs) <==> Lt(lhs, rhs, less) || Gt(lhs, rhs, less)
    ensures !(Lt(lhs, rhs, less) && Gt(lhs, rhs, less))
  {
    LexTrichotomy(lhs.Elements(), rhs.Elements(), less);
    LexTrichotomy(rhs.Elements(), lhs.Elements(), less);
  }

  /** Under a strict weak element order, < on vectors is a strict weak order:
      irreflexive, asymmetric and transitive, with transitive incomparability. */
  lemma LtIsStrictOrder<T(0,!new)>(a: SimpleVector<T>, b: SimpleVector<T>, c: SimpleVector<T>, less: (T, T) -> bool)
    requires a.Valid() && b.Valid() && c.Valid() && StrictWeakOrder(less)
    ensures !Lt(a, a, less)
    ensures Lt(a, b, less) ==> !Lt(b, a, less)
    ensures Lt(a, b, less) && Lt(b, c, less) ==> Lt(a, c, less)
    ensures !Lt(a, b, less) && !Lt(b, a, less) && !Lt(b, c, less) && !Lt(c, b, less)
            ==> !Lt(a, c, less) && !Lt(c, a, less)
  {
    LexIrreflexive(a.Elements(), less);
    LexAsymmetric(a.Elements(), b.Elements(), less);
    if Lt(a, b, less) && Lt(b, c, less) {
      LexTransitive(a.Elements(), b.Elements(), c.Elements(), less);
    }
    if !Lt(a, b, less) && !Lt(b, a, less) && !Lt(b, c, less) && !Lt(c, b, less) {
      LexEquivTransitive(a.Elements(), b.Elements(), c.Elements(), less);
    }
  }
}
