/** The abstract state of a SimpleVector and what each mutating operation does
    to it. A vector is seen as its live elements (the first `size` slots of its
    buffer) and its capacity; the slots [size, capacity) hold unspecified
    storage and are not part of the state. */
module VectorSpec {

  datatype Shape<T> = Shape(elems: seq<T>, capacity: nat)
  {
    /** size <= capacity, the vector's one invariant. */
    predicate Valid() { |elems| <= capacity }
  }

  function Max(a: nat, b: nat): nat { if a < b then b else a }

  /** The capacity a full buffer of `capacity` slots grows to when it must hold
      `needed` elements: twice as large, and at least `needed`. */
  function GrownCapacity(capacity: nat, needed: nat): (r: nat)
    ensures r >= needed && r >= 2 * capacity
    ensures r == needed || r == 2 * capacity
  {
    Max(needed, 2 * capacity)
  }

  /** `n` copies of the default value. */
  function Defaults<T>(zero: T, n: nat): (r: seq<T>)
    ensures |r| == n && forall i | 0 <= i < n :: r[i] == zero
  {
    seq(n, _ => zero)
  }

  /** Resize(newSize), `zero` standing for the default value Type{}: shrinking
      only drops elements; growing below the capacity default-fills in place;
      growing to or past the capacity reallocates. */
  function ResizeState<T>(s: Shape<T>, newSize: nat, zero: T): (r: Shape<T>)
    requires s.Valid()
    ensures r.Valid() && |r.elems| == newSize
    ensures forall i | 0 <= i < newSize && i < |s.elems| :: r.elems[i] == s.elems[i]
    ensures forall i | |s.elems| <= i < newSize :: r.elems[i] == zero
    ensures r.capacity >= s.capacity
    ensures newSize < s.capacity ==> r.capacity == s.capacity
    ensures newSize >= s.capacity ==> r.capacity == GrownCapacity(s.capacity, newSize)
  {
    if newSize < |s.elems| then
      Shape(s.elems[..newSize], s.capacity)
    else if newSize < s.capacity then
      Shape(s.elems + Defaults(zero, newSize - |s.elems|), s.capacity)
    else
      Shape(s.elems + Defaults(zero, newSize - |s.elems|), GrownCapacity(s.capacity, newSize))
  }

  /** PushBack(item): the item goes last; a full buffer grows first. */
  function PushBackState<T>(s: Shape<T>, item: T): (r: Shape<T>)
    requires s.Valid()
    ensures r.Valid() && |r.elems| == |s.elems| + 1
    ensures r.elems[..|s.elems|] == s.elems && r.elems[|s.elems|] == item
    ensures |s.elems| < s.capacity ==> r.capacity == s.capacity
    ensures |s.elems| == s.capacity ==> r.capacity == GrownCapacity(s.capacity, |s.elems| + 1)
  {
    var cap := if |s.elems| < s.capacity then s.capacity else GrownCapacity(s.capacity, |s.elems| + 1);
    Shape(s.elems + [item], cap)
  }

  /** Insert(pos, value): elements from `pos` on move one place right; a full
      buffer is reallocated at the grown capacity. */
  function InsertState<T>(s: Shape<T>, pos: nat, value: T): (r: Shape<T>)
    requires s.Valid() && pos <= |s.elems|
    ensures r.Valid() && |r.elems| == |s.elems| + 1
    ensures forall i | 0 <= i < pos :: r.elems[i] == s.elems[i]
    ensures r.elems[pos] == value
    ensures forall i | pos <= i < |s.elems| :: r.elems[i + 1] == s.elems[i]
    ensures |s.elems| < s.capacity ==> r.capacity == s.capacity
    ensures |s.elems| == s.capacity ==> r.capacity == GrownCapacity(s.capacity, |s.elems| + 1)
  {
    var cap := if |s.elems| < s.capacity then s.capacity else GrownCapacity(s.capacity, |s.elems| + 1);
    Shape(s.elems[..pos] + [value] + s.elems[pos..], cap)
  }

  /** Erase(pos): elements after `pos` move one place left; capacity is kept. */
  function EraseState<T>(s: Shape<T>, pos: nat): (r: Shape<T>)
    requires s.Valid() && pos < |s.elems|
    ensures r.Valid() && |r.elems| == |s.elems| - 1 && r.capacity == s.capacity
    ensures forall i | 0 <= i < pos :: r.elems[i] == s.elems[i]
    ensures forall i | pos <= i < |r.elems| :: r.elems[i] == s.elems[i + 1]
  {
    Shape(s.elems[..pos] + s.elems[pos + 1..], s.capacity)
  }

  /** Reserve(newCapacity): grows the buffer to exactly `newCapacity` when that is
      larger, and otherwise does nothing. */
  function ReserveState<T>(s: Shape<T>, newCapacity: nat): (r: Shape<T>)
    requires s.Valid()
    ensures r.Valid() && r.elems == s.elems
    ensures r.capacity == Max(s.capacity, newCapacity)
  {
    if newCapacity > s.capacity then Shape(s.elems, newCapacity) else s
  }

  /** The state after pushing each of `items` in turn. */
  function PushBackAll<T>(s: Shape<T>, items: seq<T>): (r: Shape<T>)
    requires s.Valid()
    decreases |items|
  {
    if items == [] then s else PushBackAll(PushBackState(s, items[0]), items[1..])
  }

  // ---- Lemmas ----

  /** A push on a full buffer is Resize(size + 1) followed by a store into the
      new last slot, whatever default the resize fills in. */
  lemma PushBackIsResizeThenStore<T>(s: Shape<T>, item: T, zero: T)
    requires s.Valid() && |s.elems| == s.capacity
    ensures var grown := ResizeState(s, |s.elems| + 1, zero);
            PushBackState(s, item) == Shape(grown.elems[|s.elems| := item], grown.capacity)
  {
  }

  /** Inserting at the end is the same as pushing back. */
  lemma InsertAtEndIsPushBack<T>(s: Shape<T>, value: T)
    requires s.Valid()
    ensures InsertState(s, |s.elems|, value) == PushBackState(s, value)
  {
  }

  /** Erasing what was just inserted gives back the old elements. */
  lemma EraseUndoesInsert<T>(s: Shape<T>, pos: nat, value: T)
    requires s.Valid() && pos <= |s.elems|
    ensures EraseState(InsertState(s, pos, value), pos).elems == s.elems
  {
  }

  /** Resize(n) twice in a row: the second call leaves size and elements as the
      first left them, and leaves the capacity alone unless the first call made
      the capacity exactly n, in which case it reallocates again. */
  lemma ResizeTwice<T>(s: Shape<T>, n: nat, zero: T)
    requires s.Valid()
    ensures var once := ResizeState(s, n, zero);
            var twice := ResizeState(once, n, zero);
            && twice.elems == once.elems
            && twice.capacity == (if n == once.capacity then GrownCapacity(n, n) else once.capacity)
  {
  }

  /** Concrete case of the above: a full vector of three elements resized to
      three doubles its capacity. */
  lemma ResizeToCapacityReallocates<T>(a: T, b: T, c: T, zero: T)
    ensures ResizeState(Shape([a, b, c], 3), 3, zero) == Shape([a, b, c], 6)
  {
  }

  /** Pushing a sequence of items appends them, keeps size <= capacity and never
      lowers the capacity. */
  lemma {:induction false} PushBackAllAppends<T>(s: Shape<T>, items: seq<T>)
    requires s.Valid()
    ensures PushBackAll(s, items).Valid()
    ensures PushBackAll(s, items).elems == s.elems + items
    ensures PushBackAll(s, items).capacity >= s.capacity
    decreases |items|
  {
    if items != [] {
      var next := PushBackState(s, items[0]);
      assert next.elems == s.elems + [items[0]];
      PushBackAllAppends(next, items[1..]);
      assert s.elems + [items[0]] + items[1..] == s.elems + items;
    }
  }

  /** Pushes into a buffer with room for all of them never reallocate. */
  lemma {:induction false} PushBacksWithinCapacity<T>(s: Shape<T>, items: seq<T>)
    requires s.Valid() && |s.elems| + |items| <= s.capacity
    ensures PushBackAll(s, items).capacity == s.capacity
    decreases |items|
  {
    if items != [] {
      PushBacksWithinCapacity(PushBackState(s, items[0]), items[1..]);
    }
  }

  /** The doubling policy keeps the buffer at most about twice the size: an
      empty vector has no slots, and a non-empty one has fewer than 2 * size. */
  predicate Tight<T>(s: Shape<T>)
  {
    s.Valid() && (|s.elems| == 0 ==> s.capacity == 0) && (|s.elems| > 0 ==> s.capacity < 2 * |s.elems|)
  }

  lemma PushBackKeepsTight<T>(s: Shape<T>, item: T)
    requires Tight(s)
    ensures Tight(PushBackState(s, item))
  {
  }

  /** Any run of k pushes from a tight state (an empty vector with no slots is
      one) adds k to the size and stays tight. */
  lemma {:induction false} PushBacksKeepTight<T>(s: Shape<T>, items: seq<T>)
    requires Tight(s)
    ensures Tight(PushBackAll(s, items))
    ensures |PushBackAll(s, items).elems| == |s.elems| + |items|
    decreases |items|
  {
    if items != [] {
      PushBackKeepsTight(s, items[0]);
      PushBacksKeepTight(PushBackState(s, items[0]), items[1..]);
    }
  }

  /** Reserving the same capacity twice changes nothing the second time. */
  lemma ReserveIdempotent<T>(s: Shape<T>, c: nat)
    requires s.Valid()
    ensures ReserveState(ReserveState(s, c), c) == ReserveState(s, c)
  {
  }
}
