/** Clients of SimpleVector that use only the operations' contracts: what a
    caller can rely on when it builds, copies, moves and fills vectors. */
module VectorScenarios {
  import opened VectorSpec
  import opened SimpleVectors

  /** A vector built from the list [x, y, z] reads back x, y, z at indices 0..2
      and reports index 3 as out of range. */
  method ListRoundTrip<T(0,==)>(x: T, y: T, z: T) returns (size: nat, results: seq<Checked<T>>)
    ensures size == 3
    ensures results == [Ok(x), Ok(y), Ok(z), OutOfRange(3)]
  {
    var v := new SimpleVector.FromList([x, y, z]);
    size := v.size;
    results := [v.At(0), v.At(1), v.At(2), v.At(3)];
  }

  /** Pushing the items one by one onto a new vector leaves exactly those items,
      in order, in a buffer that is never below the size and, once non-empty,
      below twice the size. */
  method PushAll<T(0,==)>(xs: seq<T>) returns (elements: seq<T>, capacity: nat)
    ensures elements == xs
    ensures |xs| <= capacity
    ensures xs == [] ==> capacity == 0
    ensures xs != [] ==> capacity < 2 * |xs|
  {
    var v := new SimpleVector();
    var i := 0;
    while i < |xs|
      invariant 0 <= i <= |xs|
      invariant v.Valid() && fresh(v.items)
      invariant v.Elements() == xs[..i]
      invariant Tight(v.State())
    {
      PushBackKeepsTight(v.State(), xs[i]);
      v.PushBack(xs[i]);
      i := i + 1;
    }
    elements, capacity := v.Elements(), v.capacity;
    assert xs[..i] == xs;
  }

  /** A copy is independent of its source: pushing onto the copy leaves the
      source as it was. */
  method CopyThenPushBack<T(0,==)>(a: SimpleVector<T>, item: T) returns (b: SimpleVector<T>)
    requires a.Valid()
    ensures fresh(b) && b.Valid() && a.Valid()
    ensures b.Elements() == a.Elements() + [item]
    ensures a.Elements() == old(a.Elements()) && a.capacity == old(a.capacity)
  {
    b := new SimpleVector.Copy(a);
    b.PushBack(item);
  }

  /** Moving out of a vector hands its elements over and leaves it empty. */
  method MoveOut<T(0,==)>(a: SimpleVector<T>) returns (b: SimpleVector<T>)
    requires a.Valid()
    modifies a
    ensures fresh(b) && b.Valid() && a.Valid()
    ensures b.Elements() == old(a.Elements()) && b.capacity == old(a.capacity)
    ensures a.Elements() == [] && a.capacity == 0
  {
    b := new SimpleVector.Moved(a);
  }

  /** Erasing the element just inserted restores the elements; the capacity is
      what the insert made it. */
  method InsertThenErase<T(0,==)>(v: SimpleVector<T>, pos: nat, value: T)
    requires v.Valid() && pos <= v.size
    modifies v, v.items
    ensures v.Valid() && v.Elements() == old(v.Elements())
    ensures v.capacity == InsertState(old(v.State()), pos, value).capacity
  {
    var p := v.Insert(pos, value);
    var q := v.Erase(p);
    EraseUndoesInsert(old(v.State()), pos, value);
  }
}
