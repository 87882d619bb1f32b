/** The range algorithms the vector runs over its buffer: filling a range with
    one value (std::fill, and std::generate with a generator that always yields
    the default value), copying or moving a range left to right (std::copy,
    std::move) and moving a range right to left (std::move_backward).
    Elements are values, so a move and a copy have the same effect here. */
module BufferAlgorithms {

  /** Sets the slots [from, to) of `a` to `value` and leaves every other slot alone. */
  method Fill<T>(a: array<T>, from: nat, to: nat, value: T)
    requires from <= to <= a.Length
    modifies a
    ensures forall i | 0 <= i < a.Length :: a[i] == if from <= i < to then value else old(a[i])
  {
    var i := from;
    while i < to
      invariant from <= i <= to
      invariant forall k | 0 <= k < a.Length :: a[k] == if from <= k < i then value else old(a[k])
    {
      a[i] := value;
      i := i + 1;
    }
  }

  /** Copies the elements of `init`, in order, into the slots [0, |init|) of `dst`. */
  method CopyList<T>(init: seq<T>, dst: array<T>)
    requires |init| <= dst.Length
    modifies dst
    ensures dst[..|init|] == init
    ensures forall i | |init| <= i < dst.Length :: dst[i] == old(dst[i])
  {
    var i := 0;
    while i < |init|
      invariant 0 <= i <= |init|
      invariant dst[..i] == init[..i]
      invariant forall k | |init| <= k < dst.Length :: dst[k] == old(dst[k])
    {
      dst[i] := init[i];
      i := i + 1;
    }
  }

  /** Copies src[from..to) into the slots of `dst` starting at `at`, walking left
      to right. `src` and `dst` may be one array when the destination does not
      start after the source (the left shift of an erase). */
  method MoveForward<T>(src: array<T>, from: nat, to: nat, dst: array<T>, at: nat)
    requires from <= to <= src.Length && at + (to - from) <= dst.Length
    requires src == dst ==> at <= from
    modifies dst
    ensures forall i | at <= i < at + (to - from) :: dst[i] == old(src[i - at + from])
    ensures forall i | 0 <= i < dst.Length && !(at <= i < at + (to - from)) :: dst[i] == old(dst[i])
  {
    var i := 0;
    while i < to - from
      invariant 0 <= i <= to - from
      invariant forall j | at <= j < at + i :: dst[j] == old(src[j - at + from])
      invariant forall j | 0 <= j < dst.Length && !(at <= j < at + i) :: dst[j] == old(dst[j])
      invariant forall j | from + i <= j < to :: src[j] == old(src[j])
    {
      dst[at + i] := src[from + i];
      i := i + 1;
    }
  }

  /** Moves a[first..last) so that it ends just before slot `dLast`, walking right
      to left so that no element is overwritten before it has been read (the
      right shift of an insert). */
  method MoveBackward<T>(a: array<T>, first: nat, last: nat, dLast: nat)
    requires first <= last <= dLast <= a.Length
    modifies a
    ensures forall i | dLast - (last - first) <= i < dLast :: a[i] == old(a[i - (dLast - last)])
    ensures forall i | 0 <= i < a.Length && !(dLast - (last - first) <= i < dLast) :: a[i] == old(a[i])
  {
    var j := last;
    while j > first
      invariant first <= j <= last
      invariant forall i | j + (dLast - last) <= i < dLast :: a[i] == old(a[i - (dLast - last)])
      invariant forall i | 0 <= i < a.Length && !(j + (dLast - last) <= i < dLast) :: a[i] == old(a[i])
    {
      j := j - 1;
      a[j + (dLast - last)] := a[j];
    }
  }
}
