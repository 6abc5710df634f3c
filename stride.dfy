/** The stride view: a view over a base range that visits every `stride`-th
    element, starting with the first. The base range is a sequence; a base
    iterator is an integer position in [0, |base|]. A cursor of the view is a
    base position together with an `Adaptor`, whose `offset` records how far
    past the true end of the base the cursor logically sits. */
module Stride {
  import opened Positions

  /** The verdicts of the capability classifier about the base range. */
  datatype Caps = Caps(bidi: bool, sized: bool, randomAccess: bool, bounded: bool)

  /** `stride_view<Rng>`: the base range, the stride and the base's capabilities.
      Nothing of it changes after construction. */
  class StrideView<T> {
    const base: seq<T>
    const stride: int
    const caps: Caps

    predicate Valid() { 0 < stride }

    /** Construction asserts a positive stride. */
    constructor (base: seq<T>, stride: int, caps: Caps)
      requires 0 < stride
      ensures Valid()
      ensures this.base == base && this.stride == stride && this.caps == caps
    {
      this.base := base;
      this.stride := stride;
      this.caps := caps;
    }

    /** `size()`: the number of elements the view visits, ceil(|base| / stride). */
    function Size(): (r: nat)
      requires Valid()
      ensures |base| <= r * stride < |base| + stride
    {
      var x := |base| + stride - 1;
      DivModUnique(x, stride, x / stride, x % stride);
      x / stride
    }

    /** The state of a cursor that stands at logical index `k` of the view
        (0 <= k <= Size(), by `CursorBounds`): the base position is
        `k * stride`, clamped at the end of the base; a bidirectional cursor's
        offset is the shortfall of that clamp, or still unresolved (-1) at the
        end; a forward cursor's offset is the constant 0. */
    predicate Cursor(it: int, off: int, k: int)
      requires Valid()
    {
      0 <= k && k * stride < |base| + stride && it == Min(k * stride, |base|) &&
      if caps.bidi then off == k * stride - it || (off == -1 && |base| <= k * stride)
      else off == 0
    }

    /** `begin_adaptor()`. */
    method BeginAdaptor() returns (a: Adaptor<T>)
      requires Valid()
      ensures fresh(a) && a.rng == this && a.Valid() && a.offset == 0
    {
      a := new Adaptor.Begin(this);
    }

    /** `end_adaptor()`: a real adaptor when the base is bounded, otherwise the
        stateless `adaptor_base`, modelled as null. */
    method EndAdaptor() returns (a: Adaptor?<T>)
      requires Valid()
      ensures caps.bounded <==> a != null
      ensures a != null ==> fresh(a) && a.rng == this && a.Valid()
      ensures a != null ==>
                a.offset == if !caps.bidi then 0 else if caps.sized then a.CalcOffset() else -1
    {
      if caps.bounded {
        a := new Adaptor.End(this);
      } else {
        a := null;
      }
    }
  }

  /** The stride view's adaptor: a back-reference to the view and the offset
      cell. For a bidirectional base the offset is a mutable cell holding -1
      (unresolved) or a resolved shortfall; for any other base it is the
      constant 0. */
  class Adaptor<T> {
    const rng: StrideView<T>
    var offset: int

    predicate Valid()
      reads this
    {
      rng.Valid() && (!rng.caps.bidi ==> offset == 0)
    }

    /** `calc_offset()`: how far beyond the end of the base the last, partial
        stride reaches. */
    function CalcOffset(): (r: int)
      requires rng.Valid()
      ensures 0 <= r < rng.stride
      ensures (|rng.base| + r) % rng.stride == 0
      ensures r == 0 <==> |rng.base| % rng.stride == 0
      ensures |rng.base| + r == rng.Size() * rng.stride
    {
      var len, s := |rng.base|, rng.stride;
      var tmp := len % s;
      DivModUnique(len, s, len / s, tmp);
      if tmp != 0 then
        DivModUnique(len + s - tmp, s, len / s + 1, 0);
        DivModUnique(len + s - 1, s, len / s + 1, tmp - 1);
        s - tmp
      else
        DivModUnique(len + s - 1, s, len / s, s - 1);
        tmp
    }

    /** The offset a cell holding `off` has once `clean()` has run. */
    function Cleaned(off: int): (r: int)
      requires rng.Valid()
      ensures off == -1 ==> 0 <= r < rng.stride
      ensures off != -1 ==> r == off
    {
      if off == -1 then CalcOffset() else off
    }

    /** The adaptor of a begin cursor. */
    constructor Begin(rng: StrideView<T>)
      requires rng.Valid()
      ensures this.rng == rng && Valid() && offset == 0
    {
      this.rng := rng;
      offset := 0;
    }

    /** The adaptor of an end cursor: unresolved, but resolved eagerly when
        the base is bidirectional and sized. */
    constructor End(rng: StrideView<T>)
      requires rng.Valid()
      ensures this.rng == rng && Valid()
      ensures offset == if !rng.caps.bidi then 0 else if rng.caps.sized then CalcOffset() else -1
    {
      this.rng := rng;
      // offset_t(-1): the constant offset of a non-bidirectional base ignores it
      offset := if rng.caps.bidi then -1 else 0;
      new;
      if rng.caps.bidi && rng.caps.sized {
        Store(CalcOffset());
      }
    }

    /** `offset() = v`: stores into the cell of a bidirectional base; for any
        other base the constant offset ignores the assignment. */
    method Store(v: int)
      requires Valid()
      modifies this
      ensures Valid()
      ensures offset == if rng.caps.bidi then v else old(offset)
    {
      if rng.caps.bidi {
        offset := v;
      }
    }

    /** `clean()`: resolves an unresolved offset, and leaves a resolved one alone. */
    method Clean()
      requires Valid() && rng.caps.bidi
      modifies this
      ensures Valid() && offset == Cleaned(old(offset))
    {
      if offset == -1 {
        offset := CalcOffset();
      }
    }

    /** `next(it)`: one stride forward, clamped at the end of the base; the
        offset records the shortfall. Asserts a zero offset and `it != end`. */
    method Next(it: int) returns (it': int)
      requires Valid()
      requires offset == 0
      requires 0 <= it < |rng.base|
      modifies this
      ensures Valid()
      ensures it' == Min(it + rng.stride, |rng.base|)
      ensures offset == if rng.caps.bidi then it + rng.stride - it' else 0
    {
      var r := AdvanceBounded(it, rng.stride + offset, |rng.base|);
      it' := r.0;
      Store(r.1);
    }

    /** `prev(it)`: cleans, then steps back by `stride - offset` toward the
        beginning of the base; the offset is asserted to be 0 afterwards,
        which holds exactly when the step stays inside the base. */
    method Prev(it: int) returns (it': int)
      requires Valid() && rng.caps.bidi
      requires 0 <= it <= |rng.base|
      requires rng.stride - it <= Cleaned(offset) <= rng.stride
      modifies this
      ensures Valid() && offset == 0
      ensures it' == it - rng.stride + Cleaned(old(offset))
    {
      Clean();
      var r := AdvanceBounded(it, -rng.stride + offset, 0);
      it' := r.0;
      Store(r.1);
      assert offset == 0;
    }

    /** `distance_to(here, there, that)`: cleans both cursors, asserts that
        they belong to the same view and that the distance in base positions,
        corrected by the offsets, is a whole number of strides, and returns
        that number. The quotient is exact, so truncating and Euclidean
        division agree. */
    method DistanceTo(here: int, there: int, that: Adaptor<T>) returns (d: int)
      requires Valid() && that.Valid() && rng.caps.bidi
      requires rng == that.rng
      requires ((there - here) + that.Cleaned(that.offset) - Cleaned(offset)) % rng.stride == 0
      modifies this, that
      ensures Valid() && that.Valid()
      ensures offset == Cleaned(old(offset)) && that.offset == that.Cleaned(old(that.offset))
      ensures d * rng.stride == (there - here) + that.offset - offset
    {
      Clean();
      that.Clean();
      var raw := (there - here) + that.offset - offset;
      d := raw / rng.stride;
      DivModUnique(raw, rng.stride, d, 0);
    }

    /** `advance(it, n)`: for n != 0, cleans and then moves by
        `n * stride + offset` in one bounded jump, toward the end for n > 0
        and toward the beginning for n < 0; the offset records the shortfall. */
    method Advance(it: int, n: int) returns (it': int)
      requires Valid() && rng.caps.bidi && rng.caps.randomAccess
      requires 0 <= it <= |rng.base|
      requires 0 < n ==> 0 <= n * rng.stride + Cleaned(offset)
      requires n < 0 ==> n * rng.stride + Cleaned(offset) <= 0
      modifies this
      ensures Valid()
      ensures n == 0 ==> it' == it && offset == old(offset)
      ensures 0 < n ==> var t := it + n * rng.stride + Cleaned(old(offset));
        it' == Min(t, |rng.base|) && offset == t - it'
      ensures n < 0 ==> var t := it + n * rng.stride + Cleaned(old(offset));
        it' == Max(t, 0) && offset == t - it'
    {
      it' := it;
      if n != 0 {
        Clean();
      }
      if 0 < n {
        var r := AdvanceBounded(it, n * rng.stride + offset, |rng.base|);
        it' := r.0;
        Store(r.1);
      } else if n < 0 {
        var r := AdvanceBounded(it, n * rng.stride + offset, 0);
        it' := r.0;
        Store(r.1);
      }
    }
  }

  /** `clean()` resolves at most once: a resolved offset is kept, an
      unresolved one becomes `calc_offset()`, and cleaning twice is cleaning once. */
  lemma CleanResolvesOnce<T>(a: Adaptor<T>, off: int)
    requires a.rng.Valid()
    ensures off != -1 ==> a.Cleaned(off) == off
    ensures off == -1 ==> a.Cleaned(off) == a.CalcOffset()
    ensures a.Cleaned(a.Cleaned(off)) == a.Cleaned(off)
  {
  }

  /** The begin adaptor is a cursor at index 0; the end adaptor, whichever
      way its offset starts, is a cursor at index `Size()`. */
  lemma EndpointsAreCursors<T>(v: StrideView<T>, off: int)
    requires v.Valid()
    requires if v.caps.bidi then off == -1 || off == v.Size() * v.stride - |v.base| else off == 0
    ensures v.Cursor(0, 0, 0)
    ensures v.Cursor(|v.base|, off, v.Size())
  {
  }

  /** Where a cursor stands: its index is at most `Size()`, and an
      unresolved offset only occurs at index `Size()`; it is at the end of
      the base exactly at index `Size()`, at the beginning exactly at index
      0; before the end its position is an exact multiple of the stride and
      its offset is 0. */
  lemma CursorBounds<T>(v: StrideView<T>, it: int, off: int, k: int)
    requires v.Valid() && v.Cursor(it, off, k)
    ensures 0 <= k <= v.Size()
    ensures v.caps.bidi && off == -1 ==> k == v.Size()
    ensures 0 <= it <= |v.base|
    ensures it == |v.base| <==> k == v.Size()
    ensures it == 0 <==> k == 0
    ensures k < v.Size() ==> it == k * v.stride && off == 0
  {
    var s, n := v.stride, v.Size();
    if n < k {
      assert (n + 1) * s == n * s + s;
      MulMono(n + 1, k, s);
    }
    if k < n {
      MulMono(k, n - 1, s);
      MulSub(n, 1, s);
    }
    if 0 < k {
      MulAtLeast(k, s);
      MulAtLeast(n, s);
    }
  }

  /** A cleaned cursor's position plus offset is its index times the stride,
      and the cleaned offset is less than one stride. */
  lemma CleanedCursor<T>(a: Adaptor<T>, it: int, off: int, k: int)
    requires a.rng.Valid() && a.rng.caps.bidi && a.rng.Cursor(it, off, k)
    ensures it + a.Cleaned(off) == k * a.rng.stride
    ensures 0 <= a.Cleaned(off) < a.rng.stride
  {
    CursorBounds(a.rng, it, off, k);
  }

  /** `next` from a cursor that is not at the end: its assertions hold,
      and the cursor moves to the next index. */
  lemma NextKeepsCursor<T>(v: StrideView<T>, it: int, off: int, k: int)
    requires v.Valid() && v.Cursor(it, off, k) && it != |v.base|
    ensures off == 0 && 0 <= it < |v.base| && k < v.Size()
    ensures var it' := Min(it + v.stride, |v.base|);
      v.Cursor(it', if v.caps.bidi then it + v.stride - it' else 0, k + 1)
  {
    CursorBounds(v, it, off, k);
    assert (k + 1) * v.stride == k * v.stride + v.stride;
  }

  /** `prev` from a cursor that is not at the beginning: the step stays
      inside the base (so the assertion after it holds), and the cursor
      moves to the previous index. */
  lemma PrevKeepsCursor<T>(a: Adaptor<T>, it: int, off: int, k: int)
    requires a.rng.Valid() && a.rng.caps.bidi && a.rng.Cursor(it, off, k) && it != 0
    ensures 0 < k && 0 <= it <= |a.rng.base|
    ensures a.rng.stride - it <= a.Cleaned(off) <= a.rng.stride
    ensures a.rng.Cursor(it - a.rng.stride + a.Cleaned(off), 0, k - 1)
  {
    var v := a.rng;
    CursorBounds(v, it, off, k);
    CleanedCursor(a, it, off, k);
    MulAtLeast(k, v.stride);
    assert (k - 1) * v.stride == k * v.stride - v.stride;
    MulMono(k - 1, v.Size() - 1, v.stride);
    MulSub(v.Size(), 1, v.stride);
  }

  /** `advance(it, n)` from a cursor, to an index that stays within the
      view: the jump goes in the direction of its bound, and the cursor
      lands on index `k + n`. */
  lemma AdvanceKeepsCursor<T>(a: Adaptor<T>, it: int, off: int, k: int, n: int)
    requires a.rng.Valid() && a.rng.caps.bidi && a.rng.Cursor(it, off, k)
    requires 0 <= k + n <= a.rng.Size()
    ensures 0 < n ==> 0 <= n * a.rng.stride + a.Cleaned(off)
    ensures n < 0 ==> n * a.rng.stride + a.Cleaned(off) <= 0
    ensures 0 < n ==> var t := it + n * a.rng.stride + a.Cleaned(off);
      a.rng.Cursor(Min(t, |a.rng.base|), t - Min(t, |a.rng.base|), k + n)
    ensures n < 0 ==> var t := it + n * a.rng.stride + a.Cleaned(off);
      a.rng.Cursor(Max(t, 0), t - Max(t, 0), k + n)
  {
    var v := a.rng;
    CleanedCursor(a, it, off, k);
    var t := it + n * v.stride + a.Cleaned(off);
    assert t == (k + n) * v.stride;
    MulMono(k + n, v.Size(), v.stride);
    if 0 < n {
      MulNonneg(n, v.stride);
    } else if n < 0 {
      MulNonneg(k + n, v.stride);
      MulMono(k + n, v.Size() - 1, v.stride);
      MulSub(v.Size(), 1, v.stride);
      MulAtLeast(-n, v.stride);
    }
  }

  /** `distance_to` between two cursors of one view: its divisibility
      assertion holds, and the result is the difference of their indices. */
  lemma DistanceOfCursors<T>(a: Adaptor<T>, b: Adaptor<T>,
                             here: int, offHere: int, i: int,
                             there: int, offThere: int, j: int)
    requires a.rng.Valid() && a.rng.caps.bidi && a.rng == b.rng
    requires a.rng.Cursor(here, offHere, i) && a.rng.Cursor(there, offThere, j)
    ensures ((there - here) + b.Cleaned(offThere) - a.Cleaned(offHere)) % a.rng.stride == 0
    ensures ((there - here) + b.Cleaned(offThere) - a.Cleaned(offHere)) / a.rng.stride == j - i
  {
    CleanedCursor(a, here, offHere, i);
    CleanedCursor(b, there, offThere, j);
    var raw := (there - here) + b.Cleaned(offThere) - a.Cleaned(offHere);
    MulSub(j, i, a.rng.stride);
    DivModUnique(raw, a.rng.stride, j - i, 0);
  }

  /** A base of length 7 with stride 3 ends 2 past the last stride and has
      3 elements; a base of length 6 with stride 3 ends exactly on a stride
      and has 2. */
  lemma OffsetExamples<T>(a: Adaptor<T>)
    requires a.rng.Valid() && a.rng.stride == 3
    ensures |a.rng.base| == 7 ==> a.CalcOffset() == 2 && a.rng.Size() == 3
    ensures |a.rng.base| == 6 ==> a.CalcOffset() == 0 && a.rng.Size() == 2
  {
  }
}
