/** What a client of the stride view observes when it drives the view's
    cursors: forward traversal from begin to end, backward traversal from
    end to begin, a random-access jump, and the distance from begin to end.
    Each is proved against `Strided`, a definition of "every stride-th
    element" that does not use the cursor arithmetic. */
module StrideTraversal {
  import opened Positions
  import opened Stride

  /** Every `stride`-th element of `s`: its first element, then the same
      for what is left one stride further on. */
  function Strided<T>(s: seq<T>, stride: int): seq<T>
    requires 0 < stride
    decreases |s|
  {
    if |s| == 0 then [] else [s[0]] + Strided(s[Min(stride, |s|)..], stride)
  }

  /** `Strided(s)` has ceil(|s| / stride) elements. */
  lemma {:induction false} StridedLength<T>(s: seq<T>, stride: int)
    requires 0 < stride
    ensures |s| <= |Strided(s, stride)| * stride < |s| + stride
  {
    if |s| > 0 {
      var rest := s[Min(stride, |s|)..];
      StridedLength(rest, stride);
      var m := |Strided(rest, stride)|;
      assert |Strided(s, stride)| == m + 1;
      assert (m + 1) * stride == m * stride + stride;
      if |s| < stride {
        assert rest == [];
        CeilUnique(0, stride, m, 0);
      }
    }
  }

  /** The i-th element of `Strided(s)` is `s[i * stride]`. */
  lemma {:induction false} StridedAt<T>(s: seq<T>, stride: int, i: int)
    requires 0 < stride && 0 <= i < |Strided(s, stride)|
    ensures i * stride < |s| && Strided(s, stride)[i] == s[i * stride]
  {
    if 0 < i {
      var rest := s[Min(stride, |s|)..];
      StridedAt(rest, stride, i - 1);
      assert (i - 1) * stride + stride == i * stride;
    }
  }

  /** `size()` is the number of elements the view visits. */
  lemma SizeIsStridedLength<T>(v: StrideView<T>)
    requires v.Valid()
    ensures v.Size() == |Strided(v.base, v.stride)|
  {
    StridedLength(v.base, v.stride);
    CeilUnique(|v.base|, v.stride, v.Size(), |Strided(v.base, v.stride)|);
  }

  /** Forward traversal: from the begin cursor, `next` until the position
      equals the end of the base, reading each element on the way. It visits
      exactly positions 0, stride, 2 * stride, ... and reaches the end after
      `size()` steps. */
  method Forward<T>(v: StrideView<T>) returns (xs: seq<T>)
    requires v.Valid()
    ensures xs == Strided(v.base, v.stride)
  {
    var a := v.BeginAdaptor();
    var it := 0;
    ghost var k := 0;
    xs := [];
    while it != |v.base|
      invariant a.rng == v && a.Valid()
      invariant v.Cursor(it, a.offset, k)
      invariant |xs| == k
      invariant forall i :: 0 <= i < k ==> i * v.stride < |v.base| && xs[i] == v.base[i * v.stride]
      decreases v.Size() - k
    {
      CursorBounds(v, it, a.offset, k);
      NextKeepsCursor(v, it, a.offset, k);
      xs := xs + [v.base[it]];
      it := a.Next(it);
      k := k + 1;
    }
    CursorBounds(v, it, a.offset, k);
    SizeIsStridedLength(v);
    forall i | 0 <= i < |xs|
      ensures xs[i] == Strided(v.base, v.stride)[i]
    {
      StridedAt(v.base, v.stride, i);
    }
  }

  /** Backward traversal of a bidirectional, bounded base: from the end
      cursor, `prev` until the position equals the beginning, reading each
      element reached. It yields the forward traversal reversed. */
  method Backward<T>(v: StrideView<T>) returns (ys: seq<T>)
    requires v.Valid() && v.caps.bidi && v.caps.bounded
    ensures |ys| == |Strided(v.base, v.stride)|
    ensures forall i :: 0 <= i < |ys| ==> ys[i] == Strided(v.base, v.stride)[|ys| - 1 - i]
  {
    ghost var forward := Strided(v.base, v.stride);
    SizeIsStridedLength(v);
    var a := v.EndAdaptor();
    var it := |v.base|;
    ghost var n := v.Size();
    ghost var k := n;
    EndpointsAreCursors(v, a.offset);
    ys := [];
    while it != 0
      invariant a.rng == v && a.Valid()
      invariant v.Cursor(it, a.offset, k)
      invariant |ys| == n - k
      invariant forall i :: 0 <= i < |ys| ==> ys[i] == forward[n - 1 - i]
      decreases k
    {
      CursorBounds(v, it, a.offset, k);
      PrevKeepsCursor(a, it, a.offset, k);
      it := a.Prev(it);
      k := k - 1;
      CursorBounds(v, it, a.offset, k);
      StridedAt(v.base, v.stride, k);
      ys := ys + [v.base[it]];
    }
    CursorBounds(v, it, a.offset, k);
  }

  /** Random access on a random-access base: `advance(begin, n)` followed
      by a read yields the n-th element the view visits. */
  method Nth<T>(v: StrideView<T>, n: int) returns (x: T)
    requires v.Valid() && v.caps.bidi && v.caps.randomAccess
    requires 0 <= n < v.Size()
    ensures n * v.stride < |v.base| && x == v.base[n * v.stride]
  {
    var a := v.BeginAdaptor();
    AdvanceKeepsCursor(a, 0, 0, 0, n);
    var it := a.Advance(0, n);
    CursorBounds(v, it, a.offset, n);
    x := v.base[it];
  }

  /** `distance(begin, end)` of a bidirectional, bounded view is `size()`,
      whether or not the end offset was resolved eagerly. */
  method BeginEndDistance<T>(v: StrideView<T>) returns (d: int)
    requires v.Valid() && v.caps.bidi && v.caps.bounded
    ensures d == v.Size()
  {
    var b := v.BeginAdaptor();
    var e := v.EndAdaptor();
    EndpointsAreCursors(v, e.offset);
    DistanceOfCursors(b, e, 0, 0, 0, |v.base|, e.offset, v.Size());
    d := b.DistanceTo(0, |v.base|, e);
    DivModUnique(d * v.stride, v.stride, d, 0);
  }

  /** The view of [0, 1, ..., 6] with stride 3 is [0, 3, 6]; that of
      [0, 1, ..., 5] is [0, 3]. */
  lemma StridedExamples()
    ensures Strided([0, 1, 2, 3, 4, 5, 6], 3) == [0, 3, 6]
    ensures Strided([0, 1, 2, 3, 4, 5], 3) == [0, 3]
  {
    assert Strided([6], 3) == [6] by {
      assert [6][Min(3, 1)..] == [];
    }
    assert Strided([3, 4, 5, 6], 3) == [3, 6] by {
      assert [3, 4, 5, 6][Min(3, 4)..] == [6];
    }
    assert [0, 1, 2, 3, 4, 5, 6][Min(3, 7)..] == [3, 4, 5, 6];
    assert Strided([3, 4, 5], 3) == [3] by {
      assert [3, 4, 5][Min(3, 3)..] == [];
    }
    assert [0, 1, 2, 3, 4, 5][Min(3, 6)..] == [3, 4, 5];
  }
}
