/** The counted copy algorithm `copy_n`: copies `n` successive elements
    from a source position to a destination position and returns both
    advanced positions. A source position may carry an embedded count of the
    elements left ahead of it; the loop runs on the plain position and the
    count is restored afterwards from the original count and `n`. */
module CountedCopy {

  /** A source position: a plain index, or an index that carries how many
      elements are still ahead of it (a counted iterator). */
  datatype SrcPos = Plain(pos: nat) | Counted(pos: nat, count: int)

  /** One increment of a source position (`++it`): a counted position also
      has one element fewer ahead of it. */
  function Inc(p: SrcPos): (r: SrcPos)
    ensures r.pos == p.pos + 1
    ensures r.Counted? == p.Counted?
    ensures p.Counted? ==> r.count + r.pos == p.count + p.pos
  {
    match p
    case Plain(i) => Plain(i + 1)
    case Counted(i, c) => Counted(i + 1, c - 1)
  }

  /** `n` increments of a source position, one at a time. */
  function IncN(p: SrcPos, n: nat): SrcPos
    decreases n
  {
    if n == 0 then p else IncN(Inc(p), n - 1)
  }

  /** `uncounted(p)`: the plain position under a source position; restoring
      it with no elements consumed gives back `p`. */
  function Uncounted(p: SrcPos): (b: nat)
    ensures Recounted(p, b, 0) == p
  {
    p.pos
  }

  /** `recounted(orig, b, n)`: the source position of the same kind as `orig`
      that stands at the plain position `b`, `n` elements after `orig`. */
  function Recounted(orig: SrcPos, b: nat, n: int): (r: SrcPos)
    ensures r.pos == b && r.Counted? == orig.Counted?
    ensures orig.Counted? ==> r.count == orig.count - n
  {
    match orig
    case Plain(_) => Plain(b)
    case Counted(_, c) => Counted(b, c - n)
  }

  /** Restoring the count is the same as incrementing the counted position
      `n` times: strip, advance the plain position by `n`, restore. The
      result stands `n` further on, keeps its kind, has `n` fewer elements
      ahead of it, and so counts toward the same end. */
  lemma {:induction false} RecountedIsIncN(p: SrcPos, n: nat)
    ensures IncN(p, n) == Recounted(p, Uncounted(p) + n, n)
    ensures IncN(p, n).pos == p.pos + n && IncN(p, n).Counted? == p.Counted?
    ensures p.Counted? ==> IncN(p, n).count == p.count - n
    ensures p.Counted? ==> IncN(p, n).pos + IncN(p, n).count == p.pos + p.count
    decreases n
  {
    if n > 0 {
      RecountedIsIncN(Inc(p), n - 1);
    }
  }

  /** Copying leaves the copied values in place unless the destination is
      the source array and starts inside the copied range, after `begin`. */
  predicate ForwardSafe<T>(src: array<T>, begin: nat, n: nat, dst: array<T>, out: nat)
  {
    src != dst || out <= begin || begin + n <= out
  }

  /** `copy_n(begin, n, out)`: asserts `n >= 0`; copies `n` elements one by
      one, advancing both positions; returns the restored source position
      and the advanced output position. */
  method CopyN<T>(src: array<T>, begin: SrcPos, n: int, dst: array<T>, out: nat)
    returns (srcEnd: SrcPos, outEnd: nat)
    requires 0 <= n
    requires begin.pos + n <= src.Length && out + n <= dst.Length
    requires begin.Counted? ==> n <= begin.count
    modifies dst
    ensures srcEnd == IncN(begin, n) && outEnd == out + n
    ensures ForwardSafe(src, begin.pos, n, dst, out) ==>
              forall j :: out <= j < out + n ==> dst[j] == old(src[begin.pos + (j - out)])
    ensures forall j :: 0 <= j < dst.Length && !(out <= j < out + n) ==> dst[j] == old(dst[j])
    ensures src != dst ==> src[..] == old(src[..])
    ensures n == 0 ==> srcEnd == begin && dst[..] == old(dst[..])
  {
    var m := n;
    var norig := n;
    var b := Uncounted(begin);
    var o := out;
    while m != 0
      invariant 0 <= m <= norig
      invariant b == begin.pos + (norig - m) && o == out + (norig - m)
      invariant forall j :: 0 <= j < dst.Length && !(out <= j < o) ==> dst[j] == old(dst[j])
      invariant ForwardSafe(src, begin.pos, norig, dst, out) ==>
                  forall j :: out <= j < o ==> dst[j] == old(src[begin.pos + (j - out)])
      decreases m
    {
      dst[o] := src[b];
      b, o, m := b + 1, o + 1, m - 1;
    }
    srcEnd := Recounted(begin, b, norig);
    outEnd := o;
    RecountedIsIncN(begin, norig);
  }
}
