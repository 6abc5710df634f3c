# Stride view and counted copy, modelled in Dafny

This project models two pieces of the range-v3 library (Range-V3-VS2015):

- **The stride view** (`include/range/v3/view/stride.hpp`). A `stride_view` visits every `stride`-th element of a base range, starting with the first. Its cursor is a base iterator plus an *adaptor*. The adaptor holds a back-reference to the view and an *offset* cell. The offset records how far past the true end of the base the cursor logically sits. The offset is `-1` while unresolved. `clean()` resolves it once to `calc_offset()`.
- **The counted copy** (`include/range/v3/algorithm/copy_n.hpp`). `copy_n(begin, n, out)` copies `n` elements one by one and returns both advanced positions. A source position that carries an embedded count is stripped to a plain position for the loop (`uncounted`). Its count is restored afterwards from the original count and `n` (`recounted`).

Modelling choices:

- The base range is a `seq<T>`. A base iterator is an integer position in `[0, |base|]`. The iterator that `next`, `prev` and `advance` take by reference is an in-parameter paired with an out-parameter.
- `StrideView` is a class with constant fields: base, stride and the base's capabilities. The capabilities (`Caps`: bidirectional, sized, random-access, bounded) stand in for the compile-time concept checks. A class is used so that `distance_to`'s check `rng_ == that.rng_` is reference identity, as in the source.
- `Adaptor` is a class with a constant back-reference `rng` and a mutable `offset`. For a base that is not bidirectional, `offset_t` is the constant 0, and assignments to it have no effect. `Adaptor.Store` models that assignment.
- The source of `ranges::advance(it, n, bound)` is not modelled; it is defined here as `Positions.AdvanceBounded`: the position moves toward `bound` by at most `|n|` steps, and the result is `n` minus the distance moved.
- A `RANGES_ASSERT` on entry becomes a `requires`: `stride > 0`, a zero offset and `it != end` before `next`, `n >= 0`, the same view in `distance_to`, and divisibility in `distance_to`. The assertion after `prev` (offset 0) is proved, not assumed. `Prev` requires that the step back stays inside the base, and then ensures a zero offset.
- The lemmas define the abstract state of a cursor, `StrideView.Cursor(it, off, k)`: the cursor stands at logical index `k` in `[0, size()]`. They prove that every assertion holds for cursors in that state. They also prove that `next`, `prev` and `advance` move a cursor between such states. The traversal clients in `StrideTraversal` compose these facts and compare the result with `Strided`. `Strided` is an independent recursive definition of "every stride-th element".

- `advance(it, 0)` does not clean the offset (stride.hpp:142-143); only a real jump resolves it first.
- For a base that is not bidirectional, the end adaptor's offset is the constant 0 (stride.hpp:56-60, 96-97).

## Model

| member | source | states |
|---|---|---|
| `Stride.StrideView.constructor` | include/range/v3/view/stride.hpp:181-190 | a view can be built only with a positive stride; it keeps the base, stride and capabilities |
| `Stride.StrideView.Size` | include/range/v3/view/stride.hpp:196-200 | the size is ceil(len / stride), characterised as the r with len <= r*stride < len + stride |
| `Stride.StrideView.BeginAdaptor` | include/range/v3/view/stride.hpp:152-155 | the begin adaptor is fresh, refers to this view and has offset 0 |
| `Stride.StrideView.EndAdaptor` | include/range/v3/view/stride.hpp:156-178 | a bounded base gets a real end adaptor; any other base gets the stateless sentinel (null) |
| `Stride.Adaptor.CalcOffset` | include/range/v3/view/stride.hpp:86-90 | the offset lies in [0, stride); it is 0 exactly when stride divides len; len + offset is a multiple of stride and equals size()*stride |
| `Stride.Adaptor.Cleaned` | include/range/v3/view/stride.hpp:76-85 | cleaning replaces only the unresolved value -1, with a value in [0, stride) |
| `Stride.Adaptor.Begin` | include/range/v3/view/stride.hpp:93-95 | a begin adaptor starts with offset 0 |
| `Stride.Adaptor.End` | include/range/v3/view/stride.hpp:96-102 | an end adaptor starts unresolved (-1); on a bidirectional sized base it starts at calc_offset(); on a forward base it has the constant 0 |
| `Stride.Adaptor.Store` | include/range/v3/view/stride.hpp:56-60 | assigning the offset stores the value only when the offset is a real cell (bidirectional base) |
| `Stride.Adaptor.Clean` | include/range/v3/view/stride.hpp:76-85 | the new offset is the cleaned old offset: resolved once, never changed afterwards |
| `Stride.Adaptor.Next` | include/range/v3/view/stride.hpp:103-109 | given offset 0 and it != end, the position becomes min(it + stride, len) and the offset becomes the shortfall it + stride - newpos |
| `Stride.Adaptor.Prev` | include/range/v3/view/stride.hpp:115-121 | after cleaning, the position steps back by stride - offset; the asserted zero offset afterwards is proved |
| `Stride.Adaptor.DistanceTo` | include/range/v3/view/stride.hpp:127-134 | both cursors are cleaned; the result times stride is the offset-corrected distance in base positions |
| `Stride.Adaptor.Advance` | include/range/v3/view/stride.hpp:140-150 | n = 0 changes nothing; otherwise the position jumps by n*stride + offset, clamped at end (n > 0) or begin (n < 0), and the offset records the shortfall |
| `Stride.CleanResolvesOnce` | include/range/v3/view/stride.hpp:76-85 | a resolved offset is kept, an unresolved one becomes calc_offset(), and cleaning twice equals cleaning once |
| `Stride.EndpointsAreCursors` | include/range/v3/view/stride.hpp:93-102 | the begin adaptor stands at index 0; the end adaptor stands at index size(), whichever way its offset starts |
| `Stride.CursorBounds` | include/range/v3/view/stride.hpp:103-109 | a cursor's index is at most size(), and an unresolved offset occurs only at size(); it is at the base end exactly at index size() and at the base begin exactly at index 0; before the end, its offset is 0 and its position is k*stride |
| `Stride.CleanedCursor` | include/range/v3/view/stride.hpp:115-121 | a cleaned cursor's position plus offset is k*stride, and the offset is less than one stride |
| `Stride.NextKeepsCursor` | include/range/v3/view/stride.hpp:103-109 | from a cursor whose position is not the end, next's assertions hold and next moves the cursor from index k to k + 1 |
| `Stride.PrevKeepsCursor` | include/range/v3/view/stride.hpp:115-121 | from a cursor whose position is not the beginning, prev's step stays inside the base, so its assertion holds; it moves the cursor from index k to k - 1 |
| `Stride.AdvanceKeepsCursor` | include/range/v3/view/stride.hpp:140-150 | a jump to an index inside the view heads toward its bound and lands on index k + n |
| `Stride.DistanceOfCursors` | include/range/v3/view/stride.hpp:127-134 | for two cursors of one view, the divisibility assertion holds and the distance is the difference of their indices |
| `Stride.OffsetExamples` | include/range/v3/view/stride.hpp:86-90 | len 7, stride 3 gives offset 2 and size 3; len 6, stride 3 gives offset 0 and size 2 |
| `Positions.AdvanceBounded` | include/range/v3/view/stride.hpp:107-108 | ranges::advance moves toward the bound by at most abs(n) steps, stopping early only at the bound; it returns n minus the distance moved |
| `StrideTraversal.StridedLength` | include/range/v3/view/stride.hpp:196-200 | every stride-th element of s gives ceil(len(s) / stride) elements |
| `StrideTraversal.StridedAt` | include/range/v3/view/stride.hpp:103-109 | the i-th element visited is s[i*stride] |
| `StrideTraversal.SizeIsStridedLength` | include/range/v3/view/stride.hpp:196-200 | size() equals the number of elements the view visits |
| `StrideTraversal.Forward` | include/range/v3/view/stride.hpp:103-109 | next from begin until end visits exactly base[0], base[stride], ... and reaches end after size() steps |
| `StrideTraversal.Backward` | include/range/v3/view/stride.hpp:115-121 | prev from end until begin yields the forward traversal in reverse |
| `StrideTraversal.Nth` | include/range/v3/view/stride.hpp:140-150 | advance(begin, n) for n < size() reads base[n*stride] |
| `StrideTraversal.BeginEndDistance` | include/range/v3/view/stride.hpp:127-134 | distance(begin, end) == size(), whether the end offset was resolved eagerly or lazily |
| `StrideTraversal.StridedExamples` | include/range/v3/view/stride.hpp:103-109 | [0..6] with stride 3 gives [0, 3, 6]; [0..5] with stride 3 gives [0, 3] |
| `CountedCopy.Inc` | include/range/v3/algorithm/copy_n.hpp:59 | incrementing a counted position moves it by one and keeps position + count |
| `CountedCopy.Uncounted` | include/range/v3/algorithm/copy_n.hpp:58 | uncounted(begin) is the plain position under begin; recounting it with nothing consumed gives back begin |
| `CountedCopy.Recounted` | include/range/v3/algorithm/copy_n.hpp:61 | recounted(orig, b, n) stands at b, has the same kind as orig, and a counted one has count(orig) - n left |
| `CountedCopy.RecountedIsIncN` | include/range/v3/algorithm/copy_n.hpp:57-61 | recounting after n plain steps equals incrementing the original position n times; the result is n further on, of the same kind, with n fewer left, so position + count is unchanged |
| `CountedCopy.CopyN` | include/range/v3/algorithm/copy_n.hpp:53-62 | needs n >= 0; dst[out + i] == src[begin + i] for i < n; returns begin advanced n times and out + n; other destination elements and the source are unchanged; n = 0 writes nothing |

## Left out

- Atomics: the `std::atomic` offset and `compare_exchange_strong` in `clean()`. `Clean` is a sequential resolve-once update. Concurrent resolution is not modelled.
- The `view_adaptor` / `adaptor_base` engine is not modelled. This includes its default `equal` and `read`: the traversal clients compare base positions and read `base[it]` directly. The cardinality computation passed to it (stride.hpp:46) is also left out.
- The defaulted constructors `stride_view() = default` and `adaptor() = default`. They leave the object uninitialised.
- `view::stride_fn`, its pipe binding and its error-message overloads, and the `static_const` / `with_braced_init_args` singletons. They are glue with no behaviour of their own.
- `tagged_pair`: `CopyN` returns a plain pair of out-parameters.
- Iterator concepts in general. Positions are integer indices into sequences and arrays.
- Machine integer widths: `difference_type` and the unsigned `size_type` arithmetic in `size()` are unbounded integers. Overflow of `len + stride - 1` or of `n * stride` is not modelled.
- The source of `utility/box.hpp` is not modelled; `constant<T, 0>` is defined here as the value 0. The reading that `constant<T, 0>` ignores construction arguments and assignments is taken from its role in `offset_t`.
- Stride.StrideView.Size: defined for every view, whereas the source offers `size()` only when the base is sized.
- Stride.Adaptor.DistanceTo: requires a bidirectional base, because it calls `clean()`, which only exists then; the source gates it on sized iterator subtraction.
- CountedCopy.CopyN: states the copied values only when the destination is a different array, or does not start inside the copied range after `begin`. For an overlapping forward copy into the same array, the element-by-element result is not stated. The frame (nothing outside `[out, out + n)` changes) is stated in every case.
