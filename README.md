# List reducers and ThreadSanitizer definitions, modelled in Dafny

This project models two small pieces of compiler-rt.

**The Cilk list reducers** (`lib/cilk/include/cilk/reducer_list.h`) are `reducer_list_append` and
`reducer_list_prepend`, in module `ReducerList` (`reducer_list.dfy`).
- Each reducer owns one view, a `std::list`. It is modelled as a `StdList` object whose `elems`
  sequence the methods update in place. So a reference returned by `get_value` or `get_reference`, the copy made
  by the `initial_value` constructor, and the two list pointers passed to `Monoid::reduce` keep
  their identity, and aliasing between them can be reasoned about.
- `reduce` splices right into left: at `end()` for append, at `begin()` for prepend. The functions
  `AppendJoin` and `PrependJoin` describe the resulting contents.
- Both monoids are proved associative, with the empty list as a two-sided identity.

**The serial-order promise** (module `SerialOrder`, `serial_order.dfy`) is the reducers' headline
claim: lists built by parallel strands are merged so that the order is the one a single core would
produce.
- A computation is a tree. Its leaves are strands, each with the elements it pushes. Its inner
  nodes are `reduce` calls that merge an earlier part with a later one.
- The left-most strand works on the reducer's existing view. Every other strand starts from the
  identity.
- For every tree and every initial view, the merged result equals the view that one core builds
  by calling `push_back` (or `push_front`) for every element in serial order. So the grouping of
  the merges never matters.
- The methods `PushEachBack`, `PushEachFront`, `AppendTwoStrands` and `PrependTwoStrands` run the
  class model (`PushBack`, `PushFront`, the static `Reduce`) and prove that it produces what the
  merge-tree functions say.

**ThreadSanitizer's common definitions** (`lib/tsan/rtl/tsan_defs.h`) are in module `TsanDefs`
(`tsan_defs.dfy`): `min`, `max`, `RoundUp`, `MD5Hash::operator==` and the sizing constants.
- Machine integers are bounded subsets of `int`. Every width the C code depends on is written out:
  - the `u64` sum in `RoundUp` wraps modulo 2^64;
  - `~(align - 1)` is a 32-bit `int` that is sign-extended to `u64`;
  - the debug check `align & (align - 1) == 0` is evaluated on the `int`'s two's-complement bits.
- Bitwise AND on naturals is the recursive function `BitAnd`.
- The debug check is `RoundUp`'s precondition, together with `align != INT_MIN`. Without that
  second condition, `align - 1` would be a signed overflow.
- `MaskedSum` is the expression in the `RoundUp` body, as a release build evaluates it. It is
  built from `WrappedSum` (the `u64` sum) and `ComplementMask` (`~(align - 1)` as a `u64`).
- `RoundUp` is instantiated at `T = u64`.

## Model

| member | source | states |
|---|---|---|
| ReducerList.AppendJoin | lib/cilk/include/cilk/reducer_list.h:212-218 | splicing right at the end of left keeps every element of left at its index and puts right's elements after them in order; the length is the sum |
| ReducerList.PrependJoin | lib/cilk/include/cilk/reducer_list.h:407-413 | splicing right at the beginning of left puts right's elements first in order, then every element of left; the length is the sum |
| ReducerList.Identity | lib/cilk/include/cilk/reducer_list.h:150-155 | the identity of both monoids is the empty list |
| ReducerList.AppendJoinAssociative | lib/cilk/include/cilk/reducer_list.h:112-115 | the append merge is associative |
| ReducerList.AppendJoinIdentity | lib/cilk/include/cilk/reducer_list.h:112-115 | the empty list is a left and a right identity of the append merge |
| ReducerList.PrependJoinAssociative | lib/cilk/include/cilk/reducer_list.h:112-115 | the prepend merge is associative |
| ReducerList.PrependJoinIdentity | lib/cilk/include/cilk/reducer_list.h:112-115 | the empty list is a left and a right identity of the prepend merge |
| ReducerList.ReducerListAppend.constructor | lib/cilk/include/cilk/reducer_list.h:227-231 | the default constructor creates a new, empty view |
| ReducerList.ReducerListAppend.FromList | lib/cilk/include/cilk/reducer_list.h:241-245 | the `initial_value` constructor creates a new view, distinct from the argument, holding the same elements |
| ReducerList.ReducerListAppend.GetValue | lib/cilk/include/cilk/reducer_list.h:247-262 | returns a reference to the view object itself, the same list as `get_reference`, and modifies nothing |
| ReducerList.ReducerListAppend.GetReference | lib/cilk/include/cilk/reducer_list.h:275-296 | both overloads return the view object itself, not a copy |
| ReducerList.ReducerListAppend.SetValue | lib/cilk/include/cilk/reducer_list.h:306-318 | afterwards the view holds the old contents of `value` when `value` is another list, on both the empty-return path and the assignment path; it is empty when `value` is the view itself |
| ReducerList.ReducerListAppend.SetValueCorrected | lib/cilk/include/cilk/reducer_list.h:306-318 | afterwards the view holds the old contents of `value`, whether or not `value` is the view |
| ReducerList.ReducerListAppend.PushBack | lib/cilk/include/cilk/reducer_list.h:328-332 | the view becomes the old view followed by the element; the old elements keep their positions |
| ReducerList.ReducerListAppend.Reduce | lib/cilk/include/cilk/reducer_list.h:202-218 | left becomes AppendJoin of the old left and right; right becomes empty; the total element count is unchanged; the lists must be distinct |
| ReducerList.ReducerListPrepend.constructor | lib/cilk/include/cilk/reducer_list.h:418-422 | the default constructor creates a new, empty view |
| ReducerList.ReducerListPrepend.FromList | lib/cilk/include/cilk/reducer_list.h:429-433 | the `initial_value` constructor creates a new view holding the same elements as the argument |
| ReducerList.ReducerListPrepend.GetValue | lib/cilk/include/cilk/reducer_list.h:435-450 | returns a reference to the view object itself, the same list as `get_reference`, and modifies nothing |
| ReducerList.ReducerListPrepend.GetReference | lib/cilk/include/cilk/reducer_list.h:463-484 | both overloads return the view object itself |
| ReducerList.ReducerListPrepend.SetValue | lib/cilk/include/cilk/reducer_list.h:494-506 | as for append: the old contents of another list `value` on both paths, and empty when `value` is the view itself |
| ReducerList.ReducerListPrepend.SetValueCorrected | lib/cilk/include/cilk/reducer_list.h:494-506 | afterwards the view holds the old contents of `value` in every case |
| ReducerList.ReducerListPrepend.PushFront | lib/cilk/include/cilk/reducer_list.h:516-520 | the view becomes the element followed by the old view, which is otherwise unchanged |
| ReducerList.ReducerListPrepend.Reduce | lib/cilk/include/cilk/reducer_list.h:407-413 | left becomes PrependJoin of the old left and right, so right's elements come first; right becomes empty; the count is unchanged |
| ReducerList.AppendSetOwnValue | lib/cilk/include/cilk/reducer_list.h:306-318 | `r.set_value(r.get_value())` on a reducer holding [1] leaves it holding [] |
| ReducerList.AppendSetOwnValueCorrected | lib/cilk/include/cilk/reducer_list.h:306-318 | with the corrected `set_value`, the same call leaves [1] in place |
| ReducerList.PrependSetOwnValue | lib/cilk/include/cilk/reducer_list.h:494-506 | `r.set_value(r.get_value())` on a prepend reducer holding [1] leaves it holding [] |
| ReducerList.PrependSetOwnValueCorrected | lib/cilk/include/cilk/reducer_list.h:494-506 | with the corrected `set_value`, the same call leaves [1] in place |
| SerialOrder.PushAllBackAppends | lib/cilk/include/cilk/reducer_list.h:328-332 | `push_back` of each element of a sequence in turn appends the whole sequence in order |
| SerialOrder.PushAllFrontPrepends | lib/cilk/include/cilk/reducer_list.h:516-520 | `push_front` of each element in turn puts the sequence, reversed, in front of the view |
| SerialOrder.Reversed | lib/cilk/include/cilk/reducer_list.h:516-520 | the order repeated `push_front` leaves elements in, used to state PushAllFrontPrepends: same length, and position i holds the element at position length-1-i |
| SerialOrder.ReversedConcat | lib/cilk/include/cilk/reducer_list.h:516-520 | helper for PrependInSerialOrder: reversing a concatenation concatenates the reversed parts in swapped order |
| SerialOrder.AppendResult | lib/cilk/include/cilk/reducer_list.h:112-115 | the append reducer's view after strands push onto their views and the views are merged by `reduce` in a given grouping; it holds exactly as many elements as the initial view and all pushes together |
| SerialOrder.PrependResult | lib/cilk/include/cilk/reducer_list.h:112-115 | the same for the prepend reducer, with `push_front` and the prepend `reduce` |
| SerialOrder.AppendInSerialOrder | lib/cilk/include/cilk/reducer_list.h:112-115 | for any grouping of merges and any initial view, the append reducer ends with the serial single-core result |
| SerialOrder.PrependInSerialOrder | lib/cilk/include/cilk/reducer_list.h:112-115 | for any grouping of merges and any initial view, the prepend reducer ends with the serial single-core result |
| SerialOrder.GroupingIrrelevant | lib/cilk/include/cilk/reducer_list.h:112-115 | two computations that push the same elements in the same serial order end with equal views for both reducers |
| SerialOrder.PushEachBack | lib/cilk/include/cilk/reducer_list.h:328-332 | a strand calling the modelled `push_back` once per element of a sequence leaves the view as PushAllBack describes, so the class method and the serial-order functions agree |
| SerialOrder.PushEachFront | lib/cilk/include/cilk/reducer_list.h:516-520 | the same for the modelled `push_front` and PushAllFront |
| SerialOrder.AppendTwoStrands | lib/cilk/include/cilk/reducer_list.h:202-218 | two strands pushing onto the append reducer's view and onto a new view, then merged by the class's `Reduce`, end with the view the merge tree gives, which is v followed by both strands' elements in serial order |
| SerialOrder.PrependTwoStrands | lib/cilk/include/cilk/reducer_list.h:407-413 | the same on the prepend reducer: the merge tree's view, which is both strands' elements reversed in front of v |
| TsanDefs.Min | lib/tsan/rtl/tsan_defs.h:149-152 | the result is at most both arguments and is one of them |
| TsanDefs.Max | lib/tsan/rtl/tsan_defs.h:154-157 | the result is at least both arguments and is one of them |
| TsanDefs.MinMaxPartition | lib/tsan/rtl/tsan_defs.h:149-157 | min is at most max, together they sum to a + b, and both are symmetric in their arguments |
| TsanDefs.AlignmentAccepted | lib/tsan/rtl/tsan_defs.h:161 | the debug check, with `align - 1` not overflowing, holds exactly for 0 and for positive powers of two |
| TsanDefs.CheckedBitsIff | lib/tsan/rtl/tsan_defs.h:161 | `align & (align - 1)` on the two's-complement bits is 0, for align other than INT_MIN, exactly when align is 0 or a positive power of two |
| TsanDefs.RoundUp | lib/tsan/rtl/tsan_defs.h:159-163 | under the debug check: 0 when align is 0; when the sum does not wrap, a multiple of align, at least p and below p + align; when the `u64` sum wraps, 0, which is below p |
| TsanDefs.MaskedSum | lib/tsan/rtl/tsan_defs.h:162 | for a power-of-two align, the masked expression is the wrapped sum p + align - 1 rounded down to a multiple of align |
| TsanDefs.MaskRoundsSumDown | lib/tsan/rtl/tsan_defs.h:162 | for a power-of-two align, masking the wrapped sum with `~(align - 1)` rounds it down to a multiple of align |
| TsanDefs.RoundedSumBounds | lib/tsan/rtl/tsan_defs.h:162 | the wrapped sum rounded down lies in [p, p + align) and is a multiple of align when the sum fits, and is 0 (below p) when it wraps |
| TsanDefs.PowerOfTwoIff | lib/tsan/rtl/tsan_defs.h:161 | for x >= 1, `x & (x - 1)` is 0 exactly when x is a power of two |
| TsanDefs.MaskRoundsDown | lib/tsan/rtl/tsan_defs.h:162 | masking a `u64` with 2^64 - 2^k rounds it down to a multiple of 2^k |
| TsanDefs.ConvertComplement | lib/tsan/rtl/tsan_defs.h:162 | for positive align, `~(align - 1)` converted to `u64` is 2^64 - align |
| TsanDefs.RoundUpSmallest | lib/tsan/rtl/tsan_defs.h:159-163 | for every p, the result is at most every multiple of align that is at least p (with RoundUp's own ensures: the least such multiple when the sum does not wrap) |
| TsanDefs.RoundUpAligned | lib/tsan/rtl/tsan_defs.h:159-163 | an already aligned p is returned unchanged, with no overflow hypothesis |
| TsanDefs.AlignedFits | lib/tsan/rtl/tsan_defs.h:162 | a multiple of an accepted alignment never makes the sum wrap |
| TsanDefs.RoundUpIdempotent | lib/tsan/rtl/tsan_defs.h:159-163 | for every accepted alignment and every p, including align 0 and a wrapping sum, rounding up twice gives the same result as rounding up once |
| TsanDefs.PageSizeAccepted | lib/tsan/rtl/tsan_defs.h:31 | `kPageSize` is a power of two that the debug check of `RoundUp` accepts |
| TsanDefs.Equals | lib/tsan/rtl/tsan_defs.h:176-181 | comparing both 64-bit halves holds exactly when the two digests are equal |
| TsanDefs.EqualsIsEquivalence | lib/tsan/rtl/tsan_defs.h:176-181 | `operator==` is reflexive, symmetric and transitive |
| TsanDefs.ThreadIdConstants | lib/tsan/rtl/tsan_defs.h:32-34 | `kMaxTid == 1 << kTidBits == 32768`, and `kMaxTidInClock == 2 * kMaxTid == 2^(kTidBits+1)` |
| TsanDefs.ShadowCount | lib/tsan/rtl/tsan_defs.h:37-47 | the build succeeds exactly when `TSAN_SHADOW_COUNT` is undefined or one of 2, 4, 8; the count is then in {2, 4, 8}; a defined macro's value is used as is |
| TsanDefs.ShadowConstants | lib/tsan/rtl/tsan_defs.h:37-53 | the default `kShadowCnt` is 8 and equals `kShadowCell` and `kShadowSize`; every accepted count is a power of two no larger than the default |

## Left out

- `lib/cilk/runtime/signal_node.h` is not part of this model. It declares the worker sleep/wake signalling functions without bodies, and its subject is concurrency.
- The hyperobject runtime behind `reducer<Monoid>` and `imp_.view()` is not modelled: per-strand view lookup, steals and the scheduling of `reduce` calls. Each reducer holds one view. The serial-order lemmas take the grouping of merges as an arbitrary tree instead of deriving it from a schedule.
- The allocator parameter `_Ax`, and splice's iterator and node-identity guarantees, are not modelled. Only the resulting contents of the two lists are.
- The private, body-less copy constructor and copy assignment (the "not copyable" declarations at reducer_list.h:188-190 and 389-391) are not modelled, because they cannot be called.
- ReducerList.ReducerListAppend.GetValue / ReducerList.ReducerListPrepend.GetValue: the `const` of the returned `const std::list&` is not modelled. The result is the view object itself, and nothing stops a caller from assigning its `elems`, which the C++ type forbids.
- The `operator*` and `operator->` members return the reducer itself and have no behaviour of their own.
- The doc comment at reducer_list.h:403-405 says the prepend `reduce` appends right at the end of left. The code at line 412 splices at `begin()`. The model follows the code.
- `RoundUp` is modelled only at `T = u64`. For a narrower `T`, the final cast `(T)` would truncate the result, and that is not modelled.
- The `DCHECK_EQ` inside `RoundUp` is a precondition, not an abort. The `CHECK_IMPL`, `CHECK_*` and `DCHECK_*` macros (tsan_defs.h:61-95) and `build_consistency()` with its `build_consistency_*` markers (tsan_defs.h:124-147) are not modelled: they are abort and link-time build plumbing, not part of the arithmetic core. `CheckFailed`, the `internal_*` memory and string routines and `md5_hash` are declared without bodies, so there is nothing to model.
- `kClkBits` (tsan_defs.h:35) is modelled as a constant only. No operation in these files uses it, so no property is stated about it.
- `kCollectStats` (tsan_defs.h:55-59) only mirrors a build flag and is not modelled. Nor are the shadow memory, vector clocks and the rest of the race detector.
- TsanDefs.Min / TsanDefs.Max: the model is on mathematical integers, not on each integer type `T`. Both return b on a tie, but on integers that cannot be told apart from returning a.
- TsanDefs.ShadowCount: the `#error` text is modelled as a short message, not the full preprocessor diagnostic.

## Findings

| source | as written | input that shows it | evidently intended | confidence | as-written member | corrected member |
|---|---|---|---|---|---|---|
| lib/cilk/include/cilk/reducer_list.h:306-318 | `set_value` clears the view, then returns if `value` is empty, then assigns | `r.set_value(r.get_value())` on a reducer holding [1]: the clear empties `value` too, so the early return leaves the view empty | afterwards the view holds what `value` held, so passing the view itself leaves it unchanged | not executed; the model shows it for every list type | ReducerList.AppendSetOwnValue | ReducerList.AppendSetOwnValueCorrected |
| lib/cilk/include/cilk/reducer_list.h:494-506 | same code in `reducer_list_prepend::set_value` | `r.set_value(r.get_value())` on a prepend reducer holding [1] leaves it empty | the view holds what `value` held | not executed; the model shows it for every list type | ReducerList.PrependSetOwnValue | ReducerList.PrependSetOwnValueCorrected |
