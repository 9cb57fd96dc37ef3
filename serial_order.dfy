/** The ordering promise of the list reducers: lists accumulated by parallel strands are
    merged so that the result is the list a single core would have built running the strands
    one after the other. A parallel computation is described by the grouping in which the
    strands' views are merged: a leaf is a strand with the elements it pushes, in order, and
    an inner node merges the view of its left part (the earlier strands) with that of its
    right part (the later ones) by the monoid's `reduce`. The left-most strand works on the
    reducer's existing view; every other strand starts from the monoid's identity. */
module SerialOrder {
  import opened ReducerList

  datatype Merge<T> = Strand(pushes: seq<T>) | Reduce(left: Merge<T>, right: Merge<T>)

  /** Every element the computation pushes, in serial (left-to-right) order. */
  function Pushes<T>(m: Merge<T>): seq<T> {
    match m
    case Strand(es) => es
    case Reduce(l, r) => Pushes(l) + Pushes(r)
  }

  /** The view after a strand calls `push_back` with each element of es in turn. */
  function PushAllBack<T>(v: seq<T>, es: seq<T>): seq<T>
    decreases |es|
  {
    if |es| == 0 then v else PushAllBack(v + [es[0]], es[1..])
  }

  /** The view after a strand calls `push_front` with each element of es in turn. */
  function PushAllFront<T>(v: seq<T>, es: seq<T>): seq<T>
    decreases |es|
  {
    if |es| == 0 then v else PushAllFront([es[0]] + v, es[1..])
  }

  /** The elements of s in reverse order: the order in which repeated `push_front` leaves them. */
  function Reversed<T>(s: seq<T>): (r: seq<T>)
    ensures |r| == |s|
    ensures forall i :: 0 <= i < |s| ==> r[i] == s[|s| - 1 - i]
  {
    if |s| == 0 then [] else Reversed(s[1..]) + [s[0]]
  }

  /** Pushing at the back one element after another appends them in their order. */
  lemma {:induction false} PushAllBackAppends<T>(v: seq<T>, es: seq<T>)
    ensures PushAllBack(v, es) == v + es
    decreases |es|
  {
    if |es| > 0 {
      PushAllBackAppends(v + [es[0]], es[1..]);
      assert v + [es[0]] + es[1..] == v + es;
    }
  }

  /** Pushing at the front one element after another puts them before v, last one first. */
  lemma {:induction false} PushAllFrontPrepends<T>(v: seq<T>, es: seq<T>)
    ensures PushAllFront(v, es) == Reversed(es) + v
    decreases |es|
  {
    if |es| > 0 {
      PushAllFrontPrepends([es[0]] + v, es[1..]);
      assert Reversed(es) == Reversed(es[1..]) + [es[0]];
    }
  }

  lemma {:induction false} ReversedConcat<T>(a: seq<T>, b: seq<T>)
    ensures Reversed(a + b) == Reversed(b) + Reversed(a)
  {
    var r, s := Reversed(a + b), Reversed(b) + Reversed(a);
    assert |r| == |s|;
    forall i | 0 <= i < |r|
      ensures r[i] == s[i]
    {
      if i < |b| {
        assert r[i] == (a + b)[|a| + |b| - 1 - i] == b[|b| - 1 - i];
      } else {
        assert r[i] == (a + b)[|a| + |b| - 1 - i] == a[|a| - 1 - (i - |b|)];
      }
    }
  }

  /** The append reducer's view after the computation, the left-most strand starting from v. */
  function AppendResult<T>(m: Merge<T>, v: seq<T>): (r: seq<T>)
    ensures |r| == |v| + |Pushes(m)|
  {
    match m
    case Strand(es) => PushAllBackAppends(v, es); PushAllBack(v, es)
    case Reduce(l, r) => AppendJoin(AppendResult(l, v), AppendResult(r, Identity()))
  }

  /** The prepend reducer's view after the computation, the left-most strand starting from v. */
  function PrependResult<T>(m: Merge<T>, v: seq<T>): (r: seq<T>)
    ensures |r| == |v| + |Pushes(m)|
  {
    match m
    case Strand(es) => PushAllFrontPrepends(v, es); PushAllFront(v, es)
    case Reduce(l, r) => PrependJoin(PrependResult(l, v), PrependResult(r, Identity()))
  }

  /** Whatever the grouping of the merges, the append reducer ends with the view a single core
      builds by pushing every element at the back in serial order. */
  lemma {:induction false} AppendInSerialOrder<T>(m: Merge<T>, v: seq<T>)
    ensures AppendResult(m, v) == PushAllBack(v, Pushes(m))
  {
    match m
    case Strand(es) =>
    case Reduce(l, r) =>
      AppendInSerialOrder(l, v);
      AppendInSerialOrder(r, Identity());
      PushAllBackAppends(v, Pushes(l));
      PushAllBackAppends(Identity(), Pushes(r));
      PushAllBackAppends(v, Pushes(m));
  }

  /** Whatever the grouping of the merges, the prepend reducer ends with the view a single
      core builds by pushing every element at the front in serial order. */
  lemma {:induction false} PrependInSerialOrder<T>(m: Merge<T>, v: seq<T>)
    ensures PrependResult(m, v) == PushAllFront(v, Pushes(m))
  {
    match m
    case Strand(es) =>
    case Reduce(l, r) =>
      PrependInSerialOrder(l, v);
      PrependInSerialOrder(r, Identity());
      PushAllFrontPrepends(v, Pushes(l));
      PushAllFrontPrepends(Identity(), Pushes(r));
      PushAllFrontPrepends(v, Pushes(m));
      ReversedConcat(Pushes(l), Pushes(r));
  }

  /** Two computations that push the same elements in the same serial order end with the same
      view, however differently their strands were grouped and merged. */
  lemma GroupingIrrelevant<T>(m1: Merge<T>, m2: Merge<T>, v: seq<T>)
    requires Pushes(m1) == Pushes(m2)
    ensures AppendResult(m1, v) == AppendResult(m2, v)
    ensures PrependResult(m1, v) == PrependResult(m2, v)
  {
    AppendInSerialOrder(m1, v);
    AppendInSerialOrder(m2, v);
    PrependInSerialOrder(m1, v);
    PrependInSerialOrder(m2, v);
  }

  // ---------------------------------------------------------------------------------------
  // The reducer classes against the merge-tree model
  // ---------------------------------------------------------------------------------------

  /** A strand calling `push_back` with each element of es in turn on an append reducer. */
  method PushEachBack<T>(red: ReducerListAppend<T>, es: seq<T>)
    modifies red.view
    ensures red.view.elems == PushAllBack(old(red.view.elems), es)
  {
    var i := 0;
    while i < |es|
      invariant 0 <= i <= |es|
      invariant red.view.elems == old(red.view.elems) + es[..i]
    {
      red.PushBack(es[i]);
      assert es[..i + 1] == es[..i] + [es[i]];
      i := i + 1;
    }
    assert es[..|es|] == es;
    PushAllBackAppends(old(red.view.elems), es);
  }

  /** A strand calling `push_front` with each element of es in turn on a prepend reducer. */
  method PushEachFront<T>(red: ReducerListPrepend<T>, es: seq<T>)
    modifies red.view
    ensures red.view.elems == PushAllFront(old(red.view.elems), es)
  {
    var i := 0;
    while i < |es|
      invariant 0 <= i <= |es|
      invariant red.view.elems == Reversed(es[..i]) + old(red.view.elems)
    {
      red.PushFront(es[i]);
      assert es[..i + 1] == es[..i] + [es[i]];
      ReversedConcat(es[..i], [es[i]]);
      i := i + 1;
    }
    assert es[..|es|] == es;
    PushAllFrontPrepends(old(red.view.elems), es);
  }

  /** Two strands on an append reducer whose list starts as v: the first pushes es1 onto the
      reducer's view, the second pushes es2 onto a new view, and the monoid's `reduce` merges
      the second view into the first. The reducer's view ends as the merge tree
      `Reduce(Strand(es1), Strand(es2))` describes, which is the serial single-core result. */
  method AppendTwoStrands<T>(v: seq<T>, es1: seq<T>, es2: seq<T>) returns (r: seq<T>)
    ensures r == AppendResult(Reduce(Strand(es1), Strand(es2)), v)
    ensures r == PushAllBack(v, es1 + es2) && r == v + es1 + es2
  {
    var initial := new StdList(v);
    var first := new ReducerListAppend.FromList(initial);
    var second := new ReducerListAppend<T>();
    PushEachBack(first, es1);
    PushEachBack(second, es2);
    ReducerListAppend.Reduce(first.view, second.view);
    r := first.view.elems;
    AppendInSerialOrder(Reduce(Strand(es1), Strand(es2)), v);
    PushAllBackAppends(v, es1 + es2);
  }

  /** The same two strands on a prepend reducer: the view ends as the merge tree describes,
      which is the serial result of pushing es1 and then es2 at the front. */
  method PrependTwoStrands<T>(v: seq<T>, es1: seq<T>, es2: seq<T>) returns (r: seq<T>)
    ensures r == PrependResult(Reduce(Strand(es1), Strand(es2)), v)
    ensures r == PushAllFront(v, es1 + es2) && r == Reversed(es1 + es2) + v
  {
    var initial := new StdList(v);
    var first := new ReducerListPrepend.FromList(initial);
    var second := new ReducerListPrepend<T>();
    PushEachFront(first, es1);
    PushEachFront(second, es2);
    ReducerListPrepend.Reduce(first.view, second.view);
    r := first.view.elems;
    PrependInSerialOrder(Reduce(Strand(es1), Strand(es2)), v);
    PushAllFrontPrepends(v, es1 + es2);
  }
}
