/** The two list reducers of the Cilk headers (lib/cilk/include/cilk/reducer_list.h):
    `reducer_list_append`, whose strands add elements at the end of the list, and
    `reducer_list_prepend`, whose strands add them at the front. Each reducer owns one list
    view; the monoid's `reduce` merges the view of a later strand into that of an earlier one
    by splicing. A `std::list` is modelled as an object holding the sequence of its elements,
    so that references to the view, copies of it and the two list pointers of `reduce` keep
    their identity. */
module ReducerList {

  /** A `std::list<T>`: an object whose contents are updated in place. */
  class StdList<T> {
    var elems: seq<T>

    constructor(elems: seq<T>)
      ensures this.elems == elems
    {
      this.elems := elems;
    }
  }

  // ---------------------------------------------------------------------------------------
  // The two monoid operations, on the contents of the lists
  // ---------------------------------------------------------------------------------------

  /** The identity of both monoids: the view a new strand starts from is an empty list. */
  function Identity<T>(): (r: seq<T>)
    ensures |r| == 0
  {
    []
  }

  /** The contents of `left` after the append monoid's `reduce(left, right)`: every element
      of left in place, followed by the elements of right in their order. */
  function AppendJoin<T>(left: seq<T>, right: seq<T>): (r: seq<T>)
    ensures |r| == |left| + |right|
    ensures forall i :: 0 <= i < |left| ==> r[i] == left[i]
    ensures forall j :: 0 <= j < |right| ==> r[|left| + j] == right[j]
  {
    left + right
  }

  /** The contents of `left` after the prepend monoid's `reduce(left, right)`: the elements of
      right in their order, followed by every element of left. */
  function PrependJoin<T>(left: seq<T>, right: seq<T>): (r: seq<T>)
    ensures |r| == |left| + |right|
    ensures forall j :: 0 <= j < |right| ==> r[j] == right[j]
    ensures forall i :: 0 <= i < |left| ==> r[|right| + i] == left[i]
  {
    right + left
  }

  /** Merging is associative: ((a, b), c) and (a, (b, c)) give the same list. */
  lemma AppendJoinAssociative<T>(a: seq<T>, b: seq<T>, c: seq<T>)
    ensures AppendJoin(AppendJoin(a, b), c) == AppendJoin(a, AppendJoin(b, c))
  {
    assert AppendJoin(AppendJoin(a, b), c) == (a + b) + c;
    assert AppendJoin(a, AppendJoin(b, c)) == a + (b + c);
  }

  /** The empty list is a two-sided identity of the append monoid. */
  lemma AppendJoinIdentity<T>(a: seq<T>)
    ensures AppendJoin(Identity(), a) == a && AppendJoin(a, Identity()) == a
  {
  }

  lemma PrependJoinAssociative<T>(a: seq<T>, b: seq<T>, c: seq<T>)
    ensures PrependJoin(PrependJoin(a, b), c) == PrependJoin(a, PrependJoin(b, c))
  {
    assert PrependJoin(PrependJoin(a, b), c) == c + (b + a);
    assert PrependJoin(a, PrependJoin(b, c)) == (c + b) + a;
  }

  /** The empty list is a two-sided identity of the prepend monoid. */
  lemma PrependJoinIdentity<T>(a: seq<T>)
    ensures PrependJoin(Identity(), a) == a && PrependJoin(a, Identity()) == a
  {
  }

  // ---------------------------------------------------------------------------------------
  // reducer_list_append
  // ---------------------------------------------------------------------------------------

  /** `reducer_list_append<T>`: a reducer whose view is a list grown at its end. */
  class ReducerListAppend<T> {
    /** The view held by `imp_`, the one `get_value` and `get_reference` give access to. */
    const view: StdList<T>

    /** The default constructor: the view is a new empty list. */
    constructor()
      ensures fresh(view) && view.elems == []
    {
      view := new StdList([]);
    }

    /** The constructor from `initial_value`: the view is a new copy of the given list, so
        later changes to either one do not affect the other. */
    constructor FromList(initialValue: StdList<T>)
      ensures fresh(view) && view.elems == initialValue.elems
    {
      view := new StdList(initialValue.elems);
    }

    /** `get_value()`: a reference to the view itself (the same list as
        `get_reference`); reading it changes nothing, and later changes to the view are seen
        through it. */
    method GetValue() returns (r: StdList<T>)
      ensures r == view && r.elems == view.elems
    {
      r := view;
    }

    /** `get_reference()`, both overloads: the view list itself, so that changes made through
        the reference are changes to the reducer's view. */
    method GetReference() returns (r: StdList<T>)
      ensures r == view
    {
      r := view;
    }

    /** `set_value(value)` as written: the view is cleared first and then, unless `value` is
        now empty, assigned a copy of `value`. When `value` is the view itself (for instance
        the list `get_value` or `get_reference` returned), the clear has already emptied it,
        so the view ends up empty rather than unchanged. */
    method SetValue(value: StdList<T>)
      modifies view
      ensures view.elems == if value == view then [] else old(value.elems)
    {
      view.elems := [];
      if |value.elems| == 0 {
        return;
      }
      view.elems := value.elems;
    }

    /** `set_value(value)` as evidently intended: afterwards the view holds what `value` held,
        whether or not `value` is the view itself. */
    method SetValueCorrected(value: StdList<T>)
      modifies view
      ensures view.elems == old(value.elems)
    {
      view.elems := value.elems;
    }

    /** `push_back(element)`: the element is added after the last one; the elements already
        in the view keep their places. */
    method PushBack(element: T)
      modifies view
      ensures view.elems == old(view.elems) + [element]
      ensures |view.elems| == |old(view.elems)| + 1 && view.elems[..|old(view.elems)|] == old(view.elems)
    {
      view.elems := view.elems + [element];
    }

    /** `Monoid::reduce(left, right)`: `left->splice(left->end(), *right)` moves every element
        of right, in order, to the end of left and leaves right empty. A list cannot be
        spliced into itself, so the two pointers are distinct. */
    static method Reduce(left: StdList<T>, right: StdList<T>)
      requires left != right
      modifies left, right
      ensures left.elems == AppendJoin(old(left.elems), old(right.elems))
      ensures right.elems == []
      ensures |left.elems| + |right.elems| == old(|left.elems| + |right.elems|)
    {
      left.elems := left.elems + right.elems;
      right.elems := [];
    }
  }

  // ---------------------------------------------------------------------------------------
  // reducer_list_prepend
  // ---------------------------------------------------------------------------------------

  /** `reducer_list_prepend<T>`: a reducer whose view is a list grown at its front. */
  class ReducerListPrepend<T> {
    /** The view held by `imp_`, the one `get_value` and `get_reference` give access to. */
    const view: StdList<T>

    /** The default constructor: the view is a new empty list. */
    constructor()
      ensures fresh(view) && view.elems == []
    {
      view := new StdList([]);
    }

    /** The constructor from `initial_value`: the view is a new copy of the given list. */
    constructor FromList(initialValue: StdList<T>)
      ensures fresh(view) && view.elems == initialValue.elems
    {
      view := new StdList(initialValue.elems);
    }

    /** `get_value()`: a reference to the view itself (the same list as
        `get_reference`); reading it changes nothing, and later changes to the view are seen
        through it. */
    method GetValue() returns (r: StdList<T>)
      ensures r == view && r.elems == view.elems
    {
      r := view;
    }

    /** `get_reference()`, both overloads: the view list itself. */
    method GetReference() returns (r: StdList<T>)
      ensures r == view
    {
      r := view;
    }

    /** `set_value(value)` as written: clear, then assign a copy unless `value` is now empty;
        the view ends up empty when `value` is the view itself. */
    method SetValue(value: StdList<T>)
      modifies view
      ensures view.elems == if value == view then [] else old(value.elems)
    {
      view.elems := [];
      if |value.elems| == 0 {
        return;
      }
      view.elems := value.elems;
    }

    /** `set_value(value)` as evidently intended: afterwards the view holds what `value` held. */
    method SetValueCorrected(value: StdList<T>)
      modifies view
      ensures view.elems == old(value.elems)
    {
      view.elems := value.elems;
    }

    /** `push_front(element)`: the element is added before the first one; the elements
        already in the view keep their order behind it. */
    method PushFront(element: T)
      modifies view
      ensures view.elems == [element] + old(view.elems)
      ensures |view.elems| == |old(view.elems)| + 1 && view.elems[1..] == old(view.elems)
    {
      view.elems := [element] + view.elems;
    }

    /** `Monoid::reduce(left, right)`: `left->splice(left->begin(), *right)` moves every
        element of right, in order, to the front of left and leaves right empty. */
    static method Reduce(left: StdList<T>, right: StdList<T>)
      requires left != right
      modifies left, right
      ensures left.elems == PrependJoin(old(left.elems), old(right.elems))
      ensures right.elems == []
      ensures |left.elems| + |right.elems| == old(|left.elems| + |right.elems|)
    {
      left.elems := right.elems + left.elems;
      right.elems := [];
    }
  }

  // ---------------------------------------------------------------------------------------
  // set_value on the reducer's own view
  // ---------------------------------------------------------------------------------------

  /** `r.set_value(r.get_value())` on an append reducer holding [1] empties it. */
  method AppendSetOwnValue() returns (before: seq<int>, after: seq<int>)
    ensures before == [1] && after == []
  {
    var r := new ReducerListAppend<int>();
    r.PushBack(1);
    var current := r.GetValue();
    before := current.elems;
    r.SetValue(current);
    after := current.elems;
  }

  /** With the corrected `set_value`, passing the view to itself leaves it unchanged. */
  method AppendSetOwnValueCorrected() returns (before: seq<int>, after: seq<int>)
    ensures before == [1] && after == [1]
  {
    var r := new ReducerListAppend<int>();
    r.PushBack(1);
    var current := r.GetValue();
    before := current.elems;
    r.SetValueCorrected(current);
    after := current.elems;
  }

  /** `r.set_value(r.get_value())` on a prepend reducer holding [1] empties it. */
  method PrependSetOwnValue() returns (before: seq<int>, after: seq<int>)
    ensures before == [1] && after == []
  {
    var r := new ReducerListPrepend<int>();
    r.PushFront(1);
    var current := r.GetValue();
    before := current.elems;
    r.SetValue(current);
    after := current.elems;
  }

  /** With the corrected `set_value`, passing the view to itself leaves it unchanged. */
  method PrependSetOwnValueCorrected() returns (before: seq<int>, after: seq<int>)
    ensures before == [1] && after == [1]
  {
    var r := new ReducerListPrepend<int>();
    r.PushFront(1);
    var current := r.GetValue();
    before := current.elems;
    r.SetValueCorrected(current);
    after := current.elems;
  }
}
