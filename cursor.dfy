/** A `Range` or `Permutation` object: an immutable view plus the one field the source
    updates in place, the iteration cursor `index`. */
module Ranges {
  import opened Outcomes
  import opened Views

  class Range {
    const view: View
    var index: int

    ghost predicate Valid()
      reads this
    {
      view.Valid() && 0 <= index <= view.Len()
    }

    constructor (v: View)
      requires v.Valid()
      ensures Valid() && view == v && index == 0
    {
      view := v;
      index := 0;
    }

    /** `__iter__`: restart the traversal at position 0. */
    method Iter()
      requires view.Valid()
      modifies this
      ensures Valid() && index == 0
    {
      index := 0;
    }

    /** `__next__`: the end test takes `len(self)`, so an overlong range gives OverflowError;
        StopIteration exactly at the end; otherwise the element at the cursor, and the
        cursor advances only when the lookup succeeds. */
    method Next() returns (r: Result<int>)
      requires Valid()
      modifies this
      ensures Valid()
      ensures view.Len() > MaxSize ==> r == Err(OverflowError)
      ensures old(index) == view.Len() <= MaxSize ==> r == Err(StopIteration)
      ensures old(index) < view.Len() ==> r == view.At(old(index))
      ensures index == if r.Ok? then old(index) + 1 else old(index)
    {
      if view.Len() > MaxSize {
        return Err(OverflowError);
      }
      if index == view.Len() {
        return Err(StopIteration);
      }
      r := view.At(index);
      if r.Ok? {
        index := index + 1;
      }
    }

    /** Slicing an object: a fresh object over the sliced view, sharing size and resolver. */
    method Slice(a: Option<int>, b: Option<int>, c: Option<int>) returns (r: Result<Range>)
      requires view.Valid()
      ensures r.Ok? <==> view.Slice(a, b, c).Ok?
      ensures r.Err? ==> r.error == view.Slice(a, b, c).error
      ensures r.Ok? ==> fresh(r.value) && r.value.Valid() && r.value.view == view.Slice(a, b, c).value
    {
      var w := view.Slice(a, b, c);
      if w.Err? {
        return Err(w.error);
      }
      var child := new Range(w.value);
      return Ok(child);
    }

    /** `list(r)`: `__iter__`, then `__next__` until StopIteration. The values are the
        elements at positions 0, ..., len - 1 in order; an overlong range fails with
        OverflowError, and a non-empty window over size 0 with a division by zero at its
        first element. */
    method Collect() returns (r: Result<seq<int>>)
      requires view.Valid()
      modifies this
      ensures Valid()
      ensures r.Err? ==> index == 0
      ensures view.Len() > MaxSize ==> r == Err(OverflowError)
      ensures view.Len() <= MaxSize && view.size == 0 && view.Len() > 0 ==> r == Err(ZeroDivisionError)
      ensures view.Len() <= MaxSize && (view.size != 0 || view.Len() == 0) ==>
        r == Ok(Elements(view)) && index == view.Len()
    {
      Iter();
      var xs: seq<int> := [];
      while true
        invariant Valid() && |xs| == index
        invariant index > 0 ==> view.Len() <= MaxSize && view.size != 0
        invariant view.size != 0 ==> forall k :: 0 <= k < index ==> xs[k] == view.Lookup(k)
        decreases view.Len() - index
      {
        var s := Next();
        if s.Err? {
          if s.error == StopIteration {
            assert index == view.Len();
            assert xs == Elements(view);
            return Ok(xs);
          }
          return Err(s.error);
        }
        xs := xs + [s.value];
      }
    }
  }
}
