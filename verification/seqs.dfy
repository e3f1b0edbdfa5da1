/** Sequences built element by element: every list the scripts assemble with
    a `for` loop and `append`/`extend` is a flat map over its input. */
module Seqs {
  import opened Wrappers

  /** The position of the first element that satisfies `p`, if any. */
  function FirstIndex<T>(xs: seq<T>, p: T -> bool): (r: Option<nat>)
    ensures r.Some? ==> r.value < |xs| && p(xs[r.value])
    ensures r.Some? ==> forall j :: 0 <= j < r.value ==> !p(xs[j])
    ensures r.None? <==> forall j :: 0 <= j < |xs| ==> !p(xs[j])
  {
    if |xs| == 0 then None
    else if p(xs[0]) then Some(0)
    else
      assert forall j :: 1 <= j < |xs| ==> xs[j] == xs[1..][j - 1];
      match FirstIndex(xs[1..], p)
      case None => None
      case Some(i) => Some(i + 1)
  }

  /** The pieces `f` makes of each element of `xs`, joined in order. */
  function FlatMap<A, B>(xs: seq<A>, f: A -> seq<B>): seq<B> {
    if |xs| == 0 then [] else f(xs[0]) + FlatMap(xs[1..], f)
  }

  /** The flat map of a joined list is the join of the flat maps. */
  lemma {:induction false} FlatMapConcat<A, B>(a: seq<A>, b: seq<A>, f: A -> seq<B>)
    ensures FlatMap(a + b, f) == FlatMap(a, f) + FlatMap(b, f)
  {
    if |a| == 0 {
      assert a + b == b;
    } else {
      var ab, t := a + b, a[1..] + b;
      FlatMapConcat(a[1..], b, f);
      assert ab[0] == a[0];
      assert ab[1..] == t;
      var x, y, z := f(a[0]), FlatMap(a[1..], f), FlatMap(b, f);
      assert FlatMap(ab, f) == x + (y + z);
      assert FlatMap(a, f) == x + y;
      assert x + (y + z) == (x + y) + z;
    }
  }

  lemma FlatMapOne<A, B>(x: A, f: A -> seq<B>)
    ensures FlatMap([x], f) == f(x)
  {
    assert FlatMap([x], f) == f(x) + FlatMap([], f);
  }

  /** An element of the flat map comes from the piece of some input
      element, and every piece is kept. */
  lemma {:induction false} FlatMapMembers<A, B>(xs: seq<A>, f: A -> seq<B>, y: B)
    ensures y in FlatMap(xs, f) <==> exists i :: 0 <= i < |xs| && y in f(xs[i])
    decreases |xs|
  {
    if |xs| > 0 {
      FlatMapMembers(xs[1..], f, y);
      if y in FlatMap(xs[1..], f) {
        var i :| 0 <= i < |xs[1..]| && y in f(xs[1..][i]);
        assert xs[i + 1] == xs[1..][i];
      }
      if exists i :: 0 <= i < |xs| && y in f(xs[i]) {
        var i :| 0 <= i < |xs| && y in f(xs[i]);
        if i > 0 {
          assert xs[1..][i - 1] == xs[i];
        }
      }
    }
  }

  /** When every piece has at most one element, the flat map is no longer
      than its input. */
  lemma {:induction false} FlatMapShorter<A, B>(xs: seq<A>, f: A -> seq<B>)
    requires forall i :: 0 <= i < |xs| ==> |f(xs[i])| <= 1
    ensures |FlatMap(xs, f)| <= |xs|
    decreases |xs|
  {
    if |xs| > 0 {
      assert forall i :: 0 <= i < |xs[1..]| ==> xs[1..][i] == xs[i + 1];
      FlatMapShorter(xs[1..], f);
    }
  }

  /** Runs `f` on each element in order and joins the pieces; the first
      failure ends the loop and is the result. */
  function CollectAll<A, B>(xs: seq<A>, f: A -> Result<seq<B>>): (r: Result<seq<B>>)
    ensures r.Success? <==> forall i :: 0 <= i < |xs| ==> f(xs[i]).Success?
    ensures r.Failure? ==> exists i :: 0 <= i < |xs| && f(xs[i]) == Failure(r.error)
  {
    if |xs| == 0 then Success([])
    else
      var head :- f(xs[0]);
      var rest := CollectAll(xs[1..], f);
      assert forall i :: 1 <= i < |xs| ==> xs[i] == xs[1..][i - 1];
      if rest.Failure? then
        var i :| 0 <= i < |xs[1..]| && f(xs[1..][i]) == Failure(rest.error);
        assert f(xs[i + 1]) == Failure(rest.error);
        Failure(rest.error)
      else Success(head + rest.value)
  }

  /** One step of a collection: the first piece, then the rest. */
  lemma CollectAllCons<A, B>(xs: seq<A>, f: A -> Result<seq<B>>)
    requires |xs| > 0
    ensures CollectAll(xs, f) == Then(f(xs[0]), CollectAll(xs[1..], f))
  {
  }

  /** Every element of a successful collection comes from the piece of some
      input element, and every piece is kept. */
  lemma {:induction false} CollectAllMembers<A, B>(xs: seq<A>, f: A -> Result<seq<B>>, y: B)
    requires CollectAll(xs, f).Success?
    ensures y in CollectAll(xs, f).value <==> exists i :: 0 <= i < |xs| && f(xs[i]).Success? && y in f(xs[i]).value
    decreases |xs|
  {
    if |xs| > 0 {
      var tail := xs[1..];
      assert f(xs[0]).Success? && CollectAll(tail, f).Success?;
      assert CollectAll(xs, f).value == f(xs[0]).value + CollectAll(tail, f).value;
      CollectAllMembers(tail, f, y);
      if y in CollectAll(tail, f).value {
        var i :| 0 <= i < |tail| && f(tail[i]).Success? && y in f(tail[i]).value;
        assert xs[i + 1] == tail[i];
      }
      if exists i :: 0 <= i < |xs| && f(xs[i]).Success? && y in f(xs[i]).value {
        var i :| 0 <= i < |xs| && f(xs[i]).Success? && y in f(xs[i]).value;
        if i > 0 {
          assert tail[i - 1] == xs[i];
        }
      }
    }
  }

  /** Pieces that are all empty collect to nothing. */
  lemma {:induction false} CollectAllEmpty<A, B>(xs: seq<A>, f: A -> Result<seq<B>>)
    requires forall i :: 0 <= i < |xs| && f(xs[i]).Success? ==> f(xs[i]).value == []
    ensures CollectAll(xs, f).Success? ==> CollectAll(xs, f).value == []
    decreases |xs|
  {
    if |xs| > 0 {
      assert forall i :: 1 <= i < |xs| ==> xs[i] == xs[1..][i - 1];
      CollectAllEmpty(xs[1..], f);
    }
  }

  /** Collecting a joined list is collecting the first list, then the
      second. */
  lemma {:induction false} CollectAllConcat<A, B>(a: seq<A>, b: seq<A>, f: A -> Result<seq<B>>)
    ensures CollectAll(a + b, f) == Then(CollectAll(a, f), CollectAll(b, f))
    decreases |a|
  {
    if |a| == 0 {
      assert a + b == b;
      assert CollectAll(a, f) == Success([]);
      if CollectAll(b, f).Success? {
        assert [] + CollectAll(b, f).value == CollectAll(b, f).value;
      }
    } else {
      assert (a + b)[0] == a[0] && (a + b)[1..] == a[1..] + b;
      CollectAllConcat(a[1..], b, f);
      if f(a[0]).Success? && CollectAll(a[1..], f).Success? && CollectAll(b, f).Success? {
        var h, x, y := f(a[0]).value, CollectAll(a[1..], f).value, CollectAll(b, f).value;
        assert CollectAll(a + b, f).value == h + (x + y);
        assert CollectAll(a, f).value == h + x;
        assert h + (x + y) == (h + x) + y;
      }
    }
  }

  /** Collecting a list is collecting its first `i` elements, then the
      rest. */
  lemma CollectAllSplit<A, B>(xs: seq<A>, i: int, f: A -> Result<seq<B>>)
    requires 0 <= i <= |xs|
    ensures CollectAll(xs, f) == Then(CollectAll(xs[..i], f), CollectAll(xs[i..], f))
  {
    assert xs == xs[..i] + xs[i..];
    CollectAllConcat(xs[..i], xs[i..], f);
  }

  /** What every piece's elements satisfy, the collection's elements do. */
  lemma {:induction false} CollectAllAll<A, B>(xs: seq<A>, f: A -> Result<seq<B>>, p: B -> bool)
    requires forall i :: 0 <= i < |xs| && f(xs[i]).Success? ==> forall y :: y in f(xs[i]).value ==> p(y)
    ensures CollectAll(xs, f).Success? ==> forall y :: y in CollectAll(xs, f).value ==> p(y)
    decreases |xs|
  {
    if |xs| > 0 {
      assert forall i :: 1 <= i < |xs| ==> xs[i] == xs[1..][i - 1];
      CollectAllAll(xs[1..], f, p);
    }
  }
}
