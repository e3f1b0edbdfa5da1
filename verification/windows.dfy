/** Whole-second date windows and the recursive halving both audits apply
    when a window holds more hits than the search service pages through. */
module Windows {
  import opened Wrappers
  import opened Times

  /** The service pages through at most this many hits of one query. */
  const MaxResultWindow: int := 10000

  datatype Span = Span(start: int, end: int)

  /** The seconds `start .. end`, both included, counted from
      `datetime.min`; both ends are datetimes. */
  type Window = w: Span | 0 <= w.start <= w.end < SecondsLimit witness Span(0, 0)

  /** `midpoint_dt` at whole seconds: the half-second a window of odd length
      would give is dropped, as `dt_to_iso` drops it from the query. */
  function Mid(w: Window): int {
    w.start + (w.end - w.start) / 2
  }

  /** `[s, mid]`. */
  function Left(w: Window): (l: Window)
    ensures l.start == w.start
  {
    Span(w.start, Mid(w))
  }

  /** `[mid + 1s, e]`, which only exists while the window is longer than one
      second. */
  function Right(w: Window): (r: Window)
    requires w.start < w.end
    ensures r.end == w.end && r.start == Left(w).end + 1
  {
    Span(Mid(w) + 1, w.end)
  }

  /** What the first request for a window decides: the window's own items, or
      that it holds more hits than one query may page through. */
  datatype Probe<T> = Leaf(items: seq<T>) | Halve

  /** `retrieve_window`: probe the window; a leaf gives its items, an
      oversized window is halved and the left half's items come before the
      right half's. A one-second window that is still oversized halves into
      itself for ever, which Python ends with RecursionError. */
  function Bisect<T>(w: Window, probe: Window -> Result<Probe<T>>): (r: Result<seq<T>>)
    ensures probe(w).Failure? ==> r == Failure(probe(w).error)
    decreases w.end - w.start
  {
    var p :- probe(w);
    match p
    case Leaf(items) => Success(items)
    case Halve =>
      if w.start == w.end then Failure(RecursionLimit)
      else
        var left :- Bisect(Left(w), probe);
        var right :- Bisect(Right(w), probe);
        Success(left + right)
  }

  /** A window probed as oversized: its halves' items, left first. */
  lemma BisectHalves<T>(w: Window, probe: Window -> Result<Probe<T>>)
    requires probe(w) == Success(Halve) && w.start < w.end
    ensures Bisect(w, probe) == Then(Bisect(Left(w), probe), Bisect(Right(w), probe))
  {
  }

  /** A one-second window probed as oversized never stops halving. */
  lemma BisectStuck<T>(w: Window, probe: Window -> Result<Probe<T>>)
    requires probe(w) == Success(Halve) && w.start == w.end
    ensures Bisect(w, probe) == Failure(RecursionLimit)
  {
  }

  /** A window probed as a leaf: its own items. */
  lemma BisectLeaf<T>(w: Window, probe: Window -> Result<Probe<T>>)
    requires probe(w).Success? && probe(w).value.Leaf?
    ensures Bisect(w, probe) == Success(probe(w).value.items)
  {
  }

  /** A property every leaf's items have, the bisection's items have. */
  lemma {:induction false} BisectKeeps<T>(w: Window, probe: Window -> Result<Probe<T>>, p: T -> bool)
    requires forall v: Window :: probe(v).Success? && probe(v).value.Leaf? ==> forall x :: x in probe(v).value.items ==> p(x)
    ensures Bisect(w, probe).Success? ==> forall x :: x in Bisect(w, probe).value ==> p(x)
    decreases w.end - w.start
  {
    if probe(w).Success? && probe(w).value.Halve? && w.start < w.end {
      BisectKeeps(Left(w), probe, p);
      BisectKeeps(Right(w), probe, p);
    }
  }

  /** The windows whose items `Bisect` keeps, left to right. */
  function Plan<T>(w: Window, probe: Window -> Result<Probe<T>>): (r: Result<seq<Window>>)
    ensures r.Success? ==> forall i :: 0 <= i < |r.value| ==> probe(r.value[i]).Success? && probe(r.value[i]).value.Leaf?
    decreases w.end - w.start
  {
    var p :- probe(w);
    match p
    case Leaf(_) => Success([w])
    case Halve =>
      if w.start == w.end then Failure(RecursionLimit)
      else
        var left :- Plan(Left(w), probe);
        var right :- Plan(Right(w), probe);
        Success(left + right)
  }

  /** The items the leaves of a plan hold, in plan order. */
  function Gather<T>(leaves: seq<Window>, probe: Window -> Result<Probe<T>>): seq<T>
    requires forall i :: 0 <= i < |leaves| ==> probe(leaves[i]).Success? && probe(leaves[i]).value.Leaf?
  {
    if |leaves| == 0 then []
    else probe(leaves[0]).value.items + Gather(leaves[1..], probe)
  }

  lemma {:induction false} GatherConcat<T>(a: seq<Window>, b: seq<Window>, probe: Window -> Result<Probe<T>>)
    requires forall i :: 0 <= i < |a| ==> probe(a[i]).Success? && probe(a[i]).value.Leaf?
    requires forall i :: 0 <= i < |b| ==> probe(b[i]).Success? && probe(b[i]).value.Leaf?
    ensures Gather(a + b, probe) == Gather(a, probe) + Gather(b, probe)
  {
    if |a| == 0 {
      assert a + b == b;
    } else {
      GatherConcat(a[1..], b, probe);
      assert (a + b)[1..] == a[1..] + b;
      assert (a + b)[0] == a[0];
    }
  }

  /** Consecutive windows that start at `s`, end at `e` and leave no second
      between one window and the next. */
  predicate Tiles(ls: seq<Window>, s: int, e: int) {
    && |ls| >= 1
    && ls[0].start == s
    && ls[|ls| - 1].end == e
    && forall i :: 0 <= i < |ls| - 1 ==> ls[i + 1].start == ls[i].end + 1
  }

  /** The bisection keeps exactly the items of its plan's leaves, it fails
      exactly when the plan does, and the plan's leaves tile the window. */
  lemma {:induction false} BisectFollowsPlan<T>(w: Window, probe: Window -> Result<Probe<T>>)
    ensures Plan(w, probe).Failure? <==> Bisect(w, probe).Failure?
    ensures Plan(w, probe).Failure? ==> Plan(w, probe).error == Bisect(w, probe).error
    ensures Plan(w, probe).Success? ==> Tiles(Plan(w, probe).value, w.start, w.end)
    ensures Plan(w, probe).Success? ==> Bisect(w, probe).value == Gather(Plan(w, probe).value, probe)
    decreases w.end - w.start
  {
    if probe(w).Success? && probe(w).value.Halve? && w.start < w.end {
      var l, r := Left(w), Right(w);
      BisectFollowsPlan(l, probe);
      BisectFollowsPlan(r, probe);
      if Plan(l, probe).Success? && Plan(r, probe).Success? {
        var a, b := Plan(l, probe).value, Plan(r, probe).value;
        GatherConcat(a, b, probe);
        TilesConcat(a, b, w.start, l.end, w.end);
      }
    } else if probe(w).Success? && probe(w).value.Leaf? {
      assert Gather([w], probe) == probe(w).value.items + Gather([], probe);
    }
  }

  lemma TilesConcat(a: seq<Window>, b: seq<Window>, s: int, m: int, e: int)
    requires Tiles(a, s, m) && Tiles(b, m + 1, e)
    ensures Tiles(a + b, s, e)
  {
    var c := a + b;
    forall i | 0 <= i < |c| - 1 ensures c[i + 1].start == c[i].end + 1 {
      if i < |a| - 1 {
        assert c[i] == a[i] && c[i + 1] == a[i + 1];
      } else if i == |a| - 1 {
        assert c[i] == a[|a| - 1] && c[i + 1] == b[0];
      } else {
        assert c[i] == b[i - |a|] && c[i + 1] == b[i - |a| + 1];
      }
    }
  }

  /** Tiling windows are in increasing order and pairwise disjoint. */
  lemma {:induction false} TilesDisjoint(ls: seq<Window>, s: int, e: int, i: nat, j: nat)
    requires Tiles(ls, s, e)
    requires i < j < |ls|
    ensures ls[i].end < ls[j].start
    decreases j - i
  {
    if j > i + 1 {
      TilesDisjoint(ls, s, e, i, j - 1);
    }
  }

  /** Every second from `s` to `e` lies in some tiling window. */
  lemma {:induction false} TilesCover(ls: seq<Window>, s: int, e: int, x: int)
    requires Tiles(ls, s, e)
    requires s <= x <= e
    ensures exists i :: 0 <= i < |ls| && ls[i].start <= x <= ls[i].end
    decreases |ls|
  {
    if x > ls[0].end {
      var rest := ls[1..];
      assert Tiles(rest, ls[0].end + 1, e) by {
        forall i | 0 <= i < |rest| - 1 ensures rest[i + 1].start == rest[i].end + 1 {
          assert rest[i] == ls[i + 1] && rest[i + 1] == ls[i + 2];
        }
      }
      TilesCover(rest, ls[0].end + 1, e, x);
      var i :| 0 <= i < |rest| && rest[i].start <= x <= rest[i].end;
      assert ls[i + 1] == rest[i];
    }
  }
}
