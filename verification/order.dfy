/** Orderings the scripts use through Python's `sorted`: strings compared by
    code point, and stable sorting of records by an integer key. */
module Order {

  /* ------------------------------------------------------- string order */

  /** Python's `a <= b` on `str`: lexicographic by code point, a proper
      prefix coming first. */
  predicate LexLe(a: string, b: string)
    decreases |a|
  {
    |a| == 0 || (|b| > 0 && (a[0] < b[0] || (a[0] == b[0] && LexLe(a[1..], b[1..]))))
  }

  lemma {:induction false} LexTotal(a: string, b: string)
    ensures LexLe(a, b) || LexLe(b, a)
    decreases |a|
  {
    if |a| > 0 && |b| > 0 && a[0] == b[0] {
      LexTotal(a[1..], b[1..]);
    }
  }

  lemma {:induction false} LexAntisymmetric(a: string, b: string)
    requires LexLe(a, b) && LexLe(b, a)
    ensures a == b
    decreases |a|
  {
    if |a| > 0 {
      LexAntisymmetric(a[1..], b[1..]);
      assert a == [a[0]] + a[1..] && b == [b[0]] + b[1..];
    }
  }

  lemma {:induction false} LexTransitive(a: string, b: string, c: string)
    requires LexLe(a, b) && LexLe(b, c)
    ensures LexLe(a, c)
    decreases |a|
  {
    if |a| > 0 && a[0] == b[0] && b[0] == c[0] {
      LexTransitive(a[1..], b[1..], c[1..]);
    }
  }

  /** A common prefix does not change the order of two strings. */
  lemma {:induction false} LexPrefix(p: string, a: string, b: string)
    requires LexLe(p + a, p + b)
    ensures LexLe(a, b)
    decreases |p|
  {
    if |p| > 0 {
      assert (p + a)[1..] == p[1..] + a && (p + b)[1..] == p[1..] + b;
      LexPrefix(p[1..], a, b);
    } else {
      assert p + a == a && p + b == b;
    }
  }

  predicate Ascending(s: seq<string>) {
    forall i, j :: 0 <= i < j < |s| ==> LexLe(s[i], s[j])
  }

  function Insert(x: string, s: seq<string>): (r: seq<string>)
    requires Ascending(s)
    ensures Ascending(r)
    ensures multiset(r) == multiset(s) + multiset{x}
  {
    if |s| == 0 then [x]
    else if LexLe(x, s[0]) then
      forall i | 0 <= i < |s| ensures LexLe(x, s[i]) {
        if i > 0 {
          LexTransitive(x, s[0], s[i]);
        }
      }
      AscendingCons(x, s);
      [x] + s
    else
      var rest := Insert(x, s[1..]);
      LexTotal(x, s[0]);
      LowerBoundKept(s[0], s[1..], x, rest);
      AscendingCons(s[0], rest);
      assert s == [s[0]] + s[1..];
      [s[0]] + rest
  }

  predicate LowerBound(h: string, s: seq<string>) {
    forall i :: 0 <= i < |s| ==> LexLe(h, s[i])
  }

  lemma AscendingCons(h: string, s: seq<string>)
    requires Ascending(s) && LowerBound(h, s)
    ensures Ascending([h] + s)
  {
    var r := [h] + s;
    forall i, j | 0 <= i < j < |r| ensures LexLe(r[i], r[j]) {
      assert r[j] == s[j - 1];
      if i > 0 {
        assert r[i] == s[i - 1];
      }
    }
  }

  /** A lower bound of `a` and of `x` bounds every arrangement of `a` with
      `x` added. */
  lemma LowerBoundKept(h: string, a: seq<string>, x: string, b: seq<string>)
    requires Ascending([h] + a) && LexLe(h, x)
    requires multiset(b) == multiset(a) + multiset{x}
    ensures LowerBound(h, b)
  {
    forall i | 0 <= i < |b| ensures LexLe(h, b[i]) {
      assert b[i] in multiset(b);
      if b[i] != x {
        assert b[i] in multiset(a);
        var k :| 0 <= k < |a| && a[k] == b[i];
        assert ([h] + a)[0] == h && ([h] + a)[k + 1] == a[k];
      }
    }
  }

  /** `sorted(xs)` for a list of strings. */
  function Sort(xs: seq<string>): (r: seq<string>)
    ensures Ascending(r)
    ensures multiset(r) == multiset(xs)
  {
    if |xs| == 0 then []
    else
      assert xs == [xs[0]] + xs[1..];
      Insert(xs[0], Sort(xs[1..]))
  }

  /** The distinct elements of `xs`, each kept at its last occurrence. */
  function Dedup<T(==)>(xs: seq<T>): (r: seq<T>)
    ensures Elems(r) == Elems(xs)
    ensures forall i, j :: 0 <= i < j < |r| ==> r[i] != r[j]
  {
    if |xs| == 0 then []
    else
      var rest := Dedup(xs[1..]);
      assert xs == [xs[0]] + xs[1..];
      assert Elems(xs) == {xs[0]} + Elems(xs[1..]);
      if xs[0] in xs[1..] then rest
      else
        var r := [xs[0]] + rest;
        assert xs[0] !in Elems(rest);
        assert Elems(r) == {xs[0]} + Elems(rest);
        r
  }

  function Elems<T(==)>(s: seq<T>): set<T> {
    set x | x in s
  }

  predicate StrictlyDescending(s: seq<string>) {
    forall i, j :: 0 <= i < j < |s| ==> LexLe(s[j], s[i]) && s[i] != s[j]
  }

  function Reverse<T>(s: seq<T>): (r: seq<T>)
    ensures |r| == |s|
    ensures forall i :: 0 <= i < |s| ==> r[i] == s[|s| - 1 - i]
  {
    seq(|s|, i requires 0 <= i < |s| => s[|s| - 1 - i])
  }

  /** `sorted(set(xs), reverse=True)`: every distinct element once, from the
      greatest down. */
  function SortedSetDescending(xs: seq<string>): (r: seq<string>)
    ensures StrictlyDescending(r)
    ensures Elems(r) == Elems(xs)
  {
    var d := Dedup(xs);
    var s := Sort(d);
    DistinctSorted(d, s);
    ReverseAscending(s);
    Reverse(s)
  }

  lemma ReverseAscending(s: seq<string>)
    requires Ascending(s)
    requires forall i, j :: 0 <= i < j < |s| ==> s[i] != s[j]
    ensures StrictlyDescending(Reverse(s))
    ensures Elems(Reverse(s)) == Elems(s)
  {
    var r := Reverse(s);
    forall i, j | 0 <= i < j < |r| ensures LexLe(r[j], r[i]) && r[i] != r[j] {
      var a, b := |s| - 1 - j, |s| - 1 - i;
      assert r[i] == s[b] && r[j] == s[a];
      assert LexLe(s[a], s[b]) && s[a] != s[b];
    }
    ReverseElems(s);
  }

  lemma ReverseElems<T>(s: seq<T>)
    ensures Elems(Reverse(s)) == Elems(s)
  {
    var r := Reverse(s);
    forall x | x in s ensures x in r {
      var k :| 0 <= k < |s| && s[k] == x;
      assert r[|s| - 1 - k] == x;
    }
    forall x | x in r ensures x in s {
      var k :| 0 <= k < |r| && r[k] == x;
      assert s[|s| - 1 - k] == x;
    }
  }

  lemma DistinctSorted(d: seq<string>, s: seq<string>)
    requires forall i, j :: 0 <= i < j < |d| ==> d[i] != d[j]
    requires multiset(s) == multiset(d)
    ensures forall i, j :: 0 <= i < j < |s| ==> s[i] != s[j]
    ensures Elems(s) == Elems(d)
  {
    forall i, j | 0 <= i < j < |s| ensures s[i] != s[j] {
      DistinctMultiplicity(d, s[i]);
      RepeatedMultiplicity(s, i, j);
    }
    forall x ensures x in s <==> x in d {
      assert x in s <==> x in multiset(s);
      assert x in d <==> x in multiset(d);
    }
  }

  lemma RepeatedMultiplicity<T>(s: seq<T>, i: nat, j: nat)
    requires i < j < |s|
    ensures s[i] == s[j] ==> multiset(s)[s[i]] >= 2
  {
    if s[i] == s[j] {
      assert s == s[..j] + [s[j]] + s[j + 1..];
      assert s[..j][i] == s[i];
      assert multiset(s[..j])[s[i]] >= 1;
    }
  }

  lemma {:induction false} DistinctMultiplicity<T>(d: seq<T>, x: T)
    requires forall i, j :: 0 <= i < j < |d| ==> d[i] != d[j]
    ensures multiset(d)[x] <= 1
  {
    if |d| > 0 {
      DistinctMultiplicity(d[1..], x);
      assert d == [d[0]] + d[1..];
      assert d[0] !in d[1..];
    }
  }

  lemma EmptyElems<T>(s: seq<T>)
    ensures |s| == 0 <==> Elems(s) == {}
  {
    if |s| > 0 {
      assert s[0] in Elems(s);
    }
  }

  /** There is exactly one strictly descending listing of a set of strings,
      so the contract of `SortedSetDescending` determines its result. */
  lemma {:induction false} StrictlyDescendingUnique(a: seq<string>, b: seq<string>)
    requires StrictlyDescending(a) && StrictlyDescending(b)
    requires Elems(a) == Elems(b)
    ensures a == b
    decreases |a|
  {
    if |a| == 0 || |b| == 0 {
      EmptyElems(a);
      EmptyElems(b);
    } else {
      assert a[0] in Elems(a) && b[0] in Elems(b);
      var i :| 0 <= i < |a| && a[i] == b[0];
      var j :| 0 <= j < |b| && b[j] == a[0];
      if i > 0 {
        if j > 0 {
          LexAntisymmetric(a[0], b[0]);
        }
      }
      assert a[0] == b[0];
      assert Elems(a[1..]) == Elems(b[1..]) by {
        forall x | x in a[1..] ensures x in b[1..] {
          var k :| 0 <= k < |a[1..]| && a[1..][k] == x;
          assert x in Elems(b);
          var m :| 0 <= m < |b| && b[m] == x;
          assert m != 0;
          assert b[m] == b[1..][m - 1];
        }
        forall x | x in b[1..] ensures x in a[1..] {
          var k :| 0 <= k < |b[1..]| && b[1..][k] == x;
          assert x in Elems(a);
          var m :| 0 <= m < |a| && a[m] == x;
          assert m != 0;
          assert a[m] == a[1..][m - 1];
        }
      }
      StrictlyDescendingUnique(a[1..], b[1..]);
      assert a == [a[0]] + a[1..] && b == [b[0]] + b[1..];
    }
  }

  /* ------------------------------------------------------- keyed sort */

  predicate SortedBy<T>(s: seq<T>, key: T -> int) {
    forall i, j :: 0 <= i < j < |s| ==> key(s[i]) <= key(s[j])
  }

  /** Places `x` after every element whose key does not exceed its own, as
      a stable sort must. */
  function InsertBy<T>(x: T, s: seq<T>, key: T -> int): (r: seq<T>)
    requires SortedBy(s, key)
    ensures SortedBy(r, key)
    ensures multiset(r) == multiset(s) + multiset{x}
  {
    if |s| == 0 then [x]
    else
      var last := s[|s| - 1];
      var init := s[..|s| - 1];
      assert s == init + [last];
      if key(last) <= key(x) then s + [x]
      else
        var r0 := InsertBy(x, init, key);
        var r := r0 + [last];
        assert SortedBy(r, key) by {
          forall i | 0 <= i < |r0| ensures key(r0[i]) <= key(last) {
            assert r0[i] in multiset(r0);
            if r0[i] != x {
              assert r0[i] in multiset(init);
              var k :| 0 <= k < |init| && init[k] == r0[i];
              assert s[k] == init[k];
            }
          }
        }
        r
  }

  /** Python's `sorted(xs, key=key)`: a stable sort by an integer key. */
  function SortBy<T>(xs: seq<T>, key: T -> int): (r: seq<T>)
    ensures SortedBy(r, key)
    ensures multiset(r) == multiset(xs)
  {
    if |xs| == 0 then []
    else
      assert xs == xs[..|xs| - 1] + [xs[|xs| - 1]];
      InsertBy(xs[|xs| - 1], SortBy(xs[..|xs| - 1], key), key)
  }

  /** Two elements come out in key order, the first written first on a tie. */
  lemma SortByTwo<T>(a: T, b: T, key: T -> int)
    ensures SortBy([a, b], key) == if key(a) <= key(b) then [a, b] else [b, a]
  {
    assert [a, b][..1] == [a];
    assert [a][..0] == [];
    assert SortBy([a], key) == [a];
  }
}
