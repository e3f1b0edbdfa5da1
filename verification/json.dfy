/** Decoded JSON values and the few Python operations the scripts apply to them.

    A JSON object is kept as its ordered list of fields, because the scripts
    iterate dictionaries in insertion order. The model assumes the API's
    objects hold each key once: `Lookup` takes the first field with a key,
    whereas Python's `json` keeps the last of repeated keys, so the two agree
    only on such objects. Numbers are integers only. */
module Json {
  import opened Wrappers

  datatype Value =
    | Null
    | Bool(b: bool)
    | Num(n: int)
    | Str(s: string)
    | Arr(items: seq<Value>)
    | Obj(fields: seq<(string, Value)>)

  type Fields = seq<(string, Value)>

  /** Python truthiness of a decoded JSON value. */
  predicate Truthy(v: Value) {
    match v
    case Null => false
    case Bool(b) => b
    case Num(n) => n != 0
    case Str(s) => s != ""
    case Arr(xs) => xs != []
    case Obj(fs) => fs != []
  }

  /** Python's `a or b`. */
  function Or(a: Value, b: Value): Value {
    if Truthy(a) then a else b
  }

  predicate HasKey(fs: Fields, k: string) {
    k in Keys(fs)
  }

  predicate DistinctKeys(fs: Fields) {
    forall i, j :: 0 <= i < j < |fs| ==> fs[i].0 != fs[j].0
  }

  /** The value stored under `k`, if any. */
  function Lookup(fs: Fields, k: string): (r: Option<Value>)
    ensures r.Some? <==> HasKey(fs, k)
    ensures r.Some? ==> exists i :: 0 <= i < |fs| && fs[i] == (k, r.value)
  {
    if |fs| == 0 then None
    else if fs[0].0 == k then Some(fs[0].1)
    else
      var r := Lookup(fs[1..], k);
      assert r.Some? ==> exists i :: 0 <= i < |fs[1..]| && fs[1..][i] == (k, r.value);
      assert Keys(fs) == [fs[0].0] + Keys(fs[1..]);
      r
  }

  /** `d.get(k, default)` on a dictionary. */
  function GetOr(v: Value, k: string, default: Value): Value
    requires v.Obj?
  {
    Lookup(v.fields, k).GetOr(default)
  }

  /** `d.get(k)`: a missing key and a stored JSON null both read as None. */
  function Get(v: Value, k: string): Value
    requires v.Obj?
  {
    GetOr(v, k, Null)
  }

  /** `k in d`. */
  predicate In(v: Value, k: string)
    requires v.Obj?
  {
    HasKey(v.fields, k)
  }

  function Keys(fs: Fields): (ks: seq<string>)
    ensures |ks| == |fs|
    ensures forall i :: 0 <= i < |fs| ==> ks[i] == fs[i].0
  {
    if |fs| == 0 then [] else [fs[0].0] + Keys(fs[1..])
  }

  function KeysAsValues(fs: Fields): (vs: seq<Value>)
    ensures |vs| == |fs|
    ensures forall i :: 0 <= i < |fs| ==> vs[i] == Str(fs[i].0)
  {
    if |fs| == 0 then [] else [Str(fs[0].0)] + KeysAsValues(fs[1..])
  }

  function CharsAsValues(s: string): (vs: seq<Value>)
    ensures |vs| == |s|
    ensures forall i :: 0 <= i < |s| ==> vs[i] == Str([s[i]])
  {
    if |s| == 0 then [] else [Str([s[0]])] + CharsAsValues(s[1..])
  }

  /** What `for x in v` visits: list items, dictionary keys, or the
      one-character strings of a string. Any other value raises TypeError,
      modelled as None. `len(v)` is the length of the same sequence. */
  function Iterate(v: Value): (r: Option<seq<Value>>)
    ensures r.None? <==> v.Null? || v.Bool? || v.Num?
    ensures v.Arr? ==> r == Some(v.items)
    ensures v.Obj? ==> r.Some? && |r.value| == |v.fields|
    ensures v.Str? ==> r.Some? && |r.value| == |v.s|
    ensures r.Some? && !v.Arr? ==> forall x :: x in r.value ==> x.Str?
  {
    match v
    case Arr(xs) => Some(xs)
    case Obj(fs) => Some(KeysAsValues(fs))
    case Str(s) => Some(CharsAsValues(s))
    case _ => None
  }

  /** The integer Python uses when `v` is compared with an int: numbers, and
      booleans as 0 and 1. Any other value makes the comparison raise
      TypeError, modelled as None. Equality with an int never raises: it is
      simply false for those values. */
  function AsInt(v: Value): Option<int> {
    match v
    case Num(n) => Some(n)
    case Bool(b) => Some(if b then 1 else 0)
    case _ => None
  }

  /** `d[k] = v`: replaces the value in place when `k` is present, otherwise
      appends the field. */
  function Put(fs: Fields, k: string, v: Value): (r: Fields)
    ensures Lookup(r, k) == Some(v)
    ensures forall k' :: k' != k ==> Lookup(r, k') == Lookup(fs, k')
    ensures Keys(fs) <= Keys(r)
    ensures |r| == if HasKey(fs, k) then |fs| else |fs| + 1
  {
    if |fs| == 0 then [(k, v)]
    else if fs[0].0 == k then [(k, v)] + fs[1..]
    else
      var rest := Put(fs[1..], k, v);
      var r := [fs[0]] + rest;
      assert Keys(fs) == [fs[0].0] + Keys(fs[1..]);
      assert Keys(r) == [fs[0].0] + Keys(rest);
      assert r[1..] == rest;
      r
  }

  /** `d.update(extra)`, with `extra` taken field by field. */
  function Update(fs: Fields, extra: Fields): Fields
    decreases |extra|
  {
    if |extra| == 0 then fs else Update(Put(fs, extra[0].0, extra[0].1), extra[1..])
  }

  /** After `d.update(extra)` every key of `extra` reads as in `extra`, every
      other key reads as before, and the original keys keep their order at
      the front. */
  lemma {:induction false} UpdateLookup(fs: Fields, extra: Fields, k: string)
    requires DistinctKeys(extra)
    ensures Lookup(Update(fs, extra), k) == (if HasKey(extra, k) then Lookup(extra, k) else Lookup(fs, k))
    ensures Keys(fs) <= Keys(Update(fs, extra))
    decreases |extra|
  {
    if |extra| != 0 {
      var fs' := Put(fs, extra[0].0, extra[0].1);
      var tail := extra[1..];
      DistinctTail(extra);
      UpdateLookup(fs', tail, k);
      LookupCons(extra, k);
      if extra[0].0 == k {
        HeadNotInTail(extra);
      }
      assert Update(fs, extra) == Update(fs', tail);
      PrefixTrans(Keys(fs), Keys(fs'), Keys(Update(fs', tail)));
    }
  }

  lemma PrefixTrans(a: seq<string>, b: seq<string>, c: seq<string>)
    requires a <= b && b <= c
    ensures a <= c
  {
    assert a == b[..|a|] && b == c[..|b|];
    assert a == c[..|a|];
  }

  /** The fields after the first of a dictionary without repeated keys
      repeat no key either. */
  lemma DistinctTail(extra: Fields)
    requires DistinctKeys(extra) && |extra| > 0
    ensures DistinctKeys(extra[1..])
  {
    var tail := extra[1..];
    forall i, j | 0 <= i < j < |tail| ensures tail[i].0 != tail[j].0 {
      assert tail[i] == extra[i + 1] && tail[j] == extra[j + 1];
    }
  }

  /** The first key of a dictionary without repeated keys is not among the
      rest. */
  lemma HeadNotInTail(extra: Fields)
    requires DistinctKeys(extra) && |extra| > 0
    ensures !HasKey(extra[1..], extra[0].0)
  {
    var tail := extra[1..];
    forall i | 0 <= i < |tail| ensures Keys(tail)[i] != extra[0].0 {
      assert tail[i] == extra[i + 1];
    }
  }

  /** A lookup reads the first field, then the rest. */
  lemma LookupCons(fs: Fields, k: string)
    requires |fs| > 0
    ensures HasKey(fs, k) <==> fs[0].0 == k || HasKey(fs[1..], k)
    ensures Lookup(fs, k) == if fs[0].0 == k then Some(fs[0].1) else Lookup(fs[1..], k)
  {
    assert Keys(fs) == [fs[0].0] + Keys(fs[1..]);
  }
}
