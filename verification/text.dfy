/** The Python string operations the scripts rely on: `str.split` with a
    one-character separator, `str.strip()`, `str(int)`, `int(str)`,
    `str.endswith` and `os.path.basename`. */
module Text {
  import opened Wrappers
  import opened Seqs

  /* ---------------------------------------------------------------- split */

  /** `sep.join(parts)` for a one-character separator. */
  function Join(parts: seq<string>, sep: char): string
    requires |parts| >= 1
  {
    if |parts| == 1 then parts[0] else parts[0] + [sep] + Join(parts[1..], sep)
  }

  function Count(s: string, c: char): nat {
    if |s| == 0 then 0 else (if s[0] == c then 1 else 0) + Count(s[1..], c)
  }

  /** `s.split(sep)`: the pieces between separators, always at least one. */
  function Split(s: string, sep: char): (parts: seq<string>)
    ensures |parts| == Count(s, sep) + 1
    ensures forall i :: 0 <= i < |parts| ==> sep !in parts[i]
    ensures Join(parts, sep) == s
  {
    if |s| == 0 then [""]
    else
      var rest := Split(s[1..], sep);
      if s[0] == sep then
        assert ([""] + rest)[1..] == rest;
        [""] + rest
      else
        var r := [[s[0]] + rest[0]] + rest[1..];
        assert r[1..] == rest[1..];
        assert s == [s[0]] + s[1..];
        r
  }

  /** Joining separator-free pieces and splitting again gives the pieces
      back: together with the contract of `Split` this makes the two inverse
      to each other. */
  lemma {:induction false} SplitJoin(parts: seq<string>, sep: char)
    requires |parts| >= 1
    requires forall i :: 0 <= i < |parts| ==> sep !in parts[i]
    ensures Split(Join(parts, sep), sep) == parts
    decreases |parts|, |parts[0]|
  {
    if |parts| == 1 {
      SplitFree(parts[0], sep);
    } else if |parts[0]| == 0 {
      var rest := parts[1..];
      SplitJoin(rest, sep);
      JoinCons(sep, [""] + rest, sep);
      assert ([""] + rest)[0] == "" && ([""] + rest)[1..] == rest;
      SplitCons(sep, Join(rest, sep), sep);
      assert parts == [""] + rest;
    } else {
      var c := parts[0][0];
      var shorter := [parts[0][1..]] + parts[1..];
      assert shorter[0] == parts[0][1..] && shorter[1..] == parts[1..];
      assert parts[0] == [c] + shorter[0];
      assert parts == [[c] + shorter[0]] + shorter[1..];
      SplitJoin(shorter, sep);
      JoinCons(c, shorter, sep);
      SplitCons(c, Join(shorter, sep), sep);
    }
  }

  /** Putting `c` in front of the first piece puts it in front of the
      joined text; a separator in front of an empty first piece is the
      same as a separator in front of the rest. */
  lemma JoinCons(c: char, parts: seq<string>, sep: char)
    requires |parts| >= 1
    ensures Join([[c] + parts[0]] + parts[1..], sep) == [c] + Join(parts, sep)
    ensures |parts| >= 2 && parts[0] == "" ==> Join(parts, sep) == [sep] + Join(parts[1..], sep)
  {
    var q := [[c] + parts[0]] + parts[1..];
    assert q[0] == [c] + parts[0] && q[1..] == parts[1..];
    if |parts| >= 2 {
      var j := Join(parts[1..], sep);
      calc {
        Join(q, sep);
        ([c] + parts[0]) + [sep] + j;
        [c] + (parts[0] + [sep] + j);
      }
      if parts[0] == "" {
        assert parts[0] + [sep] + j == [sep] + j;
      }
    }
  }

  /** How `Split` treats the first character. */
  lemma SplitCons(c: char, t: string, sep: char)
    ensures Split([c] + t, sep)
            == if c == sep then [""] + Split(t, sep) else [[c] + Split(t, sep)[0]] + Split(t, sep)[1..]
  {
    assert ([c] + t)[1..] == t;
  }

  lemma {:induction false} SplitFree(s: string, sep: char)
    requires sep !in s
    ensures Split(s, sep) == [s]
  {
    if |s| > 0 {
      SplitFree(s[1..], sep);
      assert s == [s[0]] + s[1..];
    }
  }

  /** `s.split(sep, 1)` when `sep` occurs in `s`: the text before the first
      separator and everything after it. */
  function SplitOnce(s: string, sep: char): (r: (string, string))
    requires sep in s
    ensures r.0 + [sep] + r.1 == s
    ensures sep !in r.0
  {
    if s[0] == sep then ("", s[1..])
    else
      var (a, b) := SplitOnce(s[1..], sep);
      assert s == [s[0]] + s[1..];
      ([s[0]] + a, b)
  }

  /* ---------------------------------------------------------------- affixes */

  predicate EndsWith(s: string, suffix: string) {
    |suffix| <= |s| && s[|s| - |suffix|..] == suffix
  }

  /** `os.path.basename` on a POSIX path: the text after the last '/'. */
  function Basename(path: string): (name: string)
    ensures '/' !in name
    ensures EndsWith(path, name)
  {
    if |path| == 0 then ""
    else if path[|path| - 1] == '/' then ""
    else
      var init := Basename(path[..|path| - 1]);
      assert path == path[..|path| - 1] + [path[|path| - 1]];
      init + [path[|path| - 1]]
  }

  /** The base name of a path that ends in a '/'-free name is that name. */
  lemma {:induction false} BasenameOfName(dir: string, name: string)
    requires dir == "" || dir[|dir| - 1] == '/'
    requires '/' !in name
    ensures Basename(dir + name) == name
    decreases |name|
  {
    if |name| == 0 {
      assert dir + name == dir;
    } else {
      var init, last := name[..|name| - 1], name[|name| - 1];
      assert last in name;
      assert name == init + [last];
      assert dir + name == (dir + init) + [last];
      BasenameOfName(dir, init);
      BasenameSnoc(dir + init, last);
    }
  }

  /** A character other than '/' extends the base name. */
  lemma BasenameSnoc(path: string, c: char)
    requires c != '/'
    ensures Basename(path + [c]) == Basename(path) + [c]
  {
    assert (path + [c])[..|path|] == path;
  }

  /** What `os.path.join` puts before a relative name: the directory itself
      when it is empty or ends in '/', else the directory and a '/'. */
  function DirPrefix(dir: string): (d: string)
    ensures d == "" || d[|d| - 1] == '/'
    ensures dir <= d
  {
    if dir == "" || dir[|dir| - 1] == '/' then dir else dir + "/"
  }

  /** `os.path.join(dir, name)` for a relative name. */
  function JoinPath(dir: string, name: string): string {
    DirPrefix(dir) + name
  }

  /** The base name of a joined path is the name joined. */
  lemma BasenameOfJoin(dir: string, name: string)
    requires '/' !in name
    ensures Basename(JoinPath(dir, name)) == name
  {
    BasenameOfName(DirPrefix(dir), name);
  }

  /** ASCII `str.lower()`. */
  function Lower(s: string): (r: string)
    ensures |r| == |s|
  {
    if |s| == 0 then []
    else [if 'A' <= s[0] <= 'Z' then (s[0] as int + 32) as char else s[0]] + Lower(s[1..])
  }

  /* ---------------------------------------------------------------- strip */

  /** Python's `str.isspace()`. */
  predicate IsSpace(c: char) {
    c == ' ' || '\t' <= c <= '\r' || '\U{001c}' <= c <= '\U{001f}' || c == '\U{0085}' || c == '\U{00a0}'
    || c == '\U{1680}' || '\U{2000}' <= c <= '\U{200a}' || c == '\U{2028}' || c == '\U{2029}'
    || c == '\U{202f}' || c == '\U{205f}' || c == '\U{3000}'
  }

  /** The first index from `i` on that holds no whitespace, or `|s|`. */
  function FirstNonSpace(s: string, i: nat): (a: nat)
    requires i <= |s|
    ensures i <= a <= |s|
    ensures forall k :: i <= k < a ==> IsSpace(s[k])
    ensures a == |s| || !IsSpace(s[a])
    decreases |s| - i
  {
    if i == |s| || !IsSpace(s[i]) then i else FirstNonSpace(s, i + 1)
  }

  /** The end of `s[a..j]` once its trailing whitespace is dropped. */
  function EndNonSpace(s: string, a: nat, j: nat): (b: nat)
    requires a <= j <= |s|
    ensures a <= b <= j
    ensures forall k :: b <= k < j ==> IsSpace(s[k])
    ensures b == a || !IsSpace(s[b - 1])
    decreases j
  {
    if j == a || !IsSpace(s[j - 1]) then j else EndNonSpace(s, a, j - 1)
  }

  /** `s.strip()`: `s` without its leading and trailing whitespace. */
  function Strip(s: string): (r: string)
    ensures r == [] || (!IsSpace(r[0]) && !IsSpace(r[|r| - 1]))
    ensures var a := FirstNonSpace(s, 0);
            && a + |r| <= |s| && s[a..a + |r|] == r
            && (forall k :: 0 <= k < a ==> IsSpace(s[k]))
            && (forall k :: a + |r| <= k < |s| ==> IsSpace(s[k]))
  {
    var a := FirstNonSpace(s, 0);
    s[a..EndNonSpace(s, a, |s|)]
  }

  lemma StripNoSpace(s: string)
    requires s == [] || (!IsSpace(s[0]) && !IsSpace(s[|s| - 1]))
    ensures Strip(s) == s
  {
  }

  /** The stripped pieces that are not blank, in order: what
      `[p.strip() for p in parts if p.strip()]` keeps. */
  function NonBlank(lines: seq<string>): (r: seq<string>)
    ensures |r| <= |lines|
    ensures forall x :: x in r <==> x != "" && exists i :: 0 <= i < |lines| && Strip(lines[i]) == x
  {
    var r := FlatMap(lines, StrippedLine);
    FlatMapShorter(lines, StrippedLine);
    forall x ensures x in r <==> x != "" && exists i :: 0 <= i < |lines| && Strip(lines[i]) == x {
      FlatMapMembers(lines, StrippedLine, x);
    }
    r
  }

  /** What one line contributes: its stripped text unless that is empty. */
  function StrippedLine(line: string): (r: seq<string>)
    ensures |r| <= 1
    ensures forall i :: 0 <= i < |r| ==> r[i] != "" && Strip(r[i]) == r[i]
    ensures |r| == 1 <==> Strip(line) != ""
    ensures |r| == 1 ==> r[0] == Strip(line)
  {
    var v := Strip(line);
    if v == "" then []
    else
      StripNoSpace(v);
      [v]
  }

  /** Pieces are filtered one by one, in order: the pieces of `a + b` keep
      those of `a`, then those of `b`, and a single piece keeps its
      stripped text unless that is blank. */
  lemma NonBlankConcat(a: seq<string>, b: seq<string>)
    ensures NonBlank(a + b) == NonBlank(a) + NonBlank(b)
    ensures |a| == 1 ==> NonBlank(a) == if Strip(a[0]) == "" then [] else [Strip(a[0])]
  {
    FlatMapConcat(a, b, StrippedLine);
    if |a| == 1 {
      assert a == [a[0]];
      FlatMapOne(a[0], StrippedLine);
    }
  }

  /** Mapping over the non-blank pieces: an item comes out iff some piece
      that is not blank comes out, stripped, with it. */
  lemma NonBlankFlatMapMembers<B>(pieces: seq<string>, f: string -> seq<B>, y: B)
    ensures y in FlatMap(NonBlank(pieces), f) <==>
              exists i :: 0 <= i < |pieces| && Strip(pieces[i]) != "" && y in f(Strip(pieces[i]))
  {
    var parts := NonBlank(pieces);
    FlatMapMembers(parts, f, y);
    if y in FlatMap(parts, f) {
      var k :| 0 <= k < |parts| && y in f(parts[k]);
      assert parts[k] in parts;
      var i :| 0 <= i < |pieces| && Strip(pieces[i]) == parts[k];
    }
    if exists i :: 0 <= i < |pieces| && Strip(pieces[i]) != "" && y in f(Strip(pieces[i])) {
      var i :| 0 <= i < |pieces| && Strip(pieces[i]) != "" && y in f(Strip(pieces[i]));
      assert Strip(pieces[i]) in parts;
      var k :| 0 <= k < |parts| && parts[k] == Strip(pieces[i]);
    }
  }

  lemma {:induction false} NonBlankKeeps(ids: seq<string>)
    requires forall i :: 0 <= i < |ids| ==> ids[i] != "" && !IsSpace(ids[i][0]) && !IsSpace(ids[i][|ids[i]| - 1])
    ensures NonBlank(ids) == ids
  {
    if |ids| > 0 {
      StripNoSpace(ids[0]);
      NonBlankKeeps(ids[1..]);
      assert ids == [ids[0]] + ids[1..];
    }
  }

  /* ---------------------------------------------------------------- numbers */

  predicate IsDigit(c: char) {
    '0' <= c <= '9'
  }

  function DigitValue(c: char): nat
    requires IsDigit(c)
  {
    c as int - '0' as int
  }

  function DigitChar(d: nat): (c: char)
    requires d < 10
    ensures IsDigit(c) && DigitValue(c) == d
  {
    ('0' as int + d) as char
  }

  predicate AllDigits(s: string) {
    forall i :: 0 <= i < |s| ==> IsDigit(s[i])
  }

  /** The number a run of decimal digits denotes. */
  function DigitsValue(s: string): nat
    requires AllDigits(s)
  {
    if |s| == 0 then 0 else 10 * DigitsValue(s[..|s| - 1]) + DigitValue(s[|s| - 1])
  }

  /** `str(n)` for a natural number. */
  function NatToString(n: nat): (s: string)
    ensures |s| >= 1 && AllDigits(s)
    ensures DigitsValue(s) == n
    ensures |s| > 1 ==> s[0] != '0'
  {
    if n < 10 then [DigitChar(n)]
    else
      var init := NatToString(n / 10);
      var s := init + [DigitChar(n % 10)];
      assert s[..|s| - 1] == init;
      s
  }

  /** `str(i)` for any integer. */
  function IntToString(i: int): (s: string)
    ensures |s| >= 1
    ensures i >= 0 <==> IsDigit(s[0])
  {
    if i >= 0 then NatToString(i) else "-" + NatToString(-i)
  }

  /** The digit body Python's `int()` accepts: digits, with single
      underscores allowed between two digits. */
  predicate DigitGroups(s: string) {
    && |s| >= 1
    && IsDigit(s[0]) && IsDigit(s[|s| - 1])
    && (forall i :: 0 <= i < |s| ==> IsDigit(s[i]) || s[i] == '_')
    && (forall i :: 0 <= i < |s| - 1 ==> s[i] == '_' ==> s[i + 1] != '_')
  }

  function DropUnderscores(s: string): (r: string)
    requires forall i :: 0 <= i < |s| ==> IsDigit(s[i]) || s[i] == '_'
    ensures AllDigits(r)
  {
    if |s| == 0 then ""
    else (if s[0] == '_' then "" else [s[0]]) + DropUnderscores(s[1..])
  }

  /** `int(s)` on a string, None where Python raises ValueError. Only ASCII
      digits are modelled. */
  function ParseInt(s: string): Option<int> {
    var t := Strip(s);
    if |t| == 0 then None
    else
      var negative := t[0] == '-';
      var body := if t[0] == '-' || t[0] == '+' then t[1..] else t;
      if !DigitGroups(body) then None
      else
        var magnitude: int := DigitsValue(DropUnderscores(body));
        Some(if negative then -magnitude else magnitude)
  }

  lemma {:induction false} DropUnderscoresDigits(s: string)
    requires AllDigits(s)
    ensures DropUnderscores(s) == s
  {
    if |s| > 0 {
      DropUnderscoresDigits(s[1..]);
      assert s == [s[0]] + s[1..];
    }
  }

  /** `int(str(i)) == i`. */
  lemma ParseIntOfIntToString(i: int)
    ensures ParseInt(IntToString(i)) == Some(i)
  {
    var s := IntToString(i);
    var digits := NatToString(if i >= 0 then i else -i);
    DigitsAreGroups(digits);
    if i >= 0 {
      assert s == digits;
      StripNoSpace(s);
      assert s[0] != '-' && s[0] != '+';
    } else {
      assert s == "-" + digits && s[1..] == digits;
      assert s[|s| - 1] == digits[|digits| - 1];
      StripNoSpace(s);
      assert s[0] == '-';
    }
  }

  lemma DigitsAreGroups(s: string)
    requires |s| >= 1 && AllDigits(s)
    ensures DigitGroups(s) && DropUnderscores(s) == s
    ensures !IsSpace(s[0]) && !IsSpace(s[|s| - 1])
  {
    DropUnderscoresDigits(s);
  }
}
