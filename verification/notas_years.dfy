/** The years the story audit covers and the order it writes each year's
    stories in. `YEARS_TO_AUDIT` is a comma-separated list of years, closed
    ranges `A-B` and open ranges `N-` ("N and every earlier year the site
    has stories for"); each site resolves the open ranges against the
    publish date of its oldest story, then audits the distinct years from
    the greatest down. */
module Years {
  import opened Wrappers
  import opened Json
  import opened Seqs
  import opened Text
  import opened Order
  import opened Times
  import opened Stories

  /* ------------------------------------------------------------- parsing */

  /** `[str(y) for y in range(a, b + 1)]`. */
  function YearRange(a: int, b: int): (r: seq<string>)
    ensures |r| == if a <= b then b - a + 1 else 0
    ensures forall i :: 0 <= i < |r| ==> r[i] == IntToString(a + i)
  {
    seq(if a <= b then b - a + 1 else 0, i => IntToString(a + i))
  }

  /** What one part of the list contributes: a closed range `A-B` of two
      integers expands to its years; an open range `N-` (text before the
      dash, nothing after) and a range whose ends are not integers are kept
      as written; a part without a dash is kept as written. */
  function ExpandPart(part: string): (r: seq<string>)
    ensures '-' !in part ==> r == [part]
  {
    if '-' !in part then [part]
    else
      var (start, end) := SplitOnce(part, '-');
      if start != "" && end == "" then [part]
      else
        match (ParseInt(start), ParseInt(end))
        case (Some(a), Some(b)) => YearRange(a, b)
        case _ => [part]
  }

  /** The year list of `YEARS_TO_AUDIT`: comma parts stripped, blank parts
      dropped, each part expanded in order. A year is listed iff some
      non-blank comma part, stripped, expands to it. */
  function ParseYears(text: string): (r: seq<string>)
    ensures forall y :: y in r <==> Listed(Split(text, ','), y)
  {
    var r := FlatMap(NonBlank(Split(text, ',')), ExpandPart);
    forall y ensures y in r <==> Listed(Split(text, ','), y) {
      ListedMembers(Split(text, ','), y);
    }
    r
  }

  /** Some non-blank comma piece, stripped, expands to `y`. */
  ghost predicate Listed(pieces: seq<string>, y: string)
  {
    exists i :: 0 <= i < |pieces| && Strip(pieces[i]) != "" && y in ExpandPart(Strip(pieces[i]))
  }

  lemma ListedMembers(pieces: seq<string>, y: string)
    ensures y in FlatMap(NonBlank(pieces), ExpandPart) <==> Listed(pieces, y)
  {
    NonBlankFlatMapMembers(pieces, ExpandPart, y);
  }

  /** A list written out with commas parses part by part: each part
      stripped, blank parts dropped, the rest expanded in order. Parts that
      are already stripped and non-blank are expanded as they are. */
  lemma ParseYearsOfList(parts: seq<string>)
    requires |parts| >= 1
    requires forall i :: 0 <= i < |parts| ==> ',' !in parts[i]
    ensures ParseYears(Join(parts, ',')) == FlatMap(NonBlank(parts), ExpandPart)
    ensures (forall i :: 0 <= i < |parts| ==> parts[i] != "" && !IsSpace(parts[i][0]) && !IsSpace(parts[i][|parts[i]| - 1]))
              ==> ParseYears(Join(parts, ',')) == FlatMap(parts, ExpandPart)
  {
    SplitJoin(parts, ',');
    if forall i :: 0 <= i < |parts| ==> parts[i] != "" && !IsSpace(parts[i][0]) && !IsSpace(parts[i][|parts[i]| - 1]) {
      NonBlankKeeps(parts);
    }
  }

  /** Padding and blank parts: `" 2021 , ,2022"` lists 2021 and 2022. */
  lemma PaddedListExample()
    ensures ParseYears(" 2021 , ,2022") == ["2021", "2022"]
  {
    var parts := [" 2021 ", " ", "2022"];
    JoinExample();
    ParseYearsOfList(parts);
    NonBlankExample();
    PlainYearsExample();
  }

  lemma JoinExample()
    ensures Join([" 2021 ", " ", "2022"], ',') == " 2021 , ,2022"
  {
  }

  lemma NonBlankExample()
    ensures NonBlank([" 2021 ", " ", "2022"]) == ["2021", "2022"]
  {
    StripExamples();
    NonBlankConcat([" 2021 "], [" ", "2022"]);
    NonBlankConcat([" "], ["2022"]);
    assert [" 2021 "] + [" ", "2022"] == [" 2021 ", " ", "2022"];
  }

  lemma StripExamples()
    ensures Strip(" 2021 ") == "2021" && Strip(" ") == "" && Strip("2022") == "2022"
  {
    assert FirstNonSpace(" 2021 ", 0) == 1;
    assert EndNonSpace(" 2021 ", 1, 6) == 5;
    assert FirstNonSpace(" ", 0) == 1;
    StripNoSpace("2022");
  }

  lemma PlainYearsExample()
    ensures FlatMap(["2021", "2022"], ExpandPart) == ["2021", "2022"]
  {
    FlatMapConcat(["2021"], ["2022"], ExpandPart);
    FlatMapOne("2021", ExpandPart);
    FlatMapOne("2022", ExpandPart);
    assert ["2021"] + ["2022"] == ["2021", "2022"];
  }

  /** `A-B` with two years expands to `A, A + 1, ..., B`, and to nothing when
      `A > B`. */
  lemma ClosedRangeExpands(a: nat, b: nat)
    ensures ExpandPart(IntToString(a) + "-" + IntToString(b)) == YearRange(a, b)
  {
    var s, t := IntToString(a), IntToString(b);
    var part := s + "-" + t;
    NoDashInNumeral(a);
    assert part == s + ['-'] + t;
    assert part[|s|] == '-';
    SplitAtFirst(s, t, '-');
    ParseIntOfIntToString(a);
    ParseIntOfIntToString(b);
  }

  /** `N-` is kept as written, to be resolved per site. */
  lemma OpenRangeKept(n: nat)
    ensures ExpandPart(IntToString(n) + "-") == [IntToString(n) + "-"]
  {
    var s := IntToString(n);
    NoDashInNumeral(n);
    SplitAtFirst(s, "", '-');
    assert s + [('-')] + "" == s + "-";
  }

  lemma NoDashInNumeral(n: nat)
    ensures '-' !in IntToString(n) && IntToString(n) != ""
  {
    assert IntToString(n) == NatToString(n);
  }

  /** Splitting `a + [sep] + b` at its first separator, when `a` holds none. */
  lemma {:induction false} SplitAtFirst(a: string, b: string, sep: char)
    requires sep !in a
    ensures sep in a + [sep] + b
    ensures SplitOnce(a + [sep] + b, sep) == (a, b)
    decreases |a|
  {
    var s := a + [sep] + b;
    assert s[|a|] == sep;
    if |a| > 0 {
      assert s[1..] == a[1..] + [sep] + b;
      SplitAtFirst(a[1..], b, sep);
      assert a == [a[0]] + a[1..];
    } else {
      assert s[1..] == b;
    }
  }

  /* ----------------------------------------------------------- resolving */

  /** `[str(y) for y in range(start, low - 1, -1)]`: from `start` down to
      `low`. */
  function YearsDown(start: int, low: int): (r: seq<string>)
    ensures |r| == if low <= start then start - low + 1 else 0
    ensures forall i :: 0 <= i < |r| ==> r[i] == IntToString(start - i)
  {
    seq(if low <= start then start - low + 1 else 0, i => IntToString(start - i))
  }

  /** The year of the oldest story's publish date, read with `parse_iso`:
      a value that is no string, or a string no parser accepts, has no
      year. */
  function MinYear(minDate: Value, fromIso: string -> Option<DateTime>): Option<int> {
    match minDate
    case Str(s) =>
      (match ParseIsoLenient(s, fromIso)
       case Some(d) => Some(d.year)
       case None => None)
    case _ => None
  }

  /** What one part contributes for a site whose oldest story was published
      at `minDate` (None when the site has no stories or the request
      failed): an open range `N-` with an integer `N` gives the years from
      `N` down to the site's first year; a site without stories, or an `N`
      that is no integer, gives nothing; any other part is kept. A publish
      date without a year raises AttributeError (`None.year`). */
  function ResolvePart(part: string, minDate: Value, fromIso: string -> Option<DateTime>): (r: Result<seq<string>>)
    ensures !EndsWith(part, "-") ==> r == Success([part])
    ensures r.Failure? ==> r.error == AttributeError && Truthy(minDate) && MinYear(minDate, fromIso).None?
  {
    if !EndsWith(part, "-") then Success([part])
    else
      match ParseInt(part[..|part| - 1])
      case None => Success([])
      case Some(start) =>
        if !Truthy(minDate) then Success([])
        else
          match MinYear(minDate, fromIso)
          case None => Failure(AttributeError)
          case Some(low) => Success(YearsDown(start, low))
  }

  function Resolver(minDate: Value, fromIso: string -> Option<DateTime>): string -> Result<seq<string>> {
    part => ResolvePart(part, minDate, fromIso)
  }

  /** The years audited for one site: every part resolved, then
      `sorted(set(...), reverse=True)`. */
  function ResolveYears(years: seq<string>, minDate: Value, fromIso: string -> Option<DateTime>): (r: Result<seq<string>>)
    ensures r.Success? ==> StrictlyDescending(r.value)
    ensures r.Failure? <==> exists i :: 0 <= i < |years| && ResolvePart(years[i], minDate, fromIso).Failure?
  {
    var resolved :- CollectAll(years, Resolver(minDate, fromIso));
    Success(SortedSetDescending(resolved))
  }

  /** A year is audited exactly when some part resolves to it. */
  lemma ResolveYearsMembers(years: seq<string>, minDate: Value, fromIso: string -> Option<DateTime>, y: string)
    requires ResolveYears(years, minDate, fromIso).Success?
    ensures y in ResolveYears(years, minDate, fromIso).value <==>
      exists i :: 0 <= i < |years| && ResolvePart(years[i], minDate, fromIso).Success? && y in ResolvePart(years[i], minDate, fromIso).value
  {
    var resolved := CollectAll(years, Resolver(minDate, fromIso)).value;
    CollectAllMembers(years, Resolver(minDate, fromIso), y);
    assert y in Elems(resolved) <==> y in resolved;
    assert y in Elems(SortedSetDescending(resolved)) <==> y in SortedSetDescending(resolved);
  }

  /** `N-` on a site whose first story dates from year `low` resolves to
      `N, N - 1, ..., low`. */
  lemma OpenRangeResolves(n: nat, minDate: Value, fromIso: string -> Option<DateTime>, low: int)
    requires Truthy(minDate) && MinYear(minDate, fromIso) == Some(low)
    ensures ResolvePart(IntToString(n) + "-", minDate, fromIso) == Success(YearsDown(n, low))
  {
    var s := IntToString(n);
    var part := s + "-";
    assert EndsWith(part, "-");
    assert part[..|part| - 1] == s;
    ParseIntOfIntToString(n);
    assert ParseInt(part[..|part| - 1]) == Some(n);
  }

  /** The per-year loop's `int(year)`, which raises ValueError on the
      first year that is no integer. */
  function YearNumber(year: string): (r: Result<seq<int>>)
    ensures r.Success? <==> ParseInt(year).Some?
    ensures r.Success? ==> r.value == [ParseInt(year).value]
  {
    match ParseInt(year)
    case None => Failure(ValueError)
    case Some(n) => Success([n])
  }

  function YearNumbers(years: seq<string>): Result<seq<int>> {
    CollectAll(years, YearNumber)
  }

  /** Years written out by `str` read back as themselves. */
  lemma {:induction false} YearNumbersOfNumerals(years: seq<string>, ns: seq<int>)
    requires |years| == |ns|
    requires forall i :: 0 <= i < |ns| ==> years[i] == IntToString(ns[i])
    ensures YearNumbers(years) == Success(ns)
    decreases |ns|
  {
    if |ns| > 0 {
      ParseIntOfIntToString(ns[0]);
      assert YearNumber(years[0]) == Success([ns[0]]);
      YearNumbersOfNumerals(years[1..], ns[1..]);
      CollectAllCons(years, YearNumber);
      assert ns == [ns[0]] + ns[1..];
    }
  }

  /* ------------------------------------------------------------- sorting */

  /** `parse_iso(pub)` of a tuple's publish date: a value that is no string
      makes `parse_iso` fail inside its own `try` and give None. */
  function PubDate(pub: Value, fromIso: string -> Option<DateTime>): Option<DateTime> {
    match pub
    case Str(s) => ParseIsoLenient(s, fromIso)
    case _ => None
  }

  predicate Undated(t: StoryTuple, fromIso: string -> Option<DateTime>) {
    PubDate(t.publishDate, fromIso).None?
  }

  /** The sort key as written, `parse_iso(pub) or datetime.min`, as a count
      of seconds. */
  function KeyAsWritten(fromIso: string -> Option<DateTime>): StoryTuple -> int {
    (t: StoryTuple) => match PubDate(t.publishDate, fromIso)
                        case Some(d) => ToSeconds(d)
                        case None => ToSeconds(MinDateTime)
  }

  /** The sort key the comment describes: undated stories after every
      datetime. */
  function KeyUndatedLast(fromIso: string -> Option<DateTime>): StoryTuple -> int {
    (t: StoryTuple) => match PubDate(t.publishDate, fromIso)
                        case Some(d) => ToSeconds(d)
                        case None => SecondsLimit
  }

  /** `sorted(story_tuples, key=_parse_pub)` as written. */
  function SortTuplesAsWritten(ts: seq<StoryTuple>, fromIso: string -> Option<DateTime>): (r: seq<StoryTuple>)
    ensures multiset(r) == multiset(ts)
    ensures SortedBy(r, KeyAsWritten(fromIso))
  {
    SortBy(ts, KeyAsWritten(fromIso))
  }

  /** The sort with undated stories last. */
  function SortTuples(ts: seq<StoryTuple>, fromIso: string -> Option<DateTime>): (r: seq<StoryTuple>)
    ensures multiset(r) == multiset(ts)
    ensures SortedBy(r, KeyUndatedLast(fromIso))
  {
    SortBy(ts, KeyUndatedLast(fromIso))
  }

  /** Only `datetime.min` itself counts zero seconds. */
  lemma ZeroSecondsIsMin(d: DateTime)
    requires d != MinDateTime
    ensures ToSeconds(d) > 0
  {
    if d.year > 1 {
      assert DaysBeforeYear(d.year) >= DaysInYear(d.year - 1) > 0;
    } else if d.month > 1 {
      assert DaysBeforeMonth(d.year, d.month) >= 31;
    }
  }

  /** As written, an undated story sorts before every story dated after
      `datetime.min`: it is written first, not last. */
  lemma UndatedFirstAsWritten(ts: seq<StoryTuple>, fromIso: string -> Option<DateTime>, i: int, j: int)
    requires 0 <= i < j < |SortTuplesAsWritten(ts, fromIso)|
    requires var r := SortTuplesAsWritten(ts, fromIso);
      PubDate(r[i].publishDate, fromIso).Some? && PubDate(r[i].publishDate, fromIso).value != MinDateTime
    ensures !Undated(SortTuplesAsWritten(ts, fromIso)[j], fromIso)
  {
    var r := SortTuplesAsWritten(ts, fromIso);
    ZeroSecondsIsMin(PubDate(r[i].publishDate, fromIso).value);
    assert KeyAsWritten(fromIso)(r[i]) <= KeyAsWritten(fromIso)(r[j]);
  }

  /** The input that shows it: a story published at any `d` after
      `datetime.min`, say 2020-01-01T00:00:00Z, followed by one without a
      publish date, comes out second. */
  lemma UndatedFirstExample(d: DateTime, fromIso: string -> Option<DateTime>)
    requires d != MinDateTime
    ensures var dated := StoryTuple(Str("a"), Str(DtToIso(d)), None);
      var undated := StoryTuple(Str("b"), Null, None);
      SortTuplesAsWritten([dated, undated], fromIso) == [undated, dated]
      && SortTuples([dated, undated], fromIso) == [dated, undated]
  {
    var dated := StoryTuple(Str("a"), Str(DtToIso(d)), None);
    var undated := StoryTuple(Str("b"), Null, None);
    KeysOfDated(dated, undated, d, fromIso);
    SortByTwo(dated, undated, KeyAsWritten(fromIso));
    SortByTwo(dated, undated, KeyUndatedLast(fromIso));
  }

  lemma KeysOfDated(dated: StoryTuple, undated: StoryTuple, d: DateTime, fromIso: string -> Option<DateTime>)
    requires dated.publishDate == Str(DtToIso(d)) && undated.publishDate == Null
    requires d != MinDateTime
    ensures KeyAsWritten(fromIso)(dated) > KeyAsWritten(fromIso)(undated)
    ensures KeyUndatedLast(fromIso)(dated) < KeyUndatedLast(fromIso)(undated)
  {
    ParseIsoOfDtToIso(d, fromIso);
    assert PubDate(dated.publishDate, fromIso) == Some(d);
    ZeroSecondsIsMin(d);
    SecondsRoundTrip(d);
  }

  /** With the intended key every dated story comes before every undated
      one, and the dated ones are in publication order. */
  lemma UndatedLast(ts: seq<StoryTuple>, fromIso: string -> Option<DateTime>, i: int, j: int)
    requires 0 <= i < j < |SortTuples(ts, fromIso)|
    ensures var r := SortTuples(ts, fromIso);
      Undated(r[i], fromIso) ==> Undated(r[j], fromIso)
    ensures var r := SortTuples(ts, fromIso);
      !Undated(r[j], fromIso) ==> ToSeconds(PubDate(r[i].publishDate, fromIso).value) <= ToSeconds(PubDate(r[j].publishDate, fromIso).value)
  {
    var r := SortTuples(ts, fromIso);
    assert KeyUndatedLast(fromIso)(r[i]) <= KeyUndatedLast(fromIso)(r[j]);
    if !Undated(r[j], fromIso) {
      SecondsRoundTrip(PubDate(r[j].publishDate, fromIso).value);
    }
  }
}
