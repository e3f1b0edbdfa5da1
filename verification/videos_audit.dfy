/** The video audit: for one site, the ids of its videos, paired with the
    site's name. A site within the result window is paged through directly;
    a larger one is read window by window between the publish dates of its
    oldest and newest video, capped at the deletion cutoff. Requests are
    inputs: a page is the reply to a request, or None when the request
    raised RequestException. */
module Videos {
  import opened Wrappers
  import opened Json
  import opened Seqs
  import opened Times
  import opened Windows
  import opened Search

  /* ------------------------------------------------------------ requests */

  /** The parameters every page request starts from. */
  function DefaultParams(site: string, offset: int, query: string, size: int): Fields {
    [ ("website", Str(site)), ("q", Str(query)), ("size", Num(size)), ("from", Num(offset)),
      ("_sourceInclude", Str("_id,publish_date")), ("track_total_hits", Str("true")) ]
  }

  /** `fetch_video_page`'s parameters: the defaults, updated with
      `extra_params` when there are any. */
  function PageParams(site: string, offset: int, query: string, size: int, extra: Fields): Fields {
    var params := DefaultParams(site, offset, query, size);
    if |extra| == 0 then params else Update(params, extra)
  }

  /** Every key of `extra_params` reads as given there, every other key as
      in the defaults, and no default key is dropped. */
  lemma PageParamsLookup(site: string, offset: int, query: string, size: int, extra: Fields, k: string)
    requires DistinctKeys(extra)
    ensures Lookup(PageParams(site, offset, query, size, extra), k)
      == if HasKey(extra, k) then Lookup(extra, k) else Lookup(DefaultParams(site, offset, query, size), k)
    ensures Keys(DefaultParams(site, offset, query, size)) <= Keys(PageParams(site, offset, query, size, extra))
  {
    UpdateLookup(DefaultParams(site, offset, query, size), extra, k);
  }

  /** Without extra parameters a request asks for `size` videos from
      `offset` of query `query` on `site`. */
  lemma DefaultParamsRead(site: string, offset: int, query: string, size: int)
    ensures var ps := PageParams(site, offset, query, size, []);
      && Lookup(ps, "website") == Some(Str(site))
      && Lookup(ps, "q") == Some(Str(query))
      && Lookup(ps, "size") == Some(Num(size))
      && Lookup(ps, "from") == Some(Num(offset))
  {
    var ps := PageParams(site, offset, query, size, []);
    assert ps[0].0 == "website" && ps[1].0 == "q" && ps[2].0 == "size" && ps[3].0 == "from";
    assert Lookup(ps, "q") == Lookup(ps[1..], "q");
    assert Lookup(ps, "size") == Lookup(ps[1..], "size") == Lookup(ps[2..], "size");
    assert Lookup(ps, "from") == Lookup(ps[1..], "from") == Lookup(ps[2..], "from") == Lookup(ps[3..], "from");
  }

  /** An end of a date window: a datetime, or any other value, which the
      query shows as `str` gives it. */
  datatype DateArg = Dt(d: DateTime) | Raw(text: string)

  function ShowDate(a: DateArg): string {
    match a
    case Dt(d) => DtToIso(d)
    case Raw(t) => t
  }

  const QueryHead: string := "type:video AND publish_date:["

  /** `format_date_query`. */
  function FormatDateQuery(s: DateArg, e: DateArg): string {
    QueryHead + ShowDate(s) + " TO " + ShowDate(e) + "]"
  }

  /** The query for two datetimes has a fixed layout, and both ends read
      back, with either date parser, as the datetimes it was made from. */
  lemma QueryBounds(a: DateTime, b: DateTime, fromIso: string -> Option<DateTime>)
    ensures var q := FormatDateQuery(Dt(a), Dt(b));
      var n := |QueryHead|;
      && |q| == n + 45
      && q[..n] == QueryHead && q[n + 20..n + 24] == " TO " && q[n + 44] == ']'
      && ParseIsoStrict(q[n..n + 20], fromIso) == Success(Some(a))
      && ParseIsoStrict(q[n + 24..n + 44], fromIso) == Success(Some(b))
  {
    QueryLayout(DtToIso(a), DtToIso(b));
    ParseIsoOfDtToIso(a, fromIso);
    ParseIsoOfDtToIso(b, fromIso);
  }

  /** Where the two ends of a date window sit in its query. */
  lemma QueryLayout(sa: string, sb: string)
    requires |sa| == 20 && |sb| == 20
    ensures var q := QueryHead + sa + " TO " + sb + "]";
      var n := |QueryHead|;
      && |q| == n + 45
      && q[..n] == QueryHead && q[n + 20..n + 24] == " TO " && q[n + 44] == ']'
      && q[n..n + 20] == sa && q[n + 24..n + 44] == sb
  {
  }

  /* --------------------------------------------------------------- pages */

  /** One line of the report: a video id and the site it was found on. */
  datatype VideoRow = VideoRow(id: Value, site: string)

  /** The id a search hit contributes: `item.get("_id")` when truthy. */
  function RowOf(site: string, item: Value): (r: Result<seq<VideoRow>>)
    ensures !item.Obj? <==> r == Failure(AttributeError)
    ensures r.Failure? ==> r.error == AttributeError
    ensures r.Success? ==> (|r.value| == 1 <==> HasId(item))
    ensures r.Success? && HasId(item) ==> r.value == [VideoRow(Get(item, "_id"), site)]
    ensures r.Success? && !HasId(item) ==> r.value == []
  {
    if !item.Obj? then Failure(AttributeError)
    else if Truthy(Get(item, "_id")) then Success([VideoRow(Get(item, "_id"), site)])
    else Success([])
  }

  function ItemRow(site: string): Value -> Result<seq<VideoRow>> {
    item => RowOf(site, item)
  }

  predicate HasId(item: Value) {
    item.Obj? && Truthy(Get(item, "_id"))
  }

  predicate AllHaveIds(items: seq<Value>) {
    forall i :: 0 <= i < |items| ==> HasId(items[i])
  }

  /** A row names the site and a truthy id. */
  predicate RowOfSite(site: string, row: VideoRow) {
    row.site == site && Truthy(row.id)
  }

  predicate RowsOfSite(site: string, rows: seq<VideoRow>) {
    forall row :: row in rows ==> RowOfSite(site, row)
  }

  /** How far a page moves the offset. As written, by the number of ids it
      held (`len(page_items)`); as intended, by the number of hits it held,
      so a hit without an id is still stepped over. */
  datatype Advance = ByIds | ByHits

  /** The rows of a reply and how far it moves the offset; a step of zero
      ends the loop (`if not page_items: break`, or an empty page). */
  function ReadPage(adv: Advance, site: string, data: Value): (r: Result<(seq<VideoRow>, nat)>)
    ensures r.Success? <==> Contents(data).Success? && CollectAll(Contents(data).value, ItemRow(site)).Success?
    ensures r.Success? ==>
      && r.value.0 == CollectAll(Contents(data).value, ItemRow(site)).value
      && r.value.1 == (if adv.ByIds? then |r.value.0| else |Contents(data).value|)
    ensures r.Success? ==> RowsOfSite(site, r.value.0)
    ensures r.Failure? ==> r.error == AttributeError || r.error == TypeError
  {
    match Contents(data)
    case Failure(e) => Failure(e)
    case Success(contents) =>
      match CollectAll(contents, ItemRow(site))
      case Failure(e) => Failure(e)
      case Success(rows) =>
        CollectAllAll(contents, ItemRow(site), (row: VideoRow) => RowOfSite(site, row));
        Success((rows, if adv.ByIds? then |rows| else |contents|))
  }

  /** The rows of a window after offset `offset` (`retrieve_window`'s
      `while True` loop): read a page, stop on a step of zero, keep its rows,
      and stop once the offset reaches the page's own `count`. Followed for
      at most `fuel` requests. */
  function WindowRows(adv: Advance, offset: int, page: int -> Option<Value>, site: string, fuel: nat): (r: Result<seq<VideoRow>>)
    ensures r.Success? ==> RowsOfSite(site, r.value)
    decreases fuel, 0
  {
    if fuel == 0 then Failure(OutOfFuel)
    else
      match page(offset)
      case None => Failure(RequestFailed)
      case Some(data) => WindowNext(adv, offset, page, site, fuel - 1, data, ReadPage(adv, site, data))
  }

  function WindowNext(adv: Advance, offset: int, page: int -> Option<Value>, site: string, fuel: nat, data: Value, read: Result<(seq<VideoRow>, nat)>): (r: Result<seq<VideoRow>>)
    requires read == ReadPage(adv, site, data)
    ensures r.Success? ==> RowsOfSite(site, r.value)
    decreases fuel, 2
  {
    if read.Failure? then Failure(read.error)
    else if read.value.1 == 0 then Success([])
    else
      match AsInt(CountOf(data))
      case None => Failure(TypeError)
      case Some(count) => Then(Success(read.value.0), WindowMore(adv, offset + read.value.1, count, page, site, fuel))
  }

  function WindowMore(adv: Advance, next: int, count: int, page: int -> Option<Value>, site: string, fuel: nat): (r: Result<seq<VideoRow>>)
    ensures r.Success? ==> RowsOfSite(site, r.value)
    decreases fuel, 1
  {
    if next >= count then Success([]) else WindowRows(adv, next, page, site, fuel)
  }

  /** What the page loops can fail with: a failed request, a malformed
      reply, or running out of requests. */
  predicate LoopFault(e: Fault) {
    e in {AttributeError, TypeError, OutOfFuel, RequestFailed}
  }

  /** The rows of a small site after its first page (`get_videos_for_site`'s
      `while from_offset < total_hits` loop): stop at the total, or on a
      step of zero. */
  function FlatRows(adv: Advance, total: int, offset: int, page: int -> Option<Value>, site: string, fuel: nat): (r: Result<seq<VideoRow>>)
    ensures r.Success? ==> RowsOfSite(site, r.value)
    ensures offset >= total ==> r == Success([])
    ensures r.Failure? ==> LoopFault(r.error)
    decreases fuel, 1
  {
    if offset >= total then Success([])
    else if fuel == 0 then Failure(OutOfFuel)
    else
      match page(offset)
      case None => Failure(RequestFailed)
      case Some(data) => FlatNext(adv, total, offset, page, site, fuel - 1, ReadPage(adv, site, data))
  }

  function FlatNext(adv: Advance, total: int, offset: int, page: int -> Option<Value>, site: string, fuel: nat, read: Result<(seq<VideoRow>, nat)>): (r: Result<seq<VideoRow>>)
    requires read.Success? ==> RowsOfSite(site, read.value.0)
    requires read.Failure? ==> LoopFault(read.error)
    ensures r.Success? ==> RowsOfSite(site, r.value)
    ensures r.Failure? ==> LoopFault(r.error)
    decreases fuel, 2
  {
    if read.Failure? then Failure(read.error)
    else if read.value.1 == 0 then Success([])
    else Then(Success(read.value.0), FlatRows(adv, total, offset + read.value.1, page, site, fuel))
  }

  /** One request of the window loop, unfolded. */
  lemma WindowStep(adv: Advance, offset: int, page: int -> Option<Value>, site: string, fuel: nat, less: nat, data: Value)
    requires fuel == less + 1 && page(offset) == Some(data)
    ensures WindowRows(adv, offset, page, site, fuel) == WindowNext(adv, offset, page, site, less, data, ReadPage(adv, site, data))
  {
    assert WindowRows(adv, offset, page, site, less + 1) == WindowNext(adv, offset, page, site, less, data, ReadPage(adv, site, data));
  }

  lemma FlatStep(adv: Advance, total: int, offset: int, page: int -> Option<Value>, site: string, fuel: nat, less: nat, data: Value)
    requires offset < total && fuel == less + 1 && page(offset) == Some(data)
    ensures FlatRows(adv, total, offset, page, site, fuel) == FlatNext(adv, total, offset, page, site, less, ReadPage(adv, site, data))
  {
    assert !(offset >= total) && fuel != 0;
    assert FlatRows(adv, total, offset, page, site, less + 1) == FlatNext(adv, total, offset, page, site, less, ReadPage(adv, site, data));
  }

  /* ------------------------------------------------- pages of a service */

  /** What a reply of a consistent service holds for the loops: the count
      of all hits, and a page whose rows come first among those of the hits
      from `offset` on; as intended it steps over the whole page, and as
      written too when every hit carries an id. */
  lemma ServedRead(adv: Advance, site: string, hits: seq<Value>, offset: int)
    requires 0 <= offset < |hits|
    requires adv.ByHits? || AllHaveIds(hits)
    ensures var read := ReadPage(adv, site, ServedReply(hits, offset));
      var next := offset + |PageOf(hits, offset)|;
      && offset < next <= |hits|
      && AsInt(CountOf(ServedReply(hits, offset))) == Some(|hits|)
      && (read.Failure? ==> CollectAll(hits[offset..], ItemRow(site)) == Failure(read.error))
      && (read.Success? ==>
            && read.value.1 == |PageOf(hits, offset)|
            && CollectAll(hits[offset..], ItemRow(site)) == Then(Success(read.value.0), CollectAll(hits[next..], ItemRow(site))))
  {
    ServedContents(hits, offset);
    ServedRows(adv, site, hits, offset);
  }

  lemma ServedRows(adv: Advance, site: string, hits: seq<Value>, offset: int)
    requires 0 <= offset < |hits|
    requires adv.ByHits? || AllHaveIds(hits)
    ensures var read := ReadPage(adv, site, ServedReply(hits, offset));
      var next := offset + |PageOf(hits, offset)|;
      && (read.Failure? ==> CollectAll(hits[offset..], ItemRow(site)) == Failure(read.error))
      && (read.Success? ==>
            && read.value.1 == |PageOf(hits, offset)|
            && CollectAll(hits[offset..], ItemRow(site)) == Then(Success(read.value.0), CollectAll(hits[next..], ItemRow(site))))
  {
    var page := PageOf(hits, offset);
    var next := offset + |page|;
    var read := ReadPage(adv, site, ServedReply(hits, offset));
    ServedContents(hits, offset);
    ServedSplit(site, hits, offset, next);
    if read.Success? {
      assert CollectAll(page, ItemRow(site)) == Success(read.value.0);
      if adv.ByIds? {
        PageIds(hits, offset);
        OneRowEach(page, site);
      }
    }
  }

  /** A page of hits that all carry an id holds only hits with ids. */
  lemma PageIds(hits: seq<Value>, offset: int)
    requires 0 <= offset < |hits| && AllHaveIds(hits)
    ensures AllHaveIds(PageOf(hits, offset))
  {
    var page := PageOf(hits, offset);
    forall i | 0 <= i < |page| ensures HasId(page[i]) {
      assert page[i] == hits[offset + i];
    }
  }

  /** The hits from `offset` are the served page and the hits after it. */
  lemma ServedSplit(site: string, hits: seq<Value>, offset: int, next: int)
    requires 0 <= offset < |hits| && next == offset + |PageOf(hits, offset)|
    ensures CollectAll(hits[offset..], ItemRow(site))
      == Then(CollectAll(PageOf(hits, offset), ItemRow(site)), CollectAll(hits[next..], ItemRow(site)))
  {
    var page, rest := PageOf(hits, offset), hits[offset..];
    assert page == rest[..|page|];
    assert rest[|page|..] == hits[next..];
    CollectAllSplit(rest, |page|, ItemRow(site));
  }

  /** Hits that all carry an id give one row each. */
  lemma {:induction false} OneRowEach(items: seq<Value>, site: string)
    requires AllHaveIds(items)
    ensures CollectAll(items, ItemRow(site)).Success?
    ensures |CollectAll(items, ItemRow(site)).value| == |items|
    decreases |items|
  {
    if |items| > 0 {
      CollectAllCons(items, ItemRow(site));
      assert AllHaveIds(items[1..]) by {
        forall i | 0 <= i < |items[1..]| ensures HasId(items[1..][i]) {
          assert items[1..][i] == items[i + 1];
        }
      }
      OneRowEach(items[1..], site);
    }
  }

  /** Against a consistent service the intended window loop keeps the rows
      of every hit from `offset` on, in order; so does the loop as written
      when every hit carries an id. */
  lemma ServedWindowRows(adv: Advance, site: string, hits: seq<Value>, offset: int, fuel: nat)
    requires 0 <= offset <= |hits|
    requires adv.ByHits? || AllHaveIds(hits)
    requires fuel > |hits| - offset
    ensures WindowRows(adv, offset, Served(hits), site, fuel) == CollectAll(hits[offset..], ItemRow(site))
  {
    WindowServes(adv, site, hits, offset);
  }

  /** With enough fuel the window loop from `offset` reads the rows of the
      hits from there. */
  ghost predicate WindowReads(adv: Advance, site: string, hits: seq<Value>, offset: int)
    requires 0 <= offset <= |hits|
  {
    forall fuel: nat :: fuel > |hits| - offset ==>
      WindowRows(adv, offset, Served(hits), site, fuel) == CollectAll(hits[offset..], ItemRow(site))
  }

  lemma {:induction false} WindowServes(adv: Advance, site: string, hits: seq<Value>, offset: int)
    requires 0 <= offset <= |hits|
    requires adv.ByHits? || AllHaveIds(hits)
    ensures WindowReads(adv, site, hits, offset)
    decreases |hits| - offset
  {
    if offset == |hits| {
      forall fuel: nat | fuel > 0
        ensures WindowRows(adv, offset, Served(hits), site, fuel) == CollectAll(hits[offset..], ItemRow(site))
      {
        ServedEnd(adv, site, hits, fuel);
      }
    } else {
      var next := offset + |PageOf(hits, offset)|;
      if next < |hits| {
        WindowServes(adv, site, hits, next);
      }
      ServedWindowStep(adv, site, hits, offset, next);
    }
  }

  /** Past the last hit the service answers an empty page. */
  lemma ServedEnd(adv: Advance, site: string, hits: seq<Value>, fuel: nat)
    requires fuel > 0
    ensures WindowRows(adv, |hits|, Served(hits), site, fuel) == CollectAll(hits[|hits|..], ItemRow(site))
  {
    var data := ServedReply(hits, |hits|);
    ServedContents(hits, |hits|);
    assert PageOf(hits, |hits|) == [];
    assert hits[|hits|..] == [];
    WindowStep(adv, |hits|, Served(hits), site, fuel, fuel - 1, data);
  }

  /** One page of the served window loop, the rest taken as known. */
  lemma ServedWindowStep(adv: Advance, site: string, hits: seq<Value>, offset: int, next: int)
    requires 0 <= offset < |hits|
    requires adv.ByHits? || AllHaveIds(hits)
    requires next == offset + |PageOf(hits, offset)|
    requires next < |hits| ==> WindowReads(adv, site, hits, next)
    ensures WindowReads(adv, site, hits, offset)
  {
    forall fuel: nat | fuel > |hits| - offset
      ensures WindowRows(adv, offset, Served(hits), site, fuel) == CollectAll(hits[offset..], ItemRow(site))
    {
      ServedRest(adv, site, hits, next, fuel - 1);
      ServedWindowAt(adv, site, hits, offset, next, fuel);
    }
  }

  /** After a page the window loop reads the rest of the hits, if any. */
  lemma ServedRest(adv: Advance, site: string, hits: seq<Value>, next: int, fuel: nat)
    requires 0 < next <= |hits| && fuel > |hits| - next
    requires next < |hits| ==> WindowReads(adv, site, hits, next)
    ensures WindowMore(adv, next, |hits|, Served(hits), site, fuel) == CollectAll(hits[next..], ItemRow(site))
  {
    if next == |hits| {
      assert hits[next..] == [];
      var none: seq<VideoRow> := [];
      assert CollectAll(hits[next..], ItemRow(site)) == Success(none);
    }
  }

  /** One page of the window loop, then the rest as known. */
  lemma ServedWindowAt(adv: Advance, site: string, hits: seq<Value>, offset: int, next: int, fuel: nat)
    requires 0 <= offset < |hits| && fuel > |hits| - offset
    requires adv.ByHits? || AllHaveIds(hits)
    requires next == offset + |PageOf(hits, offset)|
    requires WindowMore(adv, next, |hits|, Served(hits), site, fuel - 1) == CollectAll(hits[next..], ItemRow(site))
    ensures WindowRows(adv, offset, Served(hits), site, fuel) == CollectAll(hits[offset..], ItemRow(site))
  {
    var data := ServedReply(hits, offset);
    var read := ReadPage(adv, site, data);
    ServedRead(adv, site, hits, offset);
    WindowStep(adv, offset, Served(hits), site, fuel, fuel - 1, data);
    if read.Success? {
      assert offset + read.value.1 == next;
      WindowNextMore(adv, offset, Served(hits), site, fuel - 1, data, read, |hits|);
    } else {
      assert WindowNext(adv, offset, Served(hits), site, fuel - 1, data, read) == Failure(read.error);
    }
  }

  /** A page read with rows and a count goes on to the rest of the window. */
  lemma WindowNextMore(adv: Advance, offset: int, page: int -> Option<Value>, site: string, fuel: nat, data: Value, read: Result<(seq<VideoRow>, nat)>, count: int)
    requires read == ReadPage(adv, site, data) && read.Success? && read.value.1 > 0
    requires AsInt(CountOf(data)) == Some(count)
    ensures WindowNext(adv, offset, page, site, fuel, data, read)
      == Then(Success(read.value.0), WindowMore(adv, offset + read.value.1, count, page, site, fuel))
  {
  }

  /** Against a consistent service the intended loop of a small site keeps
      the rows of every hit from `offset` on; so does the loop as written
      when every hit carries an id. */
  lemma ServedFlatRows(adv: Advance, site: string, hits: seq<Value>, offset: int, fuel: nat)
    requires 0 <= offset <= |hits|
    requires adv.ByHits? || AllHaveIds(hits)
    requires fuel >= |hits| - offset
    ensures FlatRows(adv, |hits|, offset, Served(hits), site, fuel) == CollectAll(hits[offset..], ItemRow(site))
  {
    FlatServes(adv, site, hits, offset);
  }

  /** With enough fuel the loop of a small site from `offset` reads the rows
      of the hits from there. */
  ghost predicate FlatReads(adv: Advance, site: string, hits: seq<Value>, offset: int)
    requires 0 <= offset <= |hits|
  {
    forall fuel: nat :: fuel >= |hits| - offset ==>
      FlatRows(adv, |hits|, offset, Served(hits), site, fuel) == CollectAll(hits[offset..], ItemRow(site))
  }

  lemma {:induction false} FlatServes(adv: Advance, site: string, hits: seq<Value>, offset: int)
    requires 0 <= offset <= |hits|
    requires adv.ByHits? || AllHaveIds(hits)
    ensures FlatReads(adv, site, hits, offset)
    decreases |hits| - offset
  {
    if offset == |hits| {
      assert hits[offset..] == [];
      var none: seq<VideoRow> := [];
      assert CollectAll(hits[offset..], ItemRow(site)) == Success(none);
    } else {
      var next := offset + |PageOf(hits, offset)|;
      ServedRead(adv, site, hits, offset);
      FlatServes(adv, site, hits, next);
      ServedFlatStep(adv, site, hits, offset, next);
    }
  }

  /** One page of the served loop of a small site, the rest taken as known. */
  lemma ServedFlatStep(adv: Advance, site: string, hits: seq<Value>, offset: int, next: int)
    requires 0 <= offset < next <= |hits|
    requires adv.ByHits? || AllHaveIds(hits)
    requires next == offset + |PageOf(hits, offset)|
    requires FlatReads(adv, site, hits, next)
    ensures FlatReads(adv, site, hits, offset)
  {
    forall fuel: nat | fuel >= |hits| - offset
      ensures FlatRows(adv, |hits|, offset, Served(hits), site, fuel) == CollectAll(hits[offset..], ItemRow(site))
    {
      ServedFlatAt(adv, site, hits, offset, next, fuel);
    }
  }

  lemma ServedFlatAt(adv: Advance, site: string, hits: seq<Value>, offset: int, next: int, fuel: nat)
    requires 0 <= offset < next <= |hits| && fuel >= |hits| - offset
    requires adv.ByHits? || AllHaveIds(hits)
    requires next == offset + |PageOf(hits, offset)|
    requires FlatReads(adv, site, hits, next)
    ensures FlatRows(adv, |hits|, offset, Served(hits), site, fuel) == CollectAll(hits[offset..], ItemRow(site))
  {
    var data := ServedReply(hits, offset);
    var read := ReadPage(adv, site, data);
    ServedRead(adv, site, hits, offset);
    var less: nat := fuel - 1;
    FlatStep(adv, |hits|, offset, Served(hits), site, fuel, less, data);
    if read.Success? {
      var rest := FlatRows(adv, |hits|, next, Served(hits), site, less);
      assert rest == CollectAll(hits[next..], ItemRow(site));
      assert FlatNext(adv, |hits|, offset, Served(hits), site, less, read) == Then(Success(read.value.0), rest);
    } else {
      assert FlatNext(adv, |hits|, offset, Served(hits), site, less, read) == Failure(read.error);
    }
  }

  /* ------------------------------------------------------------- windows */

  /** `fetch_count_for_query` and what its count decides: a failed request
      raises, a count of zero gives nothing, a count above the result
      window halves the window, and any other count reads the window's
      pages. */
  function ProbeVideos(adv: Advance, w: Window, count: Window -> Option<Value>, page: Window -> int -> Option<Value>, site: string, fuel: nat): (r: Result<Probe<VideoRow>>)
    ensures count(w).None? ==> r == Failure(RequestFailed)
    ensures count(w).Some? && !count(w).value.Obj? ==> r == Failure(AttributeError)
    ensures count(w).Some? && count(w).value.Obj? ==>
      && (r == Success(Halve) <==> Decide(CountOf(count(w).value)) == Success(Split))
      && (IsZero(CountOf(count(w).value)) ==> r == Success(Leaf([])))
    ensures r.Success? && r.value.Leaf? ==> RowsOfSite(site, r.value.items)
  {
    match count(w)
    case None => Failure(RequestFailed)
    case Some(data) =>
      if !data.Obj? then Failure(AttributeError)
      else
        var d :- Decide(CountOf(data));
        match d
        case NoHits => Success(Leaf([]))
        case Split => Success(Halve)
        case Fetch(_) => AsLeaf(WindowRows(adv, 0, page(w), site, fuel))
  }

  function VideoProber(adv: Advance, count: Window -> Option<Value>, page: Window -> int -> Option<Value>, site: string, fuel: nat): Window -> Result<Probe<VideoRow>> {
    (w: Window) => ProbeVideos(adv, w, count, page, site, fuel)
  }

  /** `collect_videos_by_date_range`: the rows of window `w`, every one of
      them naming the site. */
  function CollectVideosByDateRange(adv: Advance, w: Window, count: Window -> Option<Value>, page: Window -> int -> Option<Value>, site: string, fuel: nat): (r: Result<seq<VideoRow>>)
    ensures r.Success? ==> forall row :: row in r.value ==> RowOfSite(site, row)
  {
    var probe := VideoProber(adv, count, page, site, fuel);
    BisectKeeps(w, probe, (row: VideoRow) => RowOfSite(site, row));
    Bisect(w, probe)
  }

  /** A count within the result window reads the window's pages. */
  lemma ProbeFetches(adv: Advance, w: Window, count: Window -> Option<Value>, page: Window -> int -> Option<Value>, site: string, fuel: nat, data: Value, n: int)
    requires count(w) == Some(data) && data.Obj?
    requires Decide(CountOf(data)) == Success(Fetch(n))
    ensures ProbeVideos(adv, w, count, page, site, fuel) == AsLeaf(WindowRows(adv, 0, page(w), site, fuel))
  {
  }

  /** What the first request for a window of an archive decides, with the
      loop as intended, or as written when every video carries an id. */
  lemma ArchiveProbeVideos(adv: Advance, archive: seq<Hit>, w: Window, site: string, fuel: nat)
    requires adv.ByHits? || forall i :: 0 <= i < |archive| ==> HasId(archive[i].doc)
    requires fuel > MaxResultWindow
    ensures ProbesWindow(archive, VideoProber(adv, ArchiveCount(archive), ArchivePages(archive), site, fuel), ItemRow(site), w)
  {
    var hits := HitsIn(archive, w);
    var data := ServedReply(hits, 0);
    ServedContents(hits, 0);
    assert ArchiveCount(archive)(w) == Some(data);
    if 0 < |hits| <= MaxResultWindow {
      assert AsInt(CountOf(data)) == Some(|hits|);
      ProbeFetches(adv, w, ArchiveCount(archive), ArchivePages(archive), site, fuel, data, |hits|);
      assert ArchivePages(archive)(w) == Served(hits);
      if adv.ByIds? {
        HitsBetweenKeeps(archive, w.start, w.end, HasId);
        assert AllHaveIds(hits) by {
          forall i | 0 <= i < |hits| ensures HasId(hits[i]) {
            assert hits[i] in hits;
          }
        }
      }
      ServedWindowRows(adv, site, hits, 0, fuel);
      assert hits[0..] == hits;
    }
  }

  /** Against a chronological archive the bisection keeps the rows of every
      video of the window in publication order, unless a video is no
      dictionary or a single second holds more videos than the result
      window. */
  lemma ArchiveVideos(adv: Advance, archive: seq<Hit>, w: Window, site: string, fuel: nat)
    requires Chronological(archive)
    requires adv.ByHits? || forall i :: 0 <= i < |archive| ==> HasId(archive[i].doc)
    requires fuel > MaxResultWindow
    ensures var r := CollectVideosByDateRange(adv, w, ArchiveCount(archive), ArchivePages(archive), site, fuel);
      r.Success? ==> r == CollectAll(HitsIn(archive, w), ItemRow(site))
    ensures var r := CollectVideosByDateRange(adv, w, ArchiveCount(archive), ArchivePages(archive), site, fuel);
      r.Failure? ==>
        || CollectAll(HitsIn(archive, w), ItemRow(site)).Failure?
        || (r.error == RecursionLimit && exists x :: w.start <= x <= w.end && |HitsBetween(archive, x, x)| > MaxResultWindow)
  {
    var probe := VideoProber(adv, ArchiveCount(archive), ArchivePages(archive), site, fuel);
    forall v: Window ensures ProbesWindow(archive, probe, ItemRow(site), v) {
      ArchiveProbeVideos(adv, archive, v, site, fuel);
    }
    ArchiveBisect(archive, w, probe, ItemRow(site));
  }

  /* ---------------------------------------------------------------- site */

  /** `DELETE_CUTOFF_DATE` when unset. */
  const DefaultCutoff: string := "2024-12-31T23:59:59Z"

  /** `min(max_dt, cutoff_dt) if cutoff_dt else max_dt`. */
  function EffectiveEnd(newest: DateTime, cutoff: Option<DateTime>): (r: DateTime)
    ensures cutoff.None? ==> r == newest
    ensures cutoff.Some? ==> (r == newest || r == cutoff.value) && !Before(newest, r) && !Before(cutoff.value, r)
  {
    match cutoff
    case None => newest
    case Some(c) => if Before(c, newest) then c else newest
  }

  /** `parse_iso` of an extreme publish date that passed the truthiness
      check: a string goes through the strict parser; any other value has
      no `endswith` or `split` and raises AttributeError. */
  function ParseDate(v: Value, fromIso: string -> Option<DateTime>): (r: Result<DateTime>)
    requires Truthy(v)
    ensures r.Failure? ==> r.error == AttributeError || r.error == ValueError
    ensures v.Str? ==> (r.Success? <==> ParseIsoStrict(v.s, fromIso).Success?)
  {
    match v
    case Str(s) =>
      (match ParseIsoStrict(s, fromIso)
       case Success(Some(d)) => Success(d)
       case Success(None) => Failure(ValueError)
       case Failure(e) => Failure(e))
    case _ => Failure(AttributeError)
  }

  /** What a site's service answers: the pages of the plain query, the
      publish dates of its oldest and newest video as
      `get_extreme_publish_date` reads them, and the count and pages of each
      date window. */
  datatype SiteService = SiteService(
    pages: int -> Option<Value>,
    oldest: Value,
    newest: Value,
    count: Window -> Option<Value>,
    windowPages: Window -> int -> Option<Value>)

  /** The partitioned read of a large site, before its `except Exception`:
      nothing without both extreme dates, nothing when every video is later
      than the cutoff, otherwise the rows of the window from the oldest
      video to the effective end. */
  function Partition(adv: Advance, site: string, svc: SiteService, cutoff: string, fromIso: string -> Option<DateTime>, fuel: nat): (r: Result<seq<VideoRow>>)
    ensures !(Truthy(svc.oldest) && Truthy(svc.newest)) ==> r == Success([])
    ensures r.Success? ==> forall row :: row in r.value ==> RowOfSite(site, row)
  {
    if !(Truthy(svc.oldest) && Truthy(svc.newest)) then Success([])
    else
      var first :- ParseDate(svc.oldest, fromIso);
      var last :- ParseDate(svc.newest, fromIso);
      var cut :- ParseIsoStrict(cutoff, fromIso);
      var end := EffectiveEnd(last, cut);
      if Before(end, first) then Success([])
      else
        SecondsRoundTrip(end);
        CollectVideosByDateRange(adv, Span(ToSeconds(first), ToSeconds(end)), svc.count, svc.windowPages, site, fuel)
  }

  /** When the dates parse and every video is later than the cutoff, the
      partitioned read finds nothing to delete. */
  lemma AllAfterCutoff(adv: Advance, site: string, svc: SiteService, cutoff: string, fromIso: string -> Option<DateTime>, fuel: nat, first: DateTime, last: DateTime, cut: DateTime)
    requires Truthy(svc.oldest) && Truthy(svc.newest)
    requires ParseDate(svc.oldest, fromIso) == Success(first) && ParseDate(svc.newest, fromIso) == Success(last)
    requires ParseIsoStrict(cutoff, fromIso) == Success(Some(cut))
    requires Before(cut, first)
    ensures Partition(adv, site, svc, cutoff, fromIso, fuel) == Success([])
  {
    var end := EffectiveEnd(last, Some(cut));
    assert !Before(cut, end);
  }

  /** A large site whose service answers from a chronological archive, and
      whose reported oldest date is no later than any video: the
      partitioned read keeps the rows of every video published up to the
      effective end, in publication order. It can only fail because a video
      raised, or because one second of the range holds more videos than
      the result window. */
  lemma ArchivePartition(adv: Advance, site: string, svc: SiteService, cutoff: string, fromIso: string -> Option<DateTime>, fuel: nat,
                         archive: seq<Hit>, first: DateTime, last: DateTime, cut: Option<DateTime>)
    requires Chronological(archive)
    requires svc.count == ArchiveCount(archive) && svc.windowPages == ArchivePages(archive)
    requires adv.ByHits? || forall i :: 0 <= i < |archive| ==> HasId(archive[i].doc)
    requires fuel > MaxResultWindow
    requires Truthy(svc.oldest) && Truthy(svc.newest)
    requires ParseDate(svc.oldest, fromIso) == Success(first) && ParseDate(svc.newest, fromIso) == Success(last)
    requires ParseIsoStrict(cutoff, fromIso) == Success(cut)
    requires forall i :: 0 <= i < |archive| ==> ToSeconds(first) <= archive[i].second
    ensures var end := ToSeconds(EffectiveEnd(last, cut));
            var r := Partition(adv, site, svc, cutoff, fromIso, fuel);
            r.Success? ==> r == CollectAll(HitsUpTo(archive, end), ItemRow(site))
    ensures var end := ToSeconds(EffectiveEnd(last, cut));
            var r := Partition(adv, site, svc, cutoff, fromIso, fuel);
            r.Failure? ==>
              || CollectAll(HitsUpTo(archive, end), ItemRow(site)).Failure?
              || (r.error == RecursionLimit && exists x :: ToSeconds(first) <= x <= end && |HitsBetween(archive, x, x)| > MaxResultWindow)
  {
    var end := EffectiveEnd(last, cut);
    HitsFromOldest(archive, ToSeconds(first), ToSeconds(end));
    if Before(end, first) {
      PartitionNothing(adv, site, svc, cutoff, fromIso, fuel, first, last, cut);
      HitsBetweenLater(archive, ToSeconds(first), ToSeconds(end));
      assert CollectAll(HitsUpTo(archive, ToSeconds(end)), ItemRow(site)) == Success([]);
    } else {
      SecondsRoundTrip(end);
      var w := Span(ToSeconds(first), ToSeconds(end));
      PartitionWindow(adv, site, svc, cutoff, fromIso, fuel, first, last, cut);
      ArchiveVideos(adv, archive, w, site, fuel);
    }
  }

  /** Dates that parse with the effective end before the oldest video leave
      nothing to read. */
  lemma PartitionNothing(adv: Advance, site: string, svc: SiteService, cutoff: string, fromIso: string -> Option<DateTime>, fuel: nat,
                         first: DateTime, last: DateTime, cut: Option<DateTime>)
    requires Truthy(svc.oldest) && Truthy(svc.newest)
    requires ParseDate(svc.oldest, fromIso) == Success(first) && ParseDate(svc.newest, fromIso) == Success(last)
    requires ParseIsoStrict(cutoff, fromIso) == Success(cut)
    requires Before(EffectiveEnd(last, cut), first)
    ensures Partition(adv, site, svc, cutoff, fromIso, fuel) == Success([])
  {
  }

  /** Dates that parse with the effective end no earlier than the oldest
      video read the window between them. */
  lemma PartitionWindow(adv: Advance, site: string, svc: SiteService, cutoff: string, fromIso: string -> Option<DateTime>, fuel: nat,
                        first: DateTime, last: DateTime, cut: Option<DateTime>)
    requires Truthy(svc.oldest) && Truthy(svc.newest)
    requires ParseDate(svc.oldest, fromIso) == Success(first) && ParseDate(svc.newest, fromIso) == Success(last)
    requires ParseIsoStrict(cutoff, fromIso) == Success(cut)
    requires !Before(EffectiveEnd(last, cut), first)
    requires ToSeconds(EffectiveEnd(last, cut)) < SecondsLimit
    ensures Partition(adv, site, svc, cutoff, fromIso, fuel)
              == CollectVideosByDateRange(adv, Span(ToSeconds(first), ToSeconds(EffectiveEnd(last, cut))), svc.count, svc.windowPages, site, fuel)
  {
  }

  /** The same site through `get_videos_for_site`: when no video raises and
      no second holds more videos than the result window, the audit lists
      the rows of every video up to the effective end. */
  lemma ArchiveSite(adv: Advance, site: string, svc: SiteService, cutoff: string, fromIso: string -> Option<DateTime>, fuel: nat,
                    archive: seq<Hit>, first: DateTime, last: DateTime, cut: Option<DateTime>, data: Value)
    requires Chronological(archive)
    requires svc.count == ArchiveCount(archive) && svc.windowPages == ArchivePages(archive)
    requires adv.ByHits? || forall i :: 0 <= i < |archive| ==> HasId(archive[i].doc)
    requires fuel > MaxResultWindow
    requires svc.pages(0) == Some(data) && data.Obj? && Decide(CountOf(data)) == Success(Split)
    requires Truthy(svc.oldest) && Truthy(svc.newest)
    requires ParseDate(svc.oldest, fromIso) == Success(first) && ParseDate(svc.newest, fromIso) == Success(last)
    requires ParseIsoStrict(cutoff, fromIso) == Success(cut)
    requires forall i :: 0 <= i < |archive| ==> ToSeconds(first) <= archive[i].second
    requires CollectAll(HitsUpTo(archive, ToSeconds(EffectiveEnd(last, cut))), ItemRow(site)).Success?
    requires forall x :: ToSeconds(first) <= x <= ToSeconds(EffectiveEnd(last, cut)) ==> |HitsBetween(archive, x, x)| <= MaxResultWindow
    ensures GetVideosForSite(adv, site, svc, cutoff, fromIso, fuel)
              == CollectAll(HitsUpTo(archive, ToSeconds(EffectiveEnd(last, cut))), ItemRow(site))
  {
    ArchivePartition(adv, site, svc, cutoff, fromIso, fuel, archive, first, last, cut);
    assert Partition(adv, site, svc, cutoff, fromIso, fuel).Success?;
  }

  /** `get_videos_for_site`: a failed first request, or one counting no
      videos, gives nothing; a count above the result window reads the site
      window by window, and any exception there gives nothing; any other
      count reads the first page and the pages after it, and a failed
      request among them gives nothing. Anything else a reply can make the
      script raise propagates, and so does running out of the request
      budget, which is the model's and not the script's. */
  function GetVideosForSite(adv: Advance, site: string, svc: SiteService, cutoff: string, fromIso: string -> Option<DateTime>, fuel: nat): (r: Result<seq<VideoRow>>)
    ensures svc.pages(0).None? ==> r == Success([])
    ensures svc.pages(0).Some? && svc.pages(0).value.Obj? && IsZero(CountOf(svc.pages(0).value)) ==> r == Success([])
    ensures svc.pages(0).Some? && svc.pages(0).value.Obj? && Decide(CountOf(svc.pages(0).value)) == Success(Split) ==>
              (r.Success? || r.error == OutOfFuel)
    ensures r.Success? ==> forall row :: row in r.value ==> RowOfSite(site, row)
    ensures r.Failure? ==> r.error in {AttributeError, TypeError, OutOfFuel}
  {
    match svc.pages(0)
    case None => Success([])
    case Some(data) =>
      if !data.Obj? then Failure(AttributeError)
      else
        var d :- Decide(CountOf(data));
        match d
        case NoHits => Success([])
        case Split =>
          var r := Partition(adv, site, svc, cutoff, fromIso, fuel);
          if r.Failure? && r.error != OutOfFuel then Success([]) else r
        case Fetch(total) =>
          var r := SmallSite(adv, site, svc.pages, data, total, fuel);
          if r == Failure(RequestFailed) then Success([]) else r
  }

  /** The first page's rows, then the rest up to the total. */
  function SmallSite(adv: Advance, site: string, page: int -> Option<Value>, data: Value, total: int, fuel: nat): (r: Result<seq<VideoRow>>)
    ensures r.Success? ==> forall row :: row in r.value ==> RowOfSite(site, row)
    ensures r.Failure? ==> r.error in {AttributeError, TypeError, OutOfFuel, RequestFailed}
  {
    match ReadPage(adv, site, data)
    case Failure(e) => Failure(e)
    case Success(read) =>
      Then(Success(read.0), FlatRows(adv, total, read.1, page, site, fuel))
  }

  /** A small site on a consistent service: the rows of all its videos, in
      order; as written, only when every video carries an id. */
  lemma ServedSmallSite(adv: Advance, site: string, svc: SiteService, hits: seq<Value>, cutoff: string, fromIso: string -> Option<DateTime>, fuel: nat)
    requires svc.pages == Served(hits)
    requires 0 < |hits| <= MaxResultWindow
    requires adv.ByHits? || AllHaveIds(hits)
    requires fuel >= |hits|
    ensures GetVideosForSite(adv, site, svc, cutoff, fromIso, fuel) == CollectAll(hits, ItemRow(site))
  {
    ServedFirstPage(svc, hits);
    SiteFetches(adv, site, svc, cutoff, fromIso, fuel, ServedReply(hits, 0), |hits|);
    SmallSiteServed(adv, site, hits, fuel);
    NoRequestFaults(hits, site);
  }

  /** The first reply of a consistent service counts its hits. */
  lemma ServedFirstPage(svc: SiteService, hits: seq<Value>)
    requires svc.pages == Served(hits)
    requires 0 < |hits| <= MaxResultWindow
    ensures svc.pages(0) == Some(ServedReply(hits, 0))
    ensures Decide(CountOf(ServedReply(hits, 0))) == Success(Fetch(|hits|))
  {
    ServedContents(hits, 0);
    assert AsInt(CountOf(ServedReply(hits, 0))) == Some(|hits|);
  }

  /** A first reply counting at most a result window of videos leaves the
      site to the page loop. */
  lemma SiteFetches(adv: Advance, site: string, svc: SiteService, cutoff: string, fromIso: string -> Option<DateTime>, fuel: nat, data: Value, total: int)
    requires svc.pages(0) == Some(data) && data.Obj?
    requires Decide(CountOf(data)) == Success(Fetch(total))
    ensures var r := SmallSite(adv, site, svc.pages, data, total, fuel);
      GetVideosForSite(adv, site, svc, cutoff, fromIso, fuel) == if r == Failure(RequestFailed) then Success([]) else r
  {
  }

  /** The first page and the pages after it read every hit of a consistent
      service. */
  lemma SmallSiteServed(adv: Advance, site: string, hits: seq<Value>, fuel: nat)
    requires 0 < |hits|
    requires adv.ByHits? || AllHaveIds(hits)
    requires fuel >= |hits|
    ensures SmallSite(adv, site, Served(hits), ServedReply(hits, 0), |hits|, fuel) == CollectAll(hits, ItemRow(site))
  {
    var data := ServedReply(hits, 0);
    var read := ReadPage(adv, site, data);
    ServedRead(adv, site, hits, 0);
    assert hits[0..] == hits;
    if read.Success? {
      ServedFlatRows(adv, site, hits, read.value.1, fuel);
      assert SmallSite(adv, site, Served(hits), data, |hits|, fuel)
        == Then(Success(read.value.0), FlatRows(adv, |hits|, read.value.1, Served(hits), site, fuel));
    } else {
      assert SmallSite(adv, site, Served(hits), data, |hits|, fuel) == Failure(read.error);
    }
  }

  /** Reading hits raises AttributeError at worst. */
  lemma NoRequestFaults(hits: seq<Value>, site: string)
    ensures CollectAll(hits, ItemRow(site)).Failure? ==> CollectAll(hits, ItemRow(site)).error == AttributeError
  {
    if CollectAll(hits, ItemRow(site)).Failure? {
      var i :| 0 <= i < |hits| && ItemRow(site)(hits[i]) == Failure(CollectAll(hits, ItemRow(site)).error);
    }
  }

  /* -------------------------------------------------------- the duplicate */

  /** As written, a window whose first hit has no id and whose second has
      one: the loop steps one hit forward for the one id it found, asks for
      the page at offset 1, and reads the second video a second time; the
      intended loop steps over both hits and reads it once. */
  lemma DuplicateAsWritten(site: string, a: Value, x: Value, fuel: nat)
    requires a.Obj? && !HasId(a) && HasId(x)
    requires fuel >= 2
    ensures var row := VideoRow(Get(x, "_id"), site);
      WindowRows(ByIds, 0, Served([a, x]), site, fuel) == Success([row, row])
    ensures var row := VideoRow(Get(x, "_id"), site);
      WindowRows(ByHits, 0, Served([a, x]), site, fuel) == Success([row])
  {
    DuplicateByIds(site, a, x, fuel);
    OnceByHits(site, a, x, fuel);
  }

  /** The same with a dictionary without `_id` and one with id "b". */
  lemma DuplicateExample(site: string, fuel: nat)
    requires fuel >= 2
    ensures var row := VideoRow(Str("b"), site);
      WindowRows(ByIds, 0, Served([Obj([]), Obj([("_id", Str("b"))])]), site, fuel) == Success([row, row])
  {
    var x := Obj([("_id", Str("b"))]);
    assert Get(x, "_id") == Str("b");
    DuplicateAsWritten(site, Obj([]), x, fuel);
  }

  /** The two pages the service answers for such a window, as each loop
      reads them. */
  lemma IdlessPages(site: string, a: Value, x: Value)
    requires a.Obj? && !HasId(a) && HasId(x)
    ensures var row := VideoRow(Get(x, "_id"), site);
      && ReadPage(ByIds, site, ServedReply([a, x], 0)) == Success(([row], 1))
      && ReadPage(ByHits, site, ServedReply([a, x], 0)) == Success(([row], 2))
      && ReadPage(ByIds, site, ServedReply([a, x], 1)) == Success(([row], 1))
  {
    var row := VideoRow(Get(x, "_id"), site);
    assert PageOf([a, x], 0) == [a, x];
    assert PageOf([a, x], 1) == [x];
    IdlessRows(site, a, x);
    ReadServed(ByIds, site, [a, x], 0, [row]);
    ReadServed(ByHits, site, [a, x], 0, [row]);
    ReadServed(ByIds, site, [a, x], 1, [row]);
  }

  /** A served page whose hits all read reads as their rows. */
  lemma ReadServed(adv: Advance, site: string, hits: seq<Value>, offset: int, rows: seq<VideoRow>)
    requires CollectAll(PageOf(hits, offset), ItemRow(site)) == Success(rows)
    ensures ReadPage(adv, site, ServedReply(hits, offset))
      == Success((rows, if adv.ByIds? then |rows| else |PageOf(hits, offset)|))
  {
    ServedContents(hits, offset);
  }

  /** Both replies count the two hits. */
  lemma IdlessCounts(a: Value, x: Value)
    ensures AsInt(CountOf(ServedReply([a, x], 0))) == Some(2)
    ensures AsInt(CountOf(ServedReply([a, x], 1))) == Some(2)
  {
    ServedContents([a, x], 0);
    ServedContents([a, x], 1);
  }

  /** The rows of the two hits, and of the second alone. */
  lemma IdlessRows(site: string, a: Value, x: Value)
    requires a.Obj? && !HasId(a) && HasId(x)
    ensures var row := VideoRow(Get(x, "_id"), site);
      && CollectAll([a, x], ItemRow(site)) == Success([row])
      && CollectAll([x], ItemRow(site)) == Success([row])
  {
    var row := VideoRow(Get(x, "_id"), site);
    var none: seq<Value> := [];
    var noRows: seq<VideoRow> := [];
    assert CollectAll(none, ItemRow(site)) == Success(noRows);
    CollectAllCons([x], ItemRow(site));
    assert [x][1..] == none;
    assert ItemRow(site)(x) == Success([row]);
    assert [row] + noRows == [row];
    assert CollectAll([x], ItemRow(site)) == Success([row]);
    CollectAllCons([a, x], ItemRow(site));
    assert [a, x][1..] == [x];
    assert ItemRow(site)(a) == Success(noRows);
    assert noRows + [row] == [row];
  }

  lemma DuplicateByIds(site: string, a: Value, x: Value, fuel: nat)
    requires a.Obj? && !HasId(a) && HasId(x)
    requires fuel >= 2
    ensures var row := VideoRow(Get(x, "_id"), site);
      WindowRows(ByIds, 0, Served([a, x]), site, fuel) == Success([row, row])
  {
    var row := VideoRow(Get(x, "_id"), site);
    var less: nat := fuel - 1;
    FirstPage(ByIds, site, a, x, fuel);
    SecondPageByIds(site, a, x, less);
    assert WindowMore(ByIds, 1, 2, Served([a, x]), site, less) == Success([row]);
    assert [row] + [row] == [row, row];
  }

  /** The first page of such a window: the second video's row, then the
      rest of the window from one hit on (as written) or two (as intended). */
  lemma FirstPage(adv: Advance, site: string, a: Value, x: Value, fuel: nat)
    requires a.Obj? && !HasId(a) && HasId(x)
    requires fuel >= 1
    ensures WindowRows(adv, 0, Served([a, x]), site, fuel)
      == Then(Success([VideoRow(Get(x, "_id"), site)]), WindowMore(adv, if adv.ByIds? then 1 else 2, 2, Served([a, x]), site, fuel - 1))
  {
    var page0, hits := ServedReply([a, x], 0), [a, x];
    var less: nat := fuel - 1;
    IdlessPages(site, a, x);
    IdlessCounts(a, x);
    WindowStep(adv, 0, Served(hits), site, fuel, less, page0);
    WindowNextMore(adv, 0, Served(hits), site, less, page0, ReadPage(adv, site, page0), 2);
  }

  /** As written, the loop asks again from offset 1 and reads the second
      video there. */
  lemma SecondPageByIds(site: string, a: Value, x: Value, fuel: nat)
    requires a.Obj? && !HasId(a) && HasId(x)
    requires fuel >= 1
    ensures WindowRows(ByIds, 1, Served([a, x]), site, fuel) == Success([VideoRow(Get(x, "_id"), site)])
  {
    var row := VideoRow(Get(x, "_id"), site);
    var page1, hits := ServedReply([a, x], 1), [a, x];
    var less: nat := fuel - 1;
    var none: seq<VideoRow> := [];
    IdlessPages(site, a, x);
    IdlessCounts(a, x);
    WindowStep(ByIds, 1, Served(hits), site, fuel, less, page1);
    WindowNextMore(ByIds, 1, Served(hits), site, less, page1, ReadPage(ByIds, site, page1), 2);
    assert WindowMore(ByIds, 2, 2, Served(hits), site, less) == Success(none);
    assert [row] + none == [row];
  }

  lemma OnceByHits(site: string, a: Value, x: Value, fuel: nat)
    requires a.Obj? && !HasId(a) && HasId(x)
    requires fuel >= 1
    ensures WindowRows(ByHits, 0, Served([a, x]), site, fuel) == Success([VideoRow(Get(x, "_id"), site)])
  {
    var row := VideoRow(Get(x, "_id"), site);
    var none: seq<VideoRow> := [];
    FirstPage(ByHits, site, a, x, fuel);
    assert WindowMore(ByHits, 2, 2, Served([a, x]), site, fuel - 1) == Success(none);
    assert [row] + none == [row];
  }
}
