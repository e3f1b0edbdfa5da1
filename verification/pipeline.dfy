/** The story deletion pipeline: circulation lookup, decirculation from every
    website, unpublish and permanent delete of one story against the Draft
    API, the loop over story ids, and the helpers that gather those ids from
    an ids file, one CSV or a directory of CSVs. Every HTTP reply is an
    input. */
module Pipeline {
  import opened Wrappers
  import opened Json
  import opened Text
  import opened Order
  import opened Seqs

  /* ------------------------------------------------------- replies */

  /** The result of one DELETE: no response at all (connection error,
      timeout), or a response with its status code. */
  datatype Reply = TransportError | Status(code: int)

  /** The result of the circulation GET: no response, or a status code and
      the body decoded as JSON (None when the body is not JSON, which
      `response.json()` reports as a RequestException). */
  datatype LookupReply = LookupTransportError | LookupStatus(code: int, body: Option<Value>)

  /** `raise_for_status` raises exactly for client and server errors; any
      other code, 1xx and 3xx included, passes. */
  predicate RaisesForStatus(code: int) {
    400 <= code < 600
  }

  /** Decirculation and permanent delete accept a reply iff it does not
      raise. */
  predicate Succeeded(r: Reply) {
    r.Status? && !RaisesForStatus(r.code)
  }

  /** `unpublish_story` also accepts 404: there was no published revision. */
  predicate UnpublishSucceeded(r: Reply) {
    r.Status? && (r.code == 404 || !RaisesForStatus(r.code))
  }

  /** 404 is forgiven on unpublish and nowhere else (section 15.5.5 of RFC
      9110 reads it as "no current representation"), and unpublish accepts
      every reply the other deletes accept. */
  lemma NotFoundForgivenOnlyOnUnpublish(r: Reply)
    ensures Succeeded(r) ==> UnpublishSucceeded(r)
    ensures UnpublishSucceeded(r) && !Succeeded(r) <==> r == Status(404)
  {
  }

  /* ------------------------------------------------------- circulation payload */

  /** The dictionary keys that may wrap the circulation list, in the order
      they are tried. */
  const WrapperKeys: seq<string> := ["circulations", "items", "results", "data"]

  /** Which shape of the circulation payload was recognised. */
  datatype Shape =
    | BareList(items: seq<Value>)             // the payload is the list itself
    | Wrapped(key: string, items: seq<Value>) // a list under one of `WrapperKeys`
    | SingleRecord                            // a dictionary with a truthy `website_id`
    | ListOfRecords(items: seq<Value>)        // the first value that is a non-empty list starting with a dictionary
    | Unrecognised

  /** The first of `keys` under which `data` holds a list. */
  function FirstListKey(data: Value, keys: seq<string>): (r: Option<nat>)
    requires data.Obj?
    ensures r.Some? ==> r.value < |keys| && Get(data, keys[r.value]).Arr?
    ensures r.Some? ==> forall j :: 0 <= j < r.value ==> !Get(data, keys[j]).Arr?
    ensures r.None? <==> forall j :: 0 <= j < |keys| ==> !Get(data, keys[j]).Arr?
  {
    FirstIndex(keys, k => Get(data, k).Arr?)
  }

  /** A list worth taking for circulations in the last fallback. */
  predicate RecordList(v: Value) {
    v.Arr? && |v.items| > 0 && v.items[0].Obj?
  }

  /** The first value of a dictionary that is a `RecordList`. */
  function FirstRecordList(fs: Fields): (r: Option<nat>)
    ensures r.Some? ==> r.value < |fs| && RecordList(fs[r.value].1)
    ensures r.Some? ==> forall j :: 0 <= j < r.value ==> !RecordList(fs[j].1)
    ensures r.None? <==> forall j :: 0 <= j < |fs| ==> !RecordList(fs[j].1)
  {
    FirstIndex(fs, (f: (string, Value)) => RecordList(f.1))
  }

  predicate NoWrapperList(data: Value)
    requires data.Obj?
  {
    forall j :: 0 <= j < |WrapperKeys| ==> !Get(data, WrapperKeys[j]).Arr?
  }

  /** The shape `get_circulations` recognises: the first that applies of a
      bare list, a wrapper key holding a list (even an empty one), a single
      circulation record, or a value that is a list of records. */
  function CirculationShape(data: Value): (r: Shape)
    ensures r.BareList? <==> data.Arr?
    ensures r.BareList? ==> r.items == data.items
    ensures r.Wrapped? <==> data.Obj? && !NoWrapperList(data)
    ensures r.SingleRecord? <==> data.Obj? && NoWrapperList(data) && Truthy(Get(data, "website_id"))
    ensures r.ListOfRecords? <==> data.Obj? && NoWrapperList(data) && !Truthy(Get(data, "website_id"))
                                  && exists j :: 0 <= j < |data.fields| && RecordList(data.fields[j].1)
  {
    match data
    case Arr(xs) => BareList(xs)
    case Obj(fs) =>
      (match FirstListKey(data, WrapperKeys)
       case Some(k) => Wrapped(WrapperKeys[k], Get(data, WrapperKeys[k]).items)
       case None =>
        if Truthy(Get(data, "website_id")) then SingleRecord
        else
          (match FirstRecordList(fs)
           case Some(j) => ListOfRecords(fs[j].1.items)
           case None => Unrecognised))
    case _ => Unrecognised
  }

  /** A wrapped list is the list under the first wrapper key that holds one. */
  lemma WrappedShape(data: Value)
    requires CirculationShape(data).Wrapped?
    ensures var r := CirculationShape(data);
            exists k :: 0 <= k < |WrapperKeys| && WrapperKeys[k] == r.key
                        && Get(data, r.key) == Arr(r.items)
                        && forall j :: 0 <= j < k ==> !Get(data, WrapperKeys[j]).Arr?
  {
    var k := FirstListKey(data, WrapperKeys).value;
    assert CirculationShape(data).key == WrapperKeys[k];
  }

  /** The last fallback takes the first value of the dictionary that is a
      non-empty list starting with a dictionary. */
  lemma ListOfRecordsShape(data: Value)
    requires CirculationShape(data).ListOfRecords?
    ensures var r := CirculationShape(data);
            exists j :: 0 <= j < |data.fields| && data.fields[j].1 == Arr(r.items)
                        && RecordList(data.fields[j].1)
                        && forall i :: 0 <= i < j ==> !RecordList(data.fields[i].1)
  {
    var j := FirstRecordList(data.fields).value;
    assert CirculationShape(data).items == data.fields[j].1.items;
  }

  /** The circulation list a shape stands for. */
  function ShapeItems(data: Value, shape: Shape): seq<Value> {
    match shape
    case BareList(xs) => xs
    case Wrapped(_, xs) => xs
    case SingleRecord => [data]
    case ListOfRecords(xs) => xs
    case Unrecognised => []
  }

  /** The truthy `website_id` of every dictionary in the list, in order;
      anything else in the list is skipped. */
  function WebsiteIds(circulations: seq<Value>): (ids: seq<Value>)
    ensures |ids| <= |circulations|
  {
    FlatMapShorter(circulations, IdOf);
    FlatMap(circulations, IdOf)
  }

  /** What one element of the circulation list contributes. */
  function IdOf(c: Value): (ids: seq<Value>)
    ensures |ids| <= 1
  {
    if c.Obj? && Truthy(Get(c, "website_id")) then [Get(c, "website_id")] else []
  }

  /** An id is collected iff some dictionary of the list carries it as its
      truthy `website_id`. */
  lemma WebsiteIdsMembers(circulations: seq<Value>, x: Value)
    ensures x in WebsiteIds(circulations) <==>
              exists i :: 0 <= i < |circulations| && circulations[i].Obj?
                          && Truthy(Get(circulations[i], "website_id")) && Get(circulations[i], "website_id") == x
  {
    FlatMapMembers(circulations, IdOf, x);
  }

  function DecodeCirculations(data: Value): seq<Value> {
    WebsiteIds(ShapeItems(data, CirculationShape(data)))
  }

  /** `get_circulations`: None exactly when the GET raised a
      RequestException; otherwise the decoded website ids, possibly none. */
  function GetCirculations(reply: LookupReply): (r: Option<seq<Value>>)
    ensures r.None? <==> reply.LookupTransportError? || RaisesForStatus(reply.code) || reply.body.None?
    ensures r.Some? ==> r.value == DecodeCirculations(reply.body.value)
  {
    match reply
    case LookupTransportError => None
    case LookupStatus(code, body) =>
      if RaisesForStatus(code) then None
      else
        match body
        case None => None
        case Some(data) => Some(DecodeCirculations(data))
  }

  /** The first wrapper key that holds a list decides the circulations,
      whatever else the dictionary holds: in particular an empty list there
      ends the search, and the record's own `website_id` is not looked at. */
  lemma EmptyWrapperWins(data: Value, k: nat)
    requires data.Obj? && k < |WrapperKeys| && Get(data, WrapperKeys[k]).Arr?
    requires forall j :: 0 <= j < k ==> !Get(data, WrapperKeys[j]).Arr?
    ensures DecodeCirculations(data) == WebsiteIds(Get(data, WrapperKeys[k]).items)
    ensures Get(data, WrapperKeys[k]) == Arr([]) ==> DecodeCirculations(data) == []
  {
    var i := FirstListKey(data, WrapperKeys).value;
    assert i == k;
    assert CirculationShape(data) == Wrapped(WrapperKeys[k], Get(data, WrapperKeys[k]).items);
  }

  /** A payload that is neither a list nor a dictionary has no circulations. */
  lemma ScalarPayloadIsEmpty(data: Value)
    requires !data.Arr? && !data.Obj?
    ensures DecodeCirculations(data) == []
  {
  }

  /* ------------------------------------------------------- one story */

  /** The Draft API calls the pipeline makes. */
  datatype Call =
    | GetCirculationsCall(story: string)                  // GET /story/{id}/circulation
    | DeleteCirculation(story: string, website: Value)    // DELETE /story/{id}/circulation/{website}
    | DeletePublishedRevision(story: string)              // DELETE /story/{id}/revision/published
    | DeleteStory(story: string)                          // DELETE /story/{id}

  /** Where the sequence for one story stopped. */
  datatype Outcome = LookupFailed | DecirculationFailed | UnpublishFailed | DeleteFailed | Deleted

  /** One DELETE per website, in list order. */
  function DecirculationCalls(story: string, websites: seq<Value>): (calls: seq<Call>)
    ensures |calls| == |websites|
  {
    seq(|websites|, i requires 0 <= i < |websites| => DeleteCirculation(story, websites[i]))
  }

  /** `decirculate_story`: one DELETE per website, all of them attempted even
      after a failure; true iff every one succeeded, and true with no call
      for an empty list. */
  function Decirculate(story: string, websites: seq<Value>, reply: Value -> Reply): (r: (bool, seq<Call>))
    ensures r.1 == DecirculationCalls(story, websites)
    ensures r.0 <==> AllAccepted(websites, reply)
  {
    if |websites| == 0 then (true, [])
    else
      var rest := Decirculate(story, websites[1..], reply);
      var ok := Succeeded(reply(websites[0])) && rest.0;
      assert forall i :: 1 <= i < |websites| ==> websites[i] == websites[1..][i - 1];
      (ok, [DeleteCirculation(story, websites[0])] + rest.1)
  }

  /** Every call the sequence for one story can make, in order. */
  function FullTrace(story: string, websites: seq<Value>): seq<Call> {
    [GetCirculationsCall(story)] + DecirculationCalls(story, websites)
      + [DeletePublishedRevision(story), DeleteStory(story)]
  }

  /** Every website of the list accepted its decirculation. */
  predicate AllAccepted(websites: seq<Value>, website: Value -> Reply) {
    forall i :: 0 <= i < |websites| ==> Succeeded(website(websites[i]))
  }

  /** How many calls a story that got past the lookup made, by where it
      stopped. */
  function CallsMade(websites: seq<Value>, outcome: Outcome): nat {
    match outcome
    case LookupFailed => 1
    case DecirculationFailed => |websites| + 1
    case UnpublishFailed => |websites| + 2
    case _ => |websites| + 3
  }

  /** `process_story_for_deletion`: each stage runs only when the previous
      one succeeded. The result is where the sequence stopped and the calls
      made, which are always a prefix of the full sequence. */
  function ProcessStory(story: string, lookup: LookupReply, website: Value -> Reply, unpublish: Reply, delete: Reply)
    : (r: (Outcome, seq<Call>))
    ensures r.0 == LookupFailed <==> GetCirculations(lookup).None?
    ensures r.0 == LookupFailed ==> r.1 == [GetCirculationsCall(story)]
    ensures GetCirculations(lookup).Some? ==>
              var ws := GetCirculations(lookup).value;
              && r.1 <= FullTrace(story, ws)
              && |r.1| == CallsMade(ws, r.0)
              && (r.0 == DecirculationFailed <==> !AllAccepted(ws, website))
              && (r.0 == UnpublishFailed <==> AllAccepted(ws, website) && !UnpublishSucceeded(unpublish))
              && (r.0 == Deleted <==> AllAccepted(ws, website) && UnpublishSucceeded(unpublish) && Succeeded(delete))
  {
    match GetCirculations(lookup)
    case None => (LookupFailed, [GetCirculationsCall(story)])
    case Some(websites) =>
      var ok := Decirculate(story, websites, website).0;
      var full := FullTrace(story, websites);
      if !ok then (DecirculationFailed, full[..|websites| + 1])
      else if !UnpublishSucceeded(unpublish) then (UnpublishFailed, full[..|websites| + 2])
      else (if Succeeded(delete) then Deleted else DeleteFailed, full)
  }

  /** The same contract in terms of the calls made: the lookup always comes
      first, unpublish is called iff every website accepted its
      decirculation, and the permanent delete iff unpublish succeeded too. */
  lemma ProcessStoryCalls(story: string, lookup: LookupReply, website: Value -> Reply, unpublish: Reply, delete: Reply)
    ensures var r := ProcessStory(story, lookup, website, unpublish, delete);
            && |r.1| >= 1 && r.1[0] == GetCirculationsCall(story)
            && (DeletePublishedRevision(story) in r.1 <==>
                  GetCirculations(lookup).Some? && AllAccepted(GetCirculations(lookup).value, website))
            && (DeleteStory(story) in r.1 <==> DeletePublishedRevision(story) in r.1 && UnpublishSucceeded(unpublish))
  {
    var r := ProcessStory(story, lookup, website, unpublish, delete);
    if GetCirculations(lookup).Some? {
      var ws := GetCirculations(lookup).value;
      var full := FullTrace(story, ws);
      assert r.1 == full[..|r.1|];
      FullTracePrefix(story, ws, |r.1|);
    }
  }

  /** Where the unpublish and the delete sit in the full sequence. */
  lemma FullTracePrefix(story: string, ws: seq<Value>, k: nat)
    requires 1 <= k <= |ws| + 3
    ensures var p := FullTrace(story, ws)[..k];
            && p[0] == GetCirculationsCall(story)
            && (DeletePublishedRevision(story) in p <==> k >= |ws| + 2)
            && (DeleteStory(story) in p <==> k == |ws| + 3)
  {
    var full := FullTrace(story, ws);
    var n := |ws|;
    assert full[0] == GetCirculationsCall(story);
    assert full[n + 1] == DeletePublishedRevision(story) && full[n + 2] == DeleteStory(story);
    forall i | 1 <= i <= n ensures full[i].DeleteCirculation? {
      assert full[i] == DecirculationCalls(story, ws)[i - 1];
    }
    var p := full[..k];
    if DeletePublishedRevision(story) in p {
      var i :| 0 <= i < k && p[i] == DeletePublishedRevision(story);
      assert full[i] == p[i];
    }
    if DeleteStory(story) in p {
      var i :| 0 <= i < k && p[i] == DeleteStory(story);
      assert full[i] == p[i];
    }
    if k >= n + 2 {
      assert p[n + 1] == DeletePublishedRevision(story);
    }
    if k == n + 3 {
      assert p[n + 2] == DeleteStory(story);
    }
  }

  /** Every reply a 2xx: the story is deleted after every call was made. */
  lemma AllSuccessfulDeletes(story: string, data: Value, website: Value -> Reply)
    requires forall w :: Succeeded(website(w))
    ensures ProcessStory(story, LookupStatus(200, Some(data)), website, Status(200), Status(204))
            == (Deleted, FullTrace(story, DecodeCirculations(data)))
  {
  }

  /** A story that is already gone everywhere (every call answers 404) is
      not reported deleted: the circulation GET itself raises. */
  lemma AlreadyRemovedIsNotSuccess(story: string, website: Value -> Reply)
    ensures ProcessStory(story, LookupStatus(404, None), website, Status(404), Status(404)).0 == LookupFailed
  {
  }

  /** A story whose published revision is already gone is unpublished, but a
      404 on the permanent delete is a failure. */
  lemma NotFoundOnDeleteFails(story: string, website: Value -> Reply)
    ensures ProcessStory(story, LookupStatus(200, Some(Arr([]))), website, Status(404), Status(404))
            == (DeleteFailed, [GetCirculationsCall(story), DeletePublishedRevision(story), DeleteStory(story)])
  {
    assert DecodeCirculations(Arr([])) == [];
    assert GetCirculations(LookupStatus(200, Some(Arr([])))) == Some([]);
    assert Decirculate(story, [], website) == (true, []);
    assert Decirculate(story, [], _ => TransportError).1 == [];
    assert FullTrace(story, []) == [GetCirculationsCall(story), DeletePublishedRevision(story), DeleteStory(story)];
  }

  /** One refused website stops the story before unpublish, yet every
      website was still asked, in the order the circulations listed them. */
  lemma RefusalStopsBeforeUnpublish(story: string, lookup: LookupReply, website: Value -> Reply, unpublish: Reply, delete: Reply)
    requires GetCirculations(lookup).Some?
    requires !AllAccepted(GetCirculations(lookup).value, website)
    ensures var ws := GetCirculations(lookup).value;
            var r := ProcessStory(story, lookup, website, unpublish, delete);
            && r.0 == DecirculationFailed
            && r.1 == [GetCirculationsCall(story)] + DecirculationCalls(story, ws)
  {
    var ws := GetCirculations(lookup).value;
    var full := FullTrace(story, ws);
    assert full[..|ws| + 1] == [GetCirculationsCall(story)] + DecirculationCalls(story, ws);
  }

  /* ------------------------------------------------------- the story loop */

  /** The Draft API as a map from request to reply. The circulation lookup
      also sees whether the story was permanently deleted earlier in the
      same run: that is the one piece of server state the loop itself
      changes and then reads again. */
  datatype DraftApi = DraftApi(
    circulations: (string, bool) -> LookupReply,
    removeCirculation: (string, Value) -> Reply,
    removePublished: string -> Reply,
    removeStory: string -> Reply)

  /** `process_story_for_deletion(sid)` against the API, `deleted` telling
      whether this id was deleted earlier in the run. */
  function RunStory(story: string, api: DraftApi, deleted: bool): (Outcome, seq<Call>) {
    ProcessStory(story, api.circulations(story, deleted), w => api.removeCirculation(story, w),
                 api.removePublished(story), api.removeStory(story))
  }

  /** Some earlier entry of the run has the same id and ended in a delete. */
  predicate DeletedEarlier(stories: seq<string>, outcomes: seq<Outcome>, i: nat)
    requires i < |stories| && i <= |outcomes|
  {
    exists j :: 0 <= j < i && stories[j] == stories[i] && outcomes[j] == Deleted
  }

  /** The loop from some point on, `gone` holding the ids deleted before
      that point. */
  function RunFrom(stories: seq<string>, api: DraftApi, gone: set<string>): (r: seq<Outcome>)
    ensures |r| == |stories|
  {
    if |stories| == 0 then []
    else
      var o := RunStory(stories[0], api, stories[0] in gone).0;
      [o] + RunFrom(stories[1..], api, if o == Deleted then gone + {stories[0]} else gone)
  }

  /** Each outcome is that of its own story, run against a server that has
      seen exactly the deletes made before it. */
  lemma {:induction false} RunFromOutcomes(stories: seq<string>, api: DraftApi, gone: set<string>)
    ensures var r := RunFrom(stories, api, gone);
            forall i :: 0 <= i < |stories| ==>
              r[i] == RunStory(stories[i], api, stories[i] in gone || DeletedEarlier(stories, r, i)).0
    decreases |stories|
  {
    if |stories| > 0 {
      var r := RunFrom(stories, api, gone);
      var o := r[0];
      var gone' := if o == Deleted then gone + {stories[0]} else gone;
      var tail := stories[1..];
      var rest := RunFrom(tail, api, gone');
      assert r == [o] + rest;
      RunFromOutcomes(tail, api, gone');
      forall i | 0 < i < |stories|
        ensures r[i] == RunStory(stories[i], api, stories[i] in gone || DeletedEarlier(stories, r, i)).0
      {
        assert r[i] == rest[i - 1] && stories[i] == tail[i - 1];
        GoneStep(stories, gone, r, i);
      }
    }
  }

  /** One step of the loop keeps `gone` in step with the deletes seen. */
  lemma GoneStep(stories: seq<string>, gone: set<string>, r: seq<Outcome>, i: nat)
    requires |r| == |stories| && 0 < i < |stories|
    ensures var gone' := if r[0] == Deleted then gone + {stories[0]} else gone;
            (stories[i] in gone' || DeletedEarlier(stories[1..], r[1..], i - 1))
              == (stories[i] in gone || DeletedEarlier(stories, r, i))
  {
    var tail, rest := stories[1..], r[1..];
    if DeletedEarlier(tail, rest, i - 1) {
      var j :| 0 <= j < i - 1 && tail[j] == tail[i - 1] && rest[j] == Deleted;
      assert stories[j + 1] == stories[i] && r[j + 1] == Deleted;
    }
    if DeletedEarlier(stories, r, i) {
      var j :| 0 <= j < i && stories[j] == stories[i] && r[j] == Deleted;
      if j > 0 {
        assert tail[j - 1] == tail[i - 1] && rest[j - 1] == Deleted;
      }
    }
  }

  /** The outcomes of the `for sid in story_ids` loop: every story is
      processed, in order, whatever happened to the ones before it; the
      only thing an earlier story changes for a later one is that an id
      deleted before is looked up on a server that no longer has it. */
  function RunPipeline(stories: seq<string>, api: DraftApi): (r: seq<Outcome>)
    ensures |r| == |stories|
    ensures forall i :: 0 <= i < |stories| ==> r[i] == RunStory(stories[i], api, DeletedEarlier(stories, r, i)).0
  {
    RunFromOutcomes(stories, api, {});
    RunFrom(stories, api, {})
  }

  /** The server answers the circulation lookup of a deleted story with
      404, as for any story it does not have. */
  ghost predicate ForgetsDeleted(api: DraftApi) {
    forall s :: api.circulations(s, true).LookupStatus? && api.circulations(s, true).code == 404
  }

  /** An id listed twice and deleted at its first occurrence fails its
      later lookups: the pipeline does not skip repeated ids. */
  lemma RepeatAfterDelete(stories: seq<string>, api: DraftApi, i: nat, j: nat)
    requires ForgetsDeleted(api)
    requires i < j < |stories| && stories[i] == stories[j]
    requires RunPipeline(stories, api)[i] == Deleted
    ensures RunPipeline(stories, api)[j] == LookupFailed
  {
    var r := RunPipeline(stories, api);
    assert DeletedEarlier(stories, r, j);
  }

  /** With no repeated id the run is stateless: each story is processed
      as if it were the only one. */
  lemma DistinctIdsRunAlone(stories: seq<string>, api: DraftApi, i: nat)
    requires forall a, b :: 0 <= a < b < |stories| ==> stories[a] != stories[b]
    requires i < |stories|
    ensures RunPipeline(stories, api)[i] == RunStory(stories[i], api, false).0
  {
    var r := RunPipeline(stories, api);
    assert !DeletedEarlier(stories, r, i);
  }

  /* ------------------------------------------------------- story ids */

  const ReportPrefix: string := "notas_publicadas_"

  /** `extract_site_from_filename`: for a base name starting with the report
      prefix, the text after it up to the next '_'; otherwise the third
      '_'-separated token when there are at least three; otherwise None. */
  function ExtractSiteFromFilename(path: string): (r: Option<string>)
    ensures var name := Basename(path);
            ReportPrefix <= name ==> r.Some? && '_' !in r.value && r.value <= name[|ReportPrefix|..]
                                      && (|r.value| == |name| - |ReportPrefix| || name[|ReportPrefix| + |r.value|] == '_')
    ensures var name := Basename(path);
            !(ReportPrefix <= name) ==> (r.Some? <==> Count(name, '_') >= 2)
  {
    var name := Basename(path);
    if ReportPrefix <= name then
      var rest := name[|ReportPrefix|..];
      var parts := Split(rest, '_');
      FirstPiece(rest);
      Some(parts[0])
    else
      var parts := Split(name, '_');
      if |parts| >= 3 then Some(parts[2]) else None
  }

  /** The first piece of a split is a prefix of the text, ending at the
      first separator or at the end. */
  lemma {:induction false} FirstPiece(s: string)
    ensures Split(s, '_')[0] <= s
    ensures var p := Split(s, '_')[0]; |p| == |s| || s[|p|] == '_'
  {
    var parts := Split(s, '_');
    if |parts| == 1 {
      assert Join(parts, '_') == parts[0];
    } else {
      assert Join(parts, '_') == parts[0] + ['_'] + Join(parts[1..], '_');
    }
  }

  /** The name the story audit gives the report of one site and year. */
  function ReportName(site: string, year: string): string {
    ReportPrefix + site + "_" + year + ".csv"
  }

  /** A report written by the story audit, in any directory, names its
      site. */
  lemma SiteOfReportName(dir: string, site: string, year: string)
    requires dir == "" || dir[|dir| - 1] == '/'
    requires '_' !in site && '/' !in site && '/' !in year
    ensures ExtractSiteFromFilename(dir + ReportName(site, year)) == Some(site)
  {
    var name := ReportName(site, year);
    ReportNameLayout(site, year);
    BasenameOfName(dir, name);
    SplitFirstPiece(site, year + ".csv");
  }

  lemma ReportNameLayout(site: string, year: string)
    requires '/' !in site && '/' !in year
    ensures var name := ReportName(site, year);
            '/' !in name && ReportPrefix <= name && name[|ReportPrefix|..] == site + "_" + (year + ".csv")
  {
    var name := ReportName(site, year);
    assert name == ReportPrefix + (site + "_" + (year + ".csv"));
  }

  /** The first '_'-separated piece of `a + "_" + tail` is `a` when `a`
      holds no '_'. */
  lemma {:induction false} SplitFirstPiece(a: string, tail: string)
    requires '_' !in a
    ensures Split(a + "_" + tail, '_')[0] == a
    decreases |a|
  {
    var s := a + "_" + tail;
    if |a| > 0 {
      SplitFirstPiece(a[1..], tail);
      assert s[1..] == a[1..] + "_" + tail;
      assert s[0] == a[0];
      assert a == [a[0]] + a[1..];
    }
  }

  /** One CSV record: column name to cell text. A column the record lacks is
      absent from the map. */
  type CsvRow = map<string, string>

  function Cell(row: CsvRow, column: string): Option<string> {
    if column in row then Some(row[column]) else None
  }

  /** Python truthiness of a cell or of None. */
  predicate Present(v: Option<string>) {
    v.Some? && v.value != ""
  }

  /** `a or b or ...`: the first truthy operand, else the last one. */
  function Coalesce(options: seq<Option<string>>): (r: Option<string>)
    requires |options| >= 1
    ensures Present(r) <==> exists i :: 0 <= i < |options| && Present(options[i])
    ensures forall i :: (0 <= i < |options| && Present(options[i])
                         && forall j :: 0 <= j < i ==> !Present(options[j])) ==> r == options[i]
    ensures (forall i :: 0 <= i < |options| ==> !Present(options[i])) ==> r == options[|options| - 1]
  {
    if |options| == 1 || Present(options[0]) then options[0]
    else
      var r := Coalesce(options[1..]);
      assert forall i :: 1 <= i < |options| ==> options[i] == options[1..][i - 1];
      r
  }

  /** `a or b or c` on three cells. */
  lemma Coalesce3(a: Option<string>, b: Option<string>, c: Option<string>)
    ensures Coalesce([a, b, c]) == if Present(a) then a else if Present(b) then b else c
  {
    assert [a, b, c][1..] == [b, c];
    assert [b, c][1..] == [c];
  }

  /** One row of `load_rows_from_csv`. */
  datatype StoryRow = StoryRow(storyId: string, publishDate: Option<string>, url: Option<string>, site: Option<string>)

  function RowOf(row: CsvRow, siteGuess: Option<string>): (r: Option<StoryRow>)
    ensures r.Some? <==> Present(Cell(row, "story_id")) || Present(Cell(row, "id")) || Present(Cell(row, "_id"))
    ensures r.Some? ==> r.value.storyId == (if Present(Cell(row, "story_id")) then row["story_id"]
                                            else if Present(Cell(row, "id")) then row["id"]
                                            else row["_id"])
    ensures (r.Some? && !Present(Cell(row, "site")) && !Present(Cell(row, "website"))) ==> r.value.site == siteGuess
    ensures (r.Some? && Present(Cell(row, "publish_date"))) ==> r.value.publishDate == Some(row["publish_date"])
    ensures (r.Some? && Present(Cell(row, "url"))) ==> r.value.url == Some(row["url"])
  {
    Coalesce3(Cell(row, "story_id"), Cell(row, "id"), Cell(row, "_id"));
    Coalesce3(Cell(row, "site"), Cell(row, "website"), siteGuess);
    var id := Coalesce([Cell(row, "story_id"), Cell(row, "id"), Cell(row, "_id")]);
    if !Present(id) then None
    else
      Some(StoryRow(
        id.value,
        Coalesce([Cell(row, "publish_date"), Cell(row, "publish"), Cell(row, "date")]),
        Coalesce([Cell(row, "url"), Cell(row, "canonical_url"), Cell(row, "website_url")]),
        Coalesce([Cell(row, "site"), Cell(row, "website"), siteGuess])))
  }

  /** `load_rows_from_csv`: the records that name a story, in file order. */
  function LoadRows(path: string, rows: seq<CsvRow>): (r: seq<StoryRow>)
    ensures |r| <= |rows|
    ensures forall i :: 0 <= i < |r| ==> r[i].storyId != ""
    ensures forall x :: x in r <==> exists k :: 0 <= k < |rows| && x in LoadOne(path, rows[k])
  {
    var f := row => LoadOne(path, row);
    var r := FlatMap(rows, f);
    FlatMapShorter(rows, f);
    forall x ensures x in r <==> exists k :: 0 <= k < |rows| && x in LoadOne(path, rows[k]) {
      FlatMapMembers(rows, f, x);
      assert forall k :: 0 <= k < |rows| ==> f(rows[k]) == LoadOne(path, rows[k]);
    }
    forall i | 0 <= i < |r| ensures r[i].storyId != "" {
      FlatMapMembers(rows, f, r[i]);
    }
    r
  }

  /** Loading two stretches of a file loads each in turn: the records kept
      are those of the first stretch, then those of the second. */
  lemma LoadRowsConcat(path: string, a: seq<CsvRow>, b: seq<CsvRow>)
    ensures LoadRows(path, a + b) == LoadRows(path, a) + LoadRows(path, b)
  {
    FlatMapConcat(a, b, row => LoadOne(path, row));
  }

  /** A file of one record loads as what that record contributes: together
      with `LoadRowsConcat`, a record is kept iff `LoadOne` keeps it, in
      file order. */
  lemma LoadRowsOne(path: string, row: CsvRow)
    ensures LoadRows(path, [row]) == LoadOne(path, row)
  {
    FlatMapOne(row, row => LoadOne(path, row));
  }

  /** What one record contributes: kept iff one of `story_id`, `id`, `_id`
      is non-empty, with the first non-empty one as its id; the site falls
      back to the guess from the file name when the record has neither a
      `site` nor a `website`. */
  function LoadOne(path: string, row: CsvRow): (r: seq<StoryRow>)
    ensures |r| <= 1
    ensures forall i :: 0 <= i < |r| ==> r[i].storyId != ""
    ensures |r| == 1 <==> Present(Cell(row, "story_id")) || Present(Cell(row, "id")) || Present(Cell(row, "_id"))
    ensures |r| == 1 ==> r[0].storyId == (if Present(Cell(row, "story_id")) then row["story_id"]
                                          else if Present(Cell(row, "id")) then row["id"]
                                          else row["_id"])
    ensures (|r| == 1 && !Present(Cell(row, "site")) && !Present(Cell(row, "website")))
              ==> r[0].site == ExtractSiteFromFilename(path)
  {
    match RowOf(row, ExtractSiteFromFilename(path))
    case Some(x) => [x]
    case None => []
  }

  function StoryIdsOf(rows: seq<StoryRow>): (ids: seq<string>)
    ensures |ids| == |rows|
    ensures forall i :: 0 <= i < |rows| ==> ids[i] == rows[i].storyId
    ensures forall x :: x in ids <==> exists row :: row in rows && row.storyId == x
  {
    if |rows| == 0 then [] else [rows[0].storyId] + StoryIdsOf(rows[1..])
  }

  /** Text-mode reading: "\r\n" and a lone '\r' both end a line. */
  function UniversalNewlines(s: string): (r: string)
    ensures '\r' !in r
  {
    if |s| == 0 then ""
    else if s[0] == '\r' then
      "\n" + UniversalNewlines(if |s| > 1 && s[1] == '\n' then s[2..] else s[1..])
    else [s[0]] + UniversalNewlines(s[1..])
  }

  lemma {:induction false} UniversalNewlinesPlain(s: string)
    requires '\r' !in s
    ensures UniversalNewlines(s) == s
  {
    if |s| > 0 {
      UniversalNewlinesPlain(s[1..]);
      assert s == [s[0]] + s[1..];
    }
  }

  /** The ids file: one id per line, lines stripped, blank lines skipped. */
  function IdsFromText(text: string): (ids: seq<string>)
    ensures forall i :: 0 <= i < |ids| ==> ids[i] != "" && Strip(ids[i]) == ids[i]
    ensures |ids| <= Count(UniversalNewlines(text), '\n') + 1
    ensures '\r' !in text ==>
              forall x :: x in ids <==> x != "" && exists i :: 0 <= i < |Split(text, '\n')| && Strip(Split(text, '\n')[i]) == x
  {
    var lines := Split(UniversalNewlines(text), '\n');
    var ids := NonBlank(lines);
    forall i | 0 <= i < |ids| ensures ids[i] != "" && Strip(ids[i]) == ids[i] {
      FlatMapMembers(lines, StrippedLine, ids[i]);
    }
    assert '\r' !in text ==> lines == Split(text, '\n') by {
      if '\r' !in text {
        UniversalNewlinesPlain(text);
      }
    }
    ids
  }

  /** A file of any lines reads as its lines, each stripped, blank ones
      skipped, in order; a trailing newline only adds a blank last line. */
  lemma IdsFileLines(lines: seq<string>)
    requires |lines| >= 1
    requires forall i :: 0 <= i < |lines| ==> '\n' !in lines[i] && '\r' !in lines[i]
    ensures IdsFromText(Join(lines, '\n')) == NonBlank(lines)
  {
    var text := Join(lines, '\n');
    NoCarriageReturnInJoin(lines);
    UniversalNewlinesPlain(text);
    SplitJoin(lines, '\n');
  }

  /** An ids file written one id per line reads back as the same ids. */
  lemma IdsFileRoundTrip(ids: seq<string>)
    requires |ids| >= 1
    requires forall i :: 0 <= i < |ids| ==> ids[i] != "" && !IsSpace(ids[i][0]) && !IsSpace(ids[i][|ids[i]| - 1])
    requires forall i :: 0 <= i < |ids| ==> '\n' !in ids[i] && '\r' !in ids[i]
    ensures IdsFromText(Join(ids, '\n')) == ids
  {
    IdsFileLines(ids);
    NonBlankKeeps(ids);
  }

  lemma {:induction false} NoCarriageReturnInJoin(parts: seq<string>)
    requires |parts| >= 1
    requires forall i :: 0 <= i < |parts| ==> '\r' !in parts[i]
    ensures '\r' !in Join(parts, '\n')
    decreases |parts|
  {
    if |parts| > 1 {
      NoCarriageReturnInJoin(parts[1..]);
    }
  }

  /** `story_ids[:limit]` behind `if args.limit`: no limit and 0 keep every
      id, a positive limit keeps that many from the front, a negative one
      drops that many from the back. */
  function ApplyLimit(ids: seq<string>, limit: Option<int>): (r: seq<string>)
    ensures r <= ids
    ensures limit.None? || limit.value == 0 ==> r == ids
    ensures limit.Some? && limit.value > 0 ==> |r| == if limit.value < |ids| then limit.value else |ids|
    ensures limit.Some? && limit.value < 0 ==> |r| == if |ids| + limit.value > 0 then |ids| + limit.value else 0
  {
    match limit
    case None => ids
    case Some(n) =>
      if n == 0 then ids
      else if n > 0 then ids[..if n < |ids| then n else |ids|]
      else ids[..if |ids| + n > 0 then |ids| + n else 0]
  }

  /** The `--csv-dir` listing filter: `fname.lower().endswith('.csv')`. */
  predicate IsCsvName(name: string) {
    EndsWith(Lower(name), ".csv")
  }

  function FilterCsv(names: seq<string>): (r: seq<string>)
    ensures forall x :: x in r <==> x in names && IsCsvName(x)
    ensures Ascending(names) ==> Ascending(r)
  {
    if |names| == 0 then []
    else
      var rest := FilterCsv(names[1..]);
      if !IsCsvName(names[0]) then
        assert Ascending(names) ==> Ascending(names[1..]);
        rest
      else
        var r := [names[0]] + rest;
        assert Ascending(names) ==> Ascending(r) by {
          if Ascending(names) {
            assert Ascending(names[1..]);
            forall i | 0 <= i < |rest| ensures LexLe(names[0], rest[i]) {
              assert rest[i] in names[1..];
              var k :| 0 <= k < |names[1..]| && names[1..][k] == rest[i];
              assert names[k + 1] == rest[i];
            }
            AscendingCons(names[0], rest);
          }
        }
        r
  }

  /** The CSV files of a directory listing, in sorted name order. */
  function CsvFiles(listing: seq<string>): (r: seq<string>)
    ensures forall x :: x in r <==> x in listing && IsCsvName(x)
    ensures Ascending(r)
  {
    var sorted := Sort(listing);
    forall x ensures x in sorted <==> x in listing {
      assert x in sorted <==> x in multiset(sorted);
      assert x in listing <==> x in multiset(listing);
    }
    FilterCsv(sorted)
  }

  /** Where the story ids come from: `--csv`, else `--csv-dir`, else the
      ids file. File contents are inputs. */
  datatype IdSource =
    | CsvFile(path: string, rows: seq<CsvRow>)
    | CsvDir(dir: string, listing: seq<string>, rowsOf: string -> seq<CsvRow>)
    | IdsFile(text: string)

  /** The ids of the CSV files of a directory, file after file, each file's
      ids in record order. */
  function IdsOfFiles(dir: string, files: seq<string>, rowsOf: string -> seq<CsvRow>): (ids: seq<string>)
    ensures forall i :: 0 <= i < |ids| ==> ids[i] != ""
    ensures forall x :: x in ids <==>
              exists k :: 0 <= k < |files| && x in StoryIdsOf(LoadRows(JoinPath(dir, files[k]), rowsOf(files[k])))
  {
    var f := name => StoryIdsOf(LoadRows(JoinPath(dir, name), rowsOf(name)));
    var ids := FlatMap(files, f);
    forall x ensures x in ids <==>
              exists k :: 0 <= k < |files| && x in StoryIdsOf(LoadRows(JoinPath(dir, files[k]), rowsOf(files[k])))
    {
      FlatMapMembers(files, f, x);
      assert forall k :: 0 <= k < |files| ==>
               f(files[k]) == StoryIdsOf(LoadRows(JoinPath(dir, files[k]), rowsOf(files[k])));
    }
    forall i | 0 <= i < |ids| ensures ids[i] != "" {
      FlatMapMembers(files, f, ids[i]);
    }
    ids
  }

  /** The ids of a listing split in two are the ids of the first part, then
      those of the second; one file gives its own ids. */
  lemma IdsOfFilesConcat(dir: string, a: seq<string>, b: seq<string>, rowsOf: string -> seq<CsvRow>)
    ensures IdsOfFiles(dir, a + b, rowsOf) == IdsOfFiles(dir, a, rowsOf) + IdsOfFiles(dir, b, rowsOf)
    ensures |a| == 1 ==> IdsOfFiles(dir, a, rowsOf) == StoryIdsOf(LoadRows(JoinPath(dir, a[0]), rowsOf(a[0])))
  {
    var f := name => StoryIdsOf(LoadRows(JoinPath(dir, name), rowsOf(name)));
    FlatMapConcat(a, b, f);
    if |a| == 1 {
      assert a == [a[0]];
      FlatMapOne(a[0], f);
    }
  }

  /** The story ids `__main__` processes, `--limit` applied: the ids of the
      `--csv` file; else those of every CSV file of `--csv-dir`, in sorted
      name order; else the lines of the ids file. */
  function StoryIds(source: IdSource, limit: Option<int>): (r: seq<string>)
    ensures forall i :: 0 <= i < |r| ==> r[i] != ""
    ensures source.CsvFile? ==> r == ApplyLimit(StoryIdsOf(LoadRows(source.path, source.rows)), limit)
    ensures source.CsvDir? ==> r == ApplyLimit(IdsOfFiles(source.dir, CsvFiles(source.listing), source.rowsOf), limit)
    ensures source.IdsFile? ==> r == ApplyLimit(IdsFromText(source.text), limit)
  {
    var ids := match source
      case CsvFile(path, rows) => StoryIdsOf(LoadRows(path, rows))
      case CsvDir(dir, listing, rowsOf) => IdsOfFiles(dir, CsvFiles(listing), rowsOf)
      case IdsFile(text) => IdsFromText(text);
    ApplyLimit(ids, limit)
  }

  /** An id comes out of a CSV file iff some record of it names that id. */
  lemma LoadRowsIds(path: string, rows: seq<CsvRow>, x: string)
    ensures x in StoryIdsOf(LoadRows(path, rows)) <==>
              exists row :: row in rows && x in StoryIdsOf(LoadOne(path, row))
  {
    var loaded := LoadRows(path, rows);
    if x in StoryIdsOf(loaded) {
      var sr :| sr in loaded && sr.storyId == x;
      var j :| 0 <= j < |rows| && sr in LoadOne(path, rows[j]);
      assert x in StoryIdsOf(LoadOne(path, rows[j]));
    }
    if exists row :: row in rows && x in StoryIdsOf(LoadOne(path, row)) {
      var row :| row in rows && x in StoryIdsOf(LoadOne(path, row));
      var one := LoadOne(path, row);
      var j :| 0 <= j < |rows| && rows[j] == row;
      assert one[0] in loaded;
    }
  }

  /** An id comes out of a list of CSV files iff it comes out of one of
      them. */
  lemma IdsOfFilesMembers(dir: string, files: seq<string>, rowsOf: string -> seq<CsvRow>, x: string)
    ensures x in IdsOfFiles(dir, files, rowsOf) <==>
              exists name :: name in files && x in StoryIdsOf(LoadRows(JoinPath(dir, name), rowsOf(name)))
  {
    if exists name :: name in files && x in StoryIdsOf(LoadRows(JoinPath(dir, name), rowsOf(name))) {
      var name :| name in files && x in StoryIdsOf(LoadRows(JoinPath(dir, name), rowsOf(name)));
      var k :| 0 <= k < |files| && files[k] == name;
      assert x in StoryIdsOf(LoadRows(JoinPath(dir, files[k]), rowsOf(files[k])));
    }
  }

  /** With no limit, `--csv-dir` processes exactly the ids that some record
      of some CSV file of the directory names. */
  lemma CsvDirIds(dir: string, listing: seq<string>, rowsOf: string -> seq<CsvRow>, x: string)
    ensures x in StoryIds(CsvDir(dir, listing, rowsOf), None) <==>
              exists name :: name in listing && IsCsvName(name) && x in StoryIdsOf(LoadRows(JoinPath(dir, name), rowsOf(name)))
  {
    var files := CsvFiles(listing);
    assert StoryIds(CsvDir(dir, listing, rowsOf), None) == IdsOfFiles(dir, files, rowsOf);
    IdsOfFilesMembers(dir, files, rowsOf, x);
    assert forall name :: name in files <==> name in listing && IsCsvName(name);
  }
}
