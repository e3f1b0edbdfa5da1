/** How the story audit walks a date window: one count request decides
    whether the window is empty, too large (halve it) or paged through
    `PageSize` stories at a time; each story is turned into items by
    `parse_story_for_photos` (photo references) or by the id listing (story
    tuples). Replies are inputs: a request that fails is `None`. */
module StoryWindows {
  import opened Wrappers
  import opened Json
  import opened Seqs
  import opened Windows
  import opened Search
  import opened Stories

  /* --------------------------------------------------------------- pages */

  /** The paging loop of `retrieve_window` as written: from `offset`, ask
      for a page, keep its stories' items, advance by the number of stories
      and stop once the offset reaches `count`. A failed request ends the
      loop with what was collected; an exception ends the window. A page
      without stories leaves the offset where it was, so the loop asks for
      the same page again; `fuel` bounds the number of requests. */
  function PagesAsWritten<T>(count: int, offset: int, page: int -> Option<Value>, extract: Value -> Result<seq<T>>, fuel: nat): Result<seq<T>>
    decreases fuel, 1
  {
    if offset >= count then Success([])
    else if fuel == 0 then Failure(OutOfFuel)
    else if page(offset).None? then Success([])
    else NextAsWritten(count, offset, page, extract, fuel - 1, Contents(page(offset).value))
  }

  /** The rest of one request of the loop as written: keep the items of the
      page's stories, then go on from the advanced offset. */
  function NextAsWritten<T>(count: int, offset: int, page: int -> Option<Value>, extract: Value -> Result<seq<T>>, fuel: nat, stories: Result<seq<Value>>): Result<seq<T>>
    decreases fuel, 2
  {
    if stories.Failure? then Failure(stories.error)
    else
      var next := offset + |stories.value|;
      Then(CollectAll(stories.value, extract), PagesAsWritten(count, next, page, extract, fuel))
  }

  /** The loop as evidently intended: the same, except that a page without
      stories ends it, as the video audit's loop does. */
  function Pages<T>(count: int, offset: int, page: int -> Option<Value>, extract: Value -> Result<seq<T>>): Result<seq<T>>
    decreases if offset < count then count - offset else 0, 1
  {
    if offset >= count || page(offset).None? then Success([])
    else Next(count, offset, page, extract, Contents(page(offset).value))
  }

  function Next<T>(count: int, offset: int, page: int -> Option<Value>, extract: Value -> Result<seq<T>>, stories: Result<seq<Value>>): Result<seq<T>>
    requires offset < count
    decreases count - offset, 0
  {
    if stories.Failure? then Failure(stories.error)
    else
      var next := offset + |stories.value|;
      Then(CollectAll(stories.value, extract), if |stories.value| == 0 then Success([]) else Pages(count, next, page, extract))
  }

  /** One request of the loop as written. */
  lemma PagesAsWrittenStep<T>(count: int, offset: int, next: int, page: int -> Option<Value>, extract: Value -> Result<seq<T>>, fuel: nat, less: nat, stories: seq<Value>)
    requires offset < count && fuel == less + 1
    requires page(offset).Some? && Contents(page(offset).value) == Success(stories)
    requires next == offset + |stories|
    ensures PagesAsWritten(count, offset, page, extract, fuel) ==
      Then(CollectAll(stories, extract), PagesAsWritten(count, next, page, extract, less))
  {
    assert PagesAsWritten(count, offset, page, extract, fuel) == NextAsWritten(count, offset, page, extract, less, Success(stories));
    NextAsWrittenUnfold(count, offset, next, page, extract, less, stories);
  }

  lemma NextAsWrittenUnfold<T>(count: int, offset: int, next: int, page: int -> Option<Value>, extract: Value -> Result<seq<T>>, fuel: nat, stories: seq<Value>)
    requires next == offset + |stories|
    ensures NextAsWritten(count, offset, page, extract, fuel, Success(stories)) ==
      Then(CollectAll(stories, extract), PagesAsWritten(count, next, page, extract, fuel))
  {
  }

  /** One request of the intended loop. */
  lemma PagesStep<T>(count: int, offset: int, next: int, page: int -> Option<Value>, extract: Value -> Result<seq<T>>, stories: seq<Value>)
    requires offset < count
    requires page(offset).Some? && Contents(page(offset).value) == Success(stories)
    requires next == offset + |stories|
    ensures Pages(count, offset, page, extract) ==
      Then(CollectAll(stories, extract), if |stories| == 0 then Success([]) else Pages(count, next, page, extract))
  {
    assert Pages(count, offset, page, extract) == Next(count, offset, page, extract, Success(stories));
    NextUnfold(count, offset, next, page, extract, stories);
  }

  lemma NextUnfold<T>(count: int, offset: int, next: int, page: int -> Option<Value>, extract: Value -> Result<seq<T>>, stories: seq<Value>)
    requires offset < count && next == offset + |stories|
    ensures Next(count, offset, page, extract, Success(stories)) ==
      Then(CollectAll(stories, extract), if |stories| == 0 then Success([]) else Pages(count, next, page, extract))
  {
  }

  /** Whatever the loop as written returns, the intended loop returns too,
      unless the loop as written never ends. */
  lemma PagesAsWrittenAgrees<T>(count: int, offset: int, page: int -> Option<Value>, extract: Value -> Result<seq<T>>, fuel: nat)
    ensures PagesAsWritten(count, offset, page, extract, fuel) == Failure(OutOfFuel)
         || PagesAsWritten(count, offset, page, extract, fuel) == Pages(count, offset, page, extract)
  {
    AgreesByFuel(count, offset, page, extract, fuel);
  }

  lemma {:induction false} AgreesByFuel<T>(count: int, offset: int, page: int -> Option<Value>, extract: Value -> Result<seq<T>>, fuel: nat)
    ensures Agrees(count, offset, page, extract, fuel)
    decreases fuel
  {
    if offset < count && fuel > 0 && page(offset).Some? && Contents(page(offset).value).Success? {
      var stories := Contents(page(offset).value).value;
      var next, less: nat := offset + |stories|, fuel - 1;
      AgreesByFuel(count, next, page, extract, less);
      AgreesStep(count, offset, next, page, extract, fuel, less, stories);
    } else {
      PagesEnd(count, offset, page, extract, fuel);
    }
  }

  /** The loop as written ran out of requests or found what the intended
      loop finds. */
  ghost predicate Agrees<T>(count: int, offset: int, page: int -> Option<Value>, extract: Value -> Result<seq<T>>, fuel: nat) {
    PagesAsWritten(count, offset, page, extract, fuel) == Failure(OutOfFuel)
    || PagesAsWritten(count, offset, page, extract, fuel) == Pages(count, offset, page, extract)
  }

  lemma AgreesStep<T>(count: int, offset: int, next: int, page: int -> Option<Value>, extract: Value -> Result<seq<T>>, fuel: nat, less: nat, stories: seq<Value>)
    requires offset < count && fuel == less + 1
    requires page(offset).Some? && Contents(page(offset).value) == Success(stories)
    requires next == offset + |stories|
    requires Agrees(count, next, page, extract, less)
    ensures Agrees(count, offset, page, extract, fuel)
  {
    PagesAsWrittenStep(count, offset, next, page, extract, fuel, less, stories);
    PagesStep(count, offset, next, page, extract, stories);
    if |stories| == 0 {
      EmptyCollectAll(stories, extract);
      var none: seq<T> := [];
      assert none + none == none;
    }
  }

  /** The requests that end both loops at once. */
  lemma PagesEnd<T>(count: int, offset: int, page: int -> Option<Value>, extract: Value -> Result<seq<T>>, fuel: nat)
    requires !(offset < count && fuel > 0 && page(offset).Some? && Contents(page(offset).value).Success?)
    ensures offset < count && fuel == 0 ==> PagesAsWritten(count, offset, page, extract, fuel) == Failure(OutOfFuel)
    ensures !(offset < count && fuel == 0) ==> PagesAsWritten(count, offset, page, extract, fuel) == Pages(count, offset, page, extract)
    ensures PagesAsWritten(count, offset, page, extract, fuel) == Failure(OutOfFuel)
         || PagesAsWritten(count, offset, page, extract, fuel) == Pages(count, offset, page, extract)
  {
  }

  lemma EmptyCollectAll<A, B>(xs: seq<A>, f: A -> Result<seq<B>>)
    requires |xs| == 0
    ensures CollectAll(xs, f) == Success([])
  {
  }

  /** A page without stories before the count is reached: the loop as
      written asks for it again and again, however many requests it is
      allowed, while the intended loop stops with nothing. */
  lemma {:induction false} EmptyPageSpins<T>(count: int, offset: int, page: int -> Option<Value>, extract: Value -> Result<seq<T>>, fuel: nat)
    requires offset < count
    requires page(offset).Some? && Contents(page(offset).value) == Success([])
    ensures PagesAsWritten(count, offset, page, extract, fuel) == Failure(OutOfFuel)
    ensures Pages(count, offset, page, extract) == Success([])
    decreases fuel
  {
    var none: seq<Value> := [];
    EmptyCollectAll(none, extract);
    PagesStep(count, offset, offset, page, extract, none);
    assert none + none == none;
    if fuel > 0 {
      var less: nat := fuel - 1;
      PagesAsWrittenStep(count, offset, offset, page, extract, fuel, less, none);
      EmptyPageSpins(count, offset, page, extract, less);
    }
  }

  /** The reply of a service that reports one hit but returns no stories. */
  const EmptyPage: Value := Obj([("count", Num(1)), ("content_elements", Arr([]))])

  function AlwaysEmpty(offset: int): Option<Value> {
    Some(EmptyPage)
  }

  /** The input that shows it: a window whose count is 1 and whose page is
      empty keeps `retrieve_window` asking for photo references forever. */
  lemma EmptyPageExample(fuel: nat)
    ensures PagesAsWritten(1, 0, AlwaysEmpty, ParseStoryForPhotos, fuel) == Failure(OutOfFuel)
    ensures Pages(1, 0, AlwaysEmpty, ParseStoryForPhotos) == Success([])
  {
    assert Lookup(EmptyPage.fields, "content_elements") == Some(Arr([]));
    EmptyPageSpins(1, 0, AlwaysEmpty, ParseStoryForPhotos, fuel);
  }

  /** Against a service that serves the same hits on every page, the
      intended loop keeps the items of every hit from `offset` on, in
      order. */
  lemma {:induction false} ServedPages<T>(hits: seq<Value>, offset: int, extract: Value -> Result<seq<T>>)
    requires 0 <= offset <= |hits|
    ensures Pages(|hits|, offset, Served(hits), extract) == CollectAll(hits[offset..], extract)
    decreases |hits| - offset
  {
    if offset < |hits| {
      var stories, next := ServedStep(hits, offset, extract);
      PagesStep(|hits|, offset, next, Served(hits), extract, stories);
      ServedPages(hits, next, extract);
    } else {
      EmptyCollectAll(hits[offset..], extract);
    }
  }

  /** With one request per hit to spare, the loop as written keeps the same
      items against such a service. */
  lemma ServedPagesAsWritten<T>(hits: seq<Value>, offset: int, extract: Value -> Result<seq<T>>, fuel: nat)
    requires 0 <= offset <= |hits|
    requires fuel >= |hits| - offset
    ensures PagesAsWritten(|hits|, offset, Served(hits), extract, fuel) == CollectAll(hits[offset..], extract)
  {
    AsWrittenServes(hits, offset, extract);
  }

  /** With enough fuel the loop as written from `offset` keeps the items of
      the hits from there. */
  ghost predicate AsWrittenReads<T>(hits: seq<Value>, offset: int, extract: Value -> Result<seq<T>>)
    requires 0 <= offset <= |hits|
  {
    forall fuel: nat :: fuel >= |hits| - offset ==>
      PagesAsWritten(|hits|, offset, Served(hits), extract, fuel) == CollectAll(hits[offset..], extract)
  }

  lemma {:induction false} AsWrittenServes<T>(hits: seq<Value>, offset: int, extract: Value -> Result<seq<T>>)
    requires 0 <= offset <= |hits|
    ensures AsWrittenReads(hits, offset, extract)
    decreases |hits| - offset
  {
    if offset < |hits| {
      var next := offset + |PageOf(hits, offset)|;
      AsWrittenServes(hits, next, extract);
      forall fuel: nat | fuel >= |hits| - offset
        ensures PagesAsWritten(|hits|, offset, Served(hits), extract, fuel) == CollectAll(hits[offset..], extract)
      {
        var less: nat := fuel - 1;
        assert PagesAsWritten(|hits|, next, Served(hits), extract, less) == CollectAll(hits[next..], extract);
        ServedAsWrittenStep(hits, offset, next, extract, fuel, less);
      }
    } else {
      forall fuel: nat
        ensures PagesAsWritten(|hits|, offset, Served(hits), extract, fuel) == CollectAll(hits[offset..], extract)
      {
        ServedEnd(hits, offset, extract, fuel);
      }
    }
  }

  lemma ServedAsWrittenStep<T>(hits: seq<Value>, offset: int, next: int, extract: Value -> Result<seq<T>>, fuel: nat, less: nat)
    requires 0 <= offset < |hits| && fuel == less + 1
    requires next == offset + |PageOf(hits, offset)| && next <= |hits|
    requires PagesAsWritten(|hits|, next, Served(hits), extract, less) == CollectAll(hits[next..], extract)
    ensures PagesAsWritten(|hits|, offset, Served(hits), extract, fuel) == CollectAll(hits[offset..], extract)
  {
    var stories, _ := ServedStep(hits, offset, extract);
    PagesAsWrittenStep(|hits|, offset, next, Served(hits), extract, fuel, less, stories);
  }

  lemma ServedEnd<T>(hits: seq<Value>, offset: int, extract: Value -> Result<seq<T>>, fuel: nat)
    requires offset == |hits|
    ensures PagesAsWritten(|hits|, offset, Served(hits), extract, fuel) == CollectAll(hits[offset..], extract)
  {
    EmptyCollectAll(hits[offset..], extract);
  }

  /** One page of such a service: a non-empty run of the hits from
      `offset`, whose items come first. */
  lemma ServedStep<T>(hits: seq<Value>, offset: int, extract: Value -> Result<seq<T>>) returns (stories: seq<Value>, next: int)
    requires 0 <= offset < |hits|
    ensures Served(hits)(offset).Some? && Contents(Served(hits)(offset).value) == Success(stories)
    ensures stories == PageOf(hits, offset)
    ensures stories != [] && next == offset + |stories| && offset < next <= |hits|
    ensures CollectAll(hits[offset..], extract) == Then(CollectAll(stories, extract), CollectAll(hits[next..], extract))
  {
    ServedContents(hits, offset);
    stories := PageOf(hits, offset);
    next := offset + |stories|;
    var rest := hits[offset..];
    assert stories == rest[..|stories|];
    assert rest[|stories|..] == hits[next..];
    CollectAllSplit(rest, |stories|, extract);
  }

  /* ------------------------------------------------------------- windows */

  /** The first request for a window: a failed count request gives nothing;
      a count of zero gives nothing; a count above the result window halves
      the window; any other count pages through the window's stories. A
      count reply that is no dictionary has no `get`, and a count that is no
      number cannot be compared. */
  function ProbeWindow<T>(w: Window, count: Window -> Option<Value>, page: Window -> int -> Option<Value>, extract: Value -> Result<seq<T>>, fuel: nat): (r: Result<Probe<T>>)
    ensures count(w).None? ==> r == Success(Leaf([]))
    ensures count(w).Some? && !count(w).value.Obj? ==> r == Failure(AttributeError)
    ensures count(w).Some? && count(w).value.Obj? ==>
      (r == Success(Halve) <==> Decide(CountOf(count(w).value)) == Success(Split))
  {
    match count(w)
    case None => Success(Leaf([]))
    case Some(data) =>
      if !data.Obj? then Failure(AttributeError)
      else
        var d :- Decide(CountOf(data));
        match d
        case NoHits => Success(Leaf([]))
        case Split => Success(Halve)
        case Fetch(n) =>
          var items :- PagesAsWritten(n, 0, page(w), extract, fuel);
          Success(Leaf(items))
  }

  function Prober<T>(count: Window -> Option<Value>, page: Window -> int -> Option<Value>, extract: Value -> Result<seq<T>>, fuel: nat): Window -> Result<Probe<T>> {
    (w: Window) => ProbeWindow(w, count, page, extract, fuel)
  }

  /** `collect_stories_by_date_range`: the photo references of the stories
      of window `w`. */
  function CollectStoriesByDateRange(w: Window, count: Window -> Option<Value>, page: Window -> int -> Option<Value>, fuel: nat): Result<seq<PhotoRef>> {
    Bisect(w, Prober(count, page, ParseStoryForPhotos, fuel))
  }

  /** `collect_story_ids_by_date_range`: the story tuples of window `w`. */
  function CollectStoryIdsByDateRange(w: Window, count: Window -> Option<Value>, page: Window -> int -> Option<Value>, fuel: nat): Result<seq<StoryTuple>> {
    Bisect(w, Prober(count, page, StoryTupleOf, fuel))
  }

  /** What the first request for a window of an archive decides: nothing
      for no hits, halving above the result window, and otherwise the items
      of all the window's hits. */
  lemma ArchiveProbe<T>(archive: seq<Hit>, w: Window, extract: Value -> Result<seq<T>>, fuel: nat)
    requires fuel >= MaxResultWindow
    ensures var probe := Prober(ArchiveCount(archive), ArchivePages(archive), extract, fuel);
      var hits := HitsIn(archive, w);
      && (|hits| == 0 ==> probe(w) == Success(Leaf([])))
      && (|hits| > MaxResultWindow ==> probe(w) == Success(Halve))
      && (0 < |hits| <= MaxResultWindow ==> probe(w) == AsLeaf(CollectAll(hits, extract)))
  {
    var hits := HitsIn(archive, w);
    var data := ServedReply(hits, 0);
    ServedContents(hits, 0);
    assert ArchiveCount(archive)(w) == Some(data);
    if 0 < |hits| <= MaxResultWindow {
      assert AsInt(CountOf(data)) == Some(|hits|);
      ProbeFetches(w, ArchiveCount(archive), ArchivePages(archive), extract, fuel, data, |hits|);
      assert ArchivePages(archive)(w) == Served(hits);
      ServedPagesAsWritten(hits, 0, extract, fuel);
      assert hits[0..] == hits;
    }
  }

  /** A count within the result window pages through the window. */
  lemma ProbeFetches<T>(w: Window, count: Window -> Option<Value>, page: Window -> int -> Option<Value>, extract: Value -> Result<seq<T>>, fuel: nat, data: Value, n: int)
    requires count(w) == Some(data) && data.Obj?
    requires Decide(CountOf(data)) == Success(Fetch(n))
    ensures ProbeWindow(w, count, page, extract, fuel) == AsLeaf(PagesAsWritten(n, 0, page(w), extract, fuel))
  {
  }

  /** Against a service that answers from a chronological archive, the
      bisection keeps exactly the items of the window's stories in
      publication order. It can only fail where extracting the items fails,
      or where a single second holds more stories than the result window
      and halving it never ends. */
  lemma ArchiveStories<T>(archive: seq<Hit>, w: Window, extract: Value -> Result<seq<T>>, fuel: nat)
    requires Chronological(archive)
    requires fuel >= MaxResultWindow
    ensures var r := Bisect(w, Prober(ArchiveCount(archive), ArchivePages(archive), extract, fuel));
      r.Success? ==> r == CollectAll(HitsIn(archive, w), extract)
    ensures var r := Bisect(w, Prober(ArchiveCount(archive), ArchivePages(archive), extract, fuel));
      r.Failure? ==>
        || CollectAll(HitsIn(archive, w), extract).Failure?
        || (r.error == RecursionLimit && exists x :: w.start <= x <= w.end && |HitsBetween(archive, x, x)| > MaxResultWindow)
  {
    var probe := Prober(ArchiveCount(archive), ArchivePages(archive), extract, fuel);
    forall v: Window ensures ProbesWindow(archive, probe, extract, v) {
      ArchiveProbe(archive, v, extract, fuel);
    }
    ArchiveBisect(archive, w, probe, extract);
  }
}
