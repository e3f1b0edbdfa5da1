/** The content search service both audits page through: what they read
    from a reply, what a window's hit count decides, and a service that
    answers consistently from a fixed list of hits. Replies are inputs. */
module Search {
  import opened Wrappers
  import opened Json
  import opened Windows
  import opened Seqs

  /** Hits asked for per page. */
  const PageSize: nat := 100

  /** `data.get("content_elements", [])`, iterated: a reply that is no
      dictionary has no `get`, and a value that cannot be iterated raises
      TypeError. */
  function Contents(data: Value): (r: Result<seq<Value>>)
    ensures !data.Obj? ==> r == Failure(AttributeError)
    ensures data.Obj? && !HasKey(data.fields, "content_elements") ==> r == Success([])
    ensures data.Obj? && Lookup(data.fields, "content_elements").Some? && Lookup(data.fields, "content_elements").value.Arr? ==>
      r == Success(Lookup(data.fields, "content_elements").value.items)
  {
    if !data.Obj? then Failure(AttributeError)
    else
      match Iterate(GetOr(data, "content_elements", Arr([])))
      case None => Failure(TypeError)
      case Some(xs) => Success(xs)
  }

  /** `data.get("count", 0)`. */
  function CountOf(data: Value): Value
    requires data.Obj?
  {
    GetOr(data, "count", Num(0))
  }

  /** Python's `count == 0`: true for the number zero and for False. */
  predicate IsZero(v: Value) {
    v == Num(0) || v == Bool(false)
  }

  /** What a window's hit count decides: nothing to fetch, halve the window,
      or page through `count` hits. */
  datatype Decision = NoHits | Split | Fetch(count: int)

  /** `if count == 0 ... if count > MAX_RESULT_WINDOW ...`: the comparison
      with a number raises TypeError for a count that is no number. */
  function Decide(count: Value): (r: Result<Decision>)
    ensures r == Success(NoHits) <==> IsZero(count)
    ensures r == Success(Split) <==> AsInt(count).Some? && AsInt(count).value > MaxResultWindow
    ensures r.Success? && r.value.Fetch? ==> 0 < r.value.count <= MaxResultWindow || r.value.count < 0
    ensures r.Failure? <==> AsInt(count).None?
  {
    if IsZero(count) then Success(NoHits)
    else
      match AsInt(count)
      case None => Failure(TypeError)
      case Some(n) => if n > MaxResultWindow then Success(Split) else Success(Fetch(n))
  }

  function Clamp(i: int, hi: nat): (c: nat)
    ensures c <= hi
  {
    if i < 0 then 0 else if i > hi then hi else i
  }

  /** The hits a consistent service returns for a page starting at
      `offset`. */
  function PageOf(hits: seq<Value>, offset: int): (page: seq<Value>)
    ensures 0 <= offset < |hits| ==> page != [] && offset + |page| <= |hits| && page == hits[offset..offset + |page|]
    ensures 0 <= offset < |hits| ==> |page| == PageSize || offset + |page| == |hits|
  {
    hits[Clamp(offset, |hits|)..Clamp(offset + PageSize, |hits|)]
  }

  /** A reply of the consistent service: the hit count and the page. */
  function ServedReply(hits: seq<Value>, offset: int): Value {
    Obj([("count", Num(|hits|)), ("content_elements", Arr(PageOf(hits, offset)))])
  }

  /** A service that answers every page request from the same hits. */
  function Served(hits: seq<Value>): int -> Option<Value> {
    offset => Some(ServedReply(hits, offset))
  }

  /** What the page loops read from a consistent reply. */
  lemma ServedContents(hits: seq<Value>, offset: int)
    ensures Contents(ServedReply(hits, offset)) == Success(PageOf(hits, offset))
    ensures CountOf(ServedReply(hits, offset)) == Num(|hits|)
  {
    var fs := ServedReply(hits, offset).fields;
    assert fs[1..][0] == ("content_elements", Arr(PageOf(hits, offset)));
    assert Lookup(fs, "content_elements") == Lookup(fs[1..], "content_elements");
  }

  /** `get_extreme_publish_date` (the same in both audits): the
      `publish_date` of the first item of a one-item page sorted by publish
      date, or None (here Null) when the request failed (`reply` None), the
      page is empty, or reading it raises anything, which the function
      catches. */
  function ExtremePublishDate(reply: Option<Value>): (r: Value)
    ensures reply.None? || !reply.value.Obj? ==> r == Null
    ensures r != Null ==> Contents(reply.value).Success? && |Contents(reply.value).value| > 0
  {
    match reply
    case None => Null
    case Some(data) =>
      if !data.Obj? then Null
      else
        match GetOr(data, "content_elements", Arr([]))
        case Arr(items) =>
          if |items| == 0 || !items[0].Obj? then Null else Get(items[0], "publish_date")
        case _ => Null
  }

  /** On a service listing the site's items in the order asked for, the
      date read is the first item's. */
  lemma ExtremeOfServed(hits: seq<Value>)
    ensures ExtremePublishDate(Some(ServedReply(hits, 0)))
      == if |hits| == 0 || !hits[0].Obj? then Null else Get(hits[0], "publish_date")
  {
    ServedContents(hits, 0);
    var fs := ServedReply(hits, 0).fields;
    assert fs[1..][0] == ("content_elements", Arr(PageOf(hits, 0)));
    assert Lookup(fs, "content_elements") == Lookup(fs[1..], "content_elements");
    if |hits| > 0 {
      assert PageOf(hits, 0)[0] == hits[0];
    }
  }

  /* ------------------------------------------------------------ archive */

  /** One stored document and the second it was published at, counted from
      `datetime.min`. */
  datatype Hit = Hit(second: int, doc: Value)

  /** The service lists hits in publication order. */
  predicate Chronological(archive: seq<Hit>) {
    forall i, j :: 0 <= i < j < |archive| ==> archive[i].second <= archive[j].second
  }

  /** The documents published from second `lo` to second `hi`, both
      included, in archive order. */
  function HitsBetween(archive: seq<Hit>, lo: int, hi: int): (docs: seq<Value>)
    ensures |docs| <= |archive|
  {
    if |archive| == 0 then []
    else
      var h := archive[0];
      (if lo <= h.second <= hi then [h.doc] else []) + HitsBetween(archive[1..], lo, hi)
  }

  /** The documents published up to second `hi`, in archive order. */
  function HitsUpTo(archive: seq<Hit>, hi: int): (docs: seq<Value>)
    ensures |docs| <= |archive|
  {
    if |archive| == 0 then []
    else (if archive[0].second <= hi then [archive[0].doc] else []) + HitsUpTo(archive[1..], hi)
  }

  /** From a lower bound no hit is earlier than, a range holds every hit up
      to its upper end. */
  lemma {:induction false} HitsFromOldest(archive: seq<Hit>, lo: int, hi: int)
    requires forall i :: 0 <= i < |archive| ==> lo <= archive[i].second
    ensures HitsBetween(archive, lo, hi) == HitsUpTo(archive, hi)
    decreases |archive|
  {
    if |archive| > 0 {
      assert forall i :: 0 <= i < |archive[1..]| ==> archive[1..][i] == archive[i + 1];
      HitsFromOldest(archive[1..], lo, hi);
    }
  }

  /** The hits of a window. */
  function HitsIn(archive: seq<Hit>, w: Window): seq<Value> {
    HitsBetween(archive, w.start, w.end)
  }

  /** A service that answers every query for window `w` from the archive's
      hits in `w`: the count request and each page agree. */
  function ArchiveCount(archive: seq<Hit>): Window -> Option<Value> {
    (w: Window) => Some(ServedReply(HitsIn(archive, w), 0))
  }

  function ArchivePages(archive: seq<Hit>): Window -> int -> Option<Value> {
    (w: Window) => Served(HitsIn(archive, w))
  }

  /** Nothing published after `hi` falls in `[lo, hi]`. */
  lemma {:induction false} HitsBetweenLater(archive: seq<Hit>, lo: int, hi: int)
    requires forall i :: 0 <= i < |archive| ==> archive[i].second > hi
    ensures HitsBetween(archive, lo, hi) == []
    decreases |archive|
  {
    if |archive| > 0 {
      HitsBetweenLater(archive[1..], lo, hi);
    }
  }

  /** The documents of any window are documents of the archive. */
  lemma {:induction false} HitsBetweenKeeps(archive: seq<Hit>, lo: int, hi: int, p: Value -> bool)
    requires forall i :: 0 <= i < |archive| ==> p(archive[i].doc)
    ensures forall x :: x in HitsBetween(archive, lo, hi) ==> p(x)
    decreases |archive|
  {
    if |archive| > 0 {
      assert forall i :: 0 <= i < |archive[1..]| ==> archive[1..][i] == archive[i + 1];
      HitsBetweenKeeps(archive[1..], lo, hi, p);
    }
  }

  /** In a chronological archive the hits of `[lo, hi]` are those of
      `[lo, mid]` followed by those of `[mid + 1, hi]`. */
  lemma {:induction false} HitsBetweenSplit(archive: seq<Hit>, lo: int, mid: int, hi: int)
    requires Chronological(archive)
    requires lo <= mid < hi
    ensures HitsBetween(archive, lo, hi) == HitsBetween(archive, lo, mid) + HitsBetween(archive, mid + 1, hi)
    decreases |archive|
  {
    if |archive| > 0 {
      var h, rest := archive[0], archive[1..];
      ChronologicalTail(archive);
      HitsBetweenSplit(rest, lo, mid, hi);
      if mid < h.second <= hi {
        ChronologicalAfter(archive, mid);
        HitsBetweenLater(rest, lo, mid);
      }
    }
  }

  lemma ChronologicalTail(archive: seq<Hit>)
    requires Chronological(archive) && |archive| > 0
    ensures Chronological(archive[1..])
  {
    var rest := archive[1..];
    forall i, j | 0 <= i < j < |rest| ensures rest[i].second <= rest[j].second {
      assert rest[i] == archive[i + 1] && rest[j] == archive[j + 1];
    }
  }

  lemma ChronologicalAfter(archive: seq<Hit>, t: int)
    requires Chronological(archive) && |archive| > 0 && archive[0].second > t
    ensures forall i :: 0 <= i < |archive[1..]| ==> archive[1..][i].second > t
  {
    forall i | 0 <= i < |archive[1..]| ensures archive[1..][i].second > t {
      assert archive[1..][i] == archive[i + 1];
    }
  }

  /** The hits of a window are those of its left half followed by those of
      its right half. */
  lemma HitsInHalves(archive: seq<Hit>, w: Window)
    requires Chronological(archive) && w.start < w.end
    ensures HitsIn(archive, w) == HitsIn(archive, Left(w)) + HitsIn(archive, Right(w))
  {
    HitsBetweenSplit(archive, w.start, Mid(w), w.end);
  }

  /** The same outcome, its items as a leaf's. */
  function AsLeaf<T>(r: Result<seq<T>>): (p: Result<Probe<T>>)
    ensures r.Success? <==> p.Success?
    ensures r.Success? ==> p.value == Leaf(r.value)
    ensures r.Failure? ==> p.error == r.error
  {
    match r
    case Success(items) => Success(Leaf(items))
    case Failure(e) => Failure(e)
  }

  /** A first request for window `w` that answers as the archive would:
      nothing for no hits, halving above the result window, and otherwise
      the items extracted from all the window's hits. */
  ghost predicate ProbesWindow<T>(archive: seq<Hit>, probe: Window -> Result<Probe<T>>, extract: Value -> Result<seq<T>>, w: Window) {
    var hits := HitsIn(archive, w);
    && (|hits| == 0 ==> probe(w) == Success(Leaf([])))
    && (|hits| > MaxResultWindow ==> probe(w) == Success(Halve))
    && (0 < |hits| <= MaxResultWindow ==> probe(w) == AsLeaf(CollectAll(hits, extract)))
  }

  ghost predicate ProbesArchive<T>(archive: seq<Hit>, probe: Window -> Result<Probe<T>>, extract: Value -> Result<seq<T>>) {
    forall w: Window :: ProbesWindow(archive, probe, extract, w)
  }

  /** Against a chronological archive, bisecting with such first requests
      keeps exactly the items of the window's hits in publication order. It
      can only fail where extracting the items fails, or where a single
      second holds more hits than the result window and halving it never
      ends. */
  lemma {:induction false} ArchiveBisect<T>(archive: seq<Hit>, w: Window, probe: Window -> Result<Probe<T>>, extract: Value -> Result<seq<T>>)
    requires Chronological(archive)
    requires ProbesArchive(archive, probe, extract)
    ensures Bisect(w, probe).Success? ==> Bisect(w, probe) == CollectAll(HitsIn(archive, w), extract)
    ensures Bisect(w, probe).Failure? ==>
      || CollectAll(HitsIn(archive, w), extract).Failure?
      || (Bisect(w, probe).error == RecursionLimit && exists x :: w.start <= x <= w.end && |HitsBetween(archive, x, x)| > MaxResultWindow)
    decreases w.end - w.start
  {
    var hits := HitsIn(archive, w);
    assert ProbesWindow(archive, probe, extract, w);
    if |hits| == 0 {
      BisectLeaf(w, probe);
      assert CollectAll(hits, extract) == Success([]);
    } else if |hits| > MaxResultWindow {
      if w.start < w.end {
        BisectHalves(w, probe);
        ArchiveBisect(archive, Left(w), probe, extract);
        ArchiveBisect(archive, Right(w), probe, extract);
        HitsInHalves(archive, w);
        CollectAllConcat(HitsIn(archive, Left(w)), HitsIn(archive, Right(w)), extract);
      } else {
        BisectStuck(w, probe);
        assert HitsBetween(archive, w.start, w.start) == hits;
      }
    } else if CollectAll(hits, extract).Success? {
      BisectLeaf(w, probe);
    }
  }
}
