/** What the story audit reads from one story document: the photos it uses
    (`parse_story_for_photos`), its public URL (`extract_story_url`) and
    the `(id, publish_date, url)` tuple the id listing keeps. A story is a
    decoded JSON value; a value that is no dictionary has no `get`. */
module Stories {
  import opened Wrappers
  import opened Json
  import opened Seqs

  /* ------------------------------------------------------------- photos */

  /** Where in the story a photo was found. */
  datatype Location = PromoItems | ContentImage | Gallery(galleryId: Value)

  /** One photo reference; the story's `_id` and `publish_date` are copied
      into every reference. */
  datatype PhotoRef = PhotoRef(photoId: Value, storyId: Value, publishDate: Value, location: Location)

  /** The story fields every reference carries. */
  datatype StoryHead = StoryHead(id: Value, publishDate: Value)

  /** An element whose `type` is "image" and whose `_id` is truthy. */
  predicate IsImage(v: Value)
    requires v.Obj?
  {
    Get(v, "type") == Str("image") && Truthy(Get(v, "_id"))
  }

  function Ref(head: StoryHead, v: Value, at: Location): PhotoRef
    requires v.Obj?
  {
    PhotoRef(Get(v, "_id"), head.id, head.publishDate, at)
  }

  /** `story.get("promo_items", {})`. */
  function PromoOf(story: Value): Value
    requires story.Obj?
  {
    GetOr(story, "promo_items", Obj([]))
  }

  /** The promo image: `promo_items.basic` when it is an image with a truthy
      `_id` (such a dictionary is never empty, so `promo_item and` holds). A
      `promo_items` that is no dictionary, or a truthy `basic` that is none,
      has no `get`. */
  function PromoRefs(story: Value, head: StoryHead): (r: Result<seq<PhotoRef>>)
    requires story.Obj?
    ensures r.Success? ==> |r.value| <= 1
    ensures r.Success? && HasPromoImage(story) ==> |r.value| == 1
    ensures r.Success? && |r.value| == 1 ==> HasPromoImage(story) && r.value[0] == Ref(head, Get(PromoOf(story), "basic"), PromoItems)
  {
    var promo := PromoOf(story);
    if !promo.Obj? then Failure(AttributeError)
    else
      var basic := Get(promo, "basic");
      if HasPromoImage(story) then Success([Ref(head, basic, PromoItems)])
      else if Truthy(basic) && !basic.Obj? then Failure(AttributeError)
      else Success([])
  }

  /** The reference carries the story's fields and a truthy photo id. */
  predicate Carries(head: StoryHead, ref: PhotoRef) {
    ref.storyId == head.id && ref.publishDate == head.publishDate && Truthy(ref.photoId)
  }

  /** The reference carries the story's fields and was found in the story's
      body rather than its promo items. */
  predicate FromBody(head: StoryHead, ref: PhotoRef) {
    Carries(head, ref) && !ref.location.PromoItems?
  }

  /** One child of a gallery: an image with a truthy `_id` gives a reference. */
  function GalleryChildRefs(head: StoryHead, galleryId: Value, child: Value): (r: Result<seq<PhotoRef>>)
    ensures r.Failure? <==> !child.Obj?
    ensures r.Success? ==> (r.value != [] <==> IsImage(child))
    ensures r.Success? && r.value != [] ==> r.value == [Ref(head, child, Gallery(galleryId))]
  {
    if !child.Obj? then Failure(AttributeError)
    else if IsImage(child) then Success([Ref(head, child, Gallery(galleryId))])
    else Success([])
  }

  function GalleryChild(head: StoryHead, galleryId: Value): Value -> Result<seq<PhotoRef>> {
    (child: Value) => GalleryChildRefs(head, galleryId, child)
  }

  function Children(e: Value): Option<seq<Value>>
    requires e.Obj?
  {
    Iterate(GetOr(e, "content_elements", Arr([])))
  }

  /** One content element: a direct image, or the images of a gallery in
      gallery order; other elements give nothing. */
  function ElementRefs(head: StoryHead, element: Value): (r: Result<seq<PhotoRef>>)
    ensures !element.Obj? ==> r == Failure(AttributeError)
    ensures element.Obj? && Get(element, "type") != Str("image") && Get(element, "type") != Str("gallery") ==> r == Success([])
    ensures r.Success? ==> forall ref :: ref in r.value ==> FromBody(head, ref)
  {
    if !element.Obj? then Failure(AttributeError)
    else if Get(element, "type") == Str("image") then
      if Truthy(Get(element, "_id")) then Success([Ref(head, element, ContentImage)]) else Success([])
    else if Get(element, "type") == Str("gallery") then
      match Children(element)
      case None => Failure(TypeError)
      case Some(children) =>
        var f := GalleryChild(head, Get(element, "_id"));
        CollectAllAll(children, f, ref => FromBody(head, ref));
        CollectAll(children, f)
    else Success([])
  }

  function Element(head: StoryHead): Value -> Result<seq<PhotoRef>> {
    (element: Value) => ElementRefs(head, element)
  }

  /** `promo_items.basic` is an image with a truthy `_id`. */
  predicate HasPromoImage(story: Value)
    requires story.Obj?
  {
    var promo := PromoOf(story);
    promo.Obj? && Get(promo, "basic").Obj? && IsImage(Get(promo, "basic"))
  }

  function Elements(story: Value): Option<seq<Value>>
    requires story.Obj?
  {
    Iterate(GetOr(story, "content_elements", Arr([])))
  }

  /** The references found in the story's body, element by element. */
  function BodyRefs(head: StoryHead, elements: seq<Value>): (r: Result<seq<PhotoRef>>)
    ensures r.Success? ==> forall i :: 0 <= i < |r.value| ==> FromBody(head, r.value[i])
  {
    var r := CollectAll(elements, Element(head));
    if r.Success? then
      assert forall i :: 0 <= i < |r.value| ==> FromBody(head, r.value[i]) by {
        forall i | 0 <= i < |r.value| ensures FromBody(head, r.value[i]) {
          BodyRefFromBody(head, elements, r.value[i]);
        }
      }
      r
    else r
  }

  lemma BodyRefFromBody(head: StoryHead, elements: seq<Value>, ref: PhotoRef)
    requires CollectAll(elements, Element(head)).Success?
    requires ref in CollectAll(elements, Element(head)).value
    ensures FromBody(head, ref)
  {
    CollectAllMembers(elements, Element(head), ref);
    var k :| 0 <= k < |elements| && Element(head)(elements[k]).Success? && ref in Element(head)(elements[k]).value;
    assert ref in ElementRefs(head, elements[k]).value;
  }

  /** The story's `_id` and `publish_date`. */
  function HeadOf(story: Value): StoryHead
    requires story.Obj?
  {
    StoryHead(Get(story, "_id"), Get(story, "publish_date"))
  }

  /** `parse_story_for_photos`: the promo image first, then the images of
      `content_elements` in element order. The first exception ends the
      scan: a `content_elements` that cannot be iterated raises TypeError,
      and one that iterates to strings (a dictionary's keys, a string's
      characters) raises AttributeError on its first entry. */
  function ParseStoryForPhotos(story: Value): (r: Result<seq<PhotoRef>>)
    ensures !story.Obj? ==> r == Failure(AttributeError)
    ensures story.Obj? ==>
      (r.Success? <==> PromoRefs(story, HeadOf(story)).Success? && Elements(story).Some?
                       && CollectAll(Elements(story).value, Element(HeadOf(story))).Success?)
    ensures r.Success? ==>
      r.value == PromoRefs(story, HeadOf(story)).value + CollectAll(Elements(story).value, Element(HeadOf(story))).value
    ensures story.Obj? && PromoRefs(story, HeadOf(story)).Success? && Elements(story).None? ==> r == Failure(TypeError)
    ensures (&& story.Obj? && PromoRefs(story, HeadOf(story)).Success? && Elements(story).Some?
             && Elements(story).value != [] && !GetOr(story, "content_elements", Arr([])).Arr?)
            ==> r == Failure(AttributeError)
    ensures r.Success? ==> forall i :: 0 <= i < |r.value| ==> Carries(HeadOf(story), r.value[i])
    ensures r.Success? && HasPromoImage(story) ==> |r.value| > 0 && r.value[0].location == PromoItems
    ensures r.Success? ==> forall i :: 0 < i < |r.value| ==> !r.value[i].location.PromoItems?
  {
    if !story.Obj? then Failure(AttributeError)
    else
      var head := HeadOf(story);
      match PromoRefs(story, head)
      case Failure(e) => Failure(e)
      case Success(promo) =>
        match Elements(story)
        case None => Failure(TypeError)
        case Some(elements) =>
          if elements != [] && !GetOr(story, "content_elements", Arr([])).Arr? then
            CollectAllCons(elements, Element(head));
            Failure(AttributeError)
          else
            match BodyRefs(head, elements)
            case Failure(e) => Failure(e)
            case Success(rest) =>
              PromoThenBody(head, promo, rest);
              Success(promo + rest)
  }

  /** The promo reference, if any, followed by the body's: every reference
      carries the story's fields, and only the first can be the promo. */
  lemma PromoThenBody(head: StoryHead, promo: seq<PhotoRef>, rest: seq<PhotoRef>)
    requires |promo| <= 1
    requires forall i :: 0 <= i < |promo| ==> promo[i].location == PromoItems && Carries(head, promo[i])
    requires forall i :: 0 <= i < |rest| ==> FromBody(head, rest[i])
    ensures forall i :: 0 <= i < |promo + rest| ==> Carries(head, (promo + rest)[i])
    ensures forall i :: 0 < i < |promo + rest| ==> !(promo + rest)[i].location.PromoItems?
  {
    var refs := promo + rest;
    forall i | 0 <= i < |refs| ensures Carries(head, refs[i]) && (i > 0 ==> !refs[i].location.PromoItems?) {
      if i < |promo| {
        assert refs[i] == promo[i];
      } else {
        assert refs[i] == rest[i - |promo|];
        assert FromBody(head, rest[i - |promo|]);
      }
    }
  }

  /** `story.get("content_elements", [])`: a story without the key has no
      body to scan, so only its promo reference is collected. */
  lemma MissingElementsPromoOnly(story: Value)
    requires story.Obj? && !HasKey(story.fields, "content_elements")
    ensures ParseStoryForPhotos(story) == PromoRefs(story, HeadOf(story))
  {
    assert Elements(story) == Some([]);
    match PromoRefs(story, HeadOf(story))
    case Failure(_) =>
    case Success(promo) =>
      assert CollectAll([], Element(HeadOf(story))) == Success([]);
      assert promo + [] == promo;
  }

  /** A photo is reported for a story exactly when it is the promo image or
      a reference one of the story's content elements gives. */
  lemma ParseStoryForPhotosMembers(story: Value, ref: PhotoRef)
    requires ParseStoryForPhotos(story).Success?
    ensures story.Obj? && Elements(story).Some?
    ensures ref in ParseStoryForPhotos(story).value <==>
      || ref in PromoRefs(story, HeadOf(story)).value
      || exists k :: 0 <= k < |Elements(story).value| && ElementRefs(HeadOf(story), Elements(story).value[k]).Success?
                     && ref in ElementRefs(HeadOf(story), Elements(story).value[k]).value
  {
    var elements := Elements(story).value;
    CollectAllMembers(elements, Element(HeadOf(story)), ref);
  }

  /** A reference comes from a content element exactly when the element is
      an image with that `_id`, or a gallery with an image child with that
      `_id`; the location says which. */
  lemma ElementRefsMembers(head: StoryHead, e: Value, ref: PhotoRef)
    requires ElementRefs(head, e).Success? && e.Obj?
    ensures ref in ElementRefs(head, e).value <==>
      || (Get(e, "type") == Str("image") && IsImage(e) && ref == Ref(head, e, ContentImage))
      || (Get(e, "type") == Str("gallery") && GalleryHolds(head, e, ref))
  {
    if Get(e, "type") == Str("gallery") {
      var children := Children(e).value;
      CollectAllMembers(children, GalleryChild(head, Get(e, "_id")), ref);
    }
  }

  /** The gallery `e` has an image child whose reference is `ref`. */
  predicate GalleryHolds(head: StoryHead, e: Value, ref: PhotoRef)
    requires e.Obj?
  {
    && Children(e).Some?
    && exists c :: c in Children(e).value && c.Obj? && IsImage(c) && ref == Ref(head, c, Gallery(Get(e, "_id")))
  }

  /* ---------------------------------------------------------------- url */

  /** The story fields `extract_story_url` tries first, in priority order. */
  const UrlKeys: seq<string> := ["canonical_url", "website_url", "display_url", "url"]

  /** `sitev.get("website_url") or sitev.get("url")`. */
  function SiteUrl(site: Value): Value
    requires site.Obj?
  {
    Or(Get(site, "website_url"), Get(site, "url"))
  }

  /** The first truthy value of `story[keys[i]]`, `story[keys[i + 1]]`, ... */
  function FirstKeyUrl(story: Value, keys: seq<string>, i: nat): (r: Option<Value>)
    requires story.Obj? && i <= |keys|
    ensures r.Some? ==> Truthy(r.value)
    decreases |keys| - i
  {
    if i == |keys| then None
    else if Truthy(Get(story, keys[i])) then Some(Get(story, keys[i]))
    else FirstKeyUrl(story, keys, i + 1)
  }

  /** The first site dictionary, from field `i` on, with a truthy URL. */
  function FirstSiteUrl(sites: Fields, i: nat): (r: Option<Value>)
    requires i <= |sites|
    ensures r.Some? ==> Truthy(r.value)
    decreases |sites| - i
  {
    if i == |sites| then None
    else if sites[i].1.Obj? && Truthy(SiteUrl(sites[i].1)) then Some(SiteUrl(sites[i].1))
    else FirstSiteUrl(sites, i + 1)
  }

  /** `extract_story_url`: the first truthy URL field, else the first site
      of `websites` with a truthy URL, else None. A falsy story gives None
      before anything is read. */
  function ExtractStoryUrl(story: Value): (r: Result<Option<Value>>)
    ensures !Truthy(story) ==> r == Success(None)
    ensures Truthy(story) && !story.Obj? ==> r == Failure(AttributeError)
    ensures r.Success? && r.value.Some? ==> Truthy(r.value.value)
    ensures story.Obj? && Truthy(Get(story, "canonical_url")) ==> r == Success(Some(Get(story, "canonical_url")))
  {
    if !Truthy(story) then Success(None)
    else if !story.Obj? then Failure(AttributeError)
    else
      match FirstKeyUrl(story, UrlKeys, 0)
      case Some(u) => Success(Some(u))
      case None =>
        var websites := Get(story, "websites");
        if websites.Obj? then Success(FirstSiteUrl(websites.fields, 0)) else Success(None)
  }

  /** The candidates in the order `extract_story_url` tries them: the URL
      fields, then the URL of each site dictionary. */
  function UrlCandidates(story: Value): seq<Value>
    requires story.Obj?
  {
    var direct := seq(|UrlKeys|, i requires 0 <= i < |UrlKeys| => Get(story, UrlKeys[i]));
    var websites := Get(story, "websites");
    direct + (if websites.Obj? then FlatMap(websites.fields, SiteCandidate) else [])
  }

  function SiteCandidate(f: (string, Value)): seq<Value> {
    if f.1.Obj? then [SiteUrl(f.1)] else []
  }

  /** The first truthy value of a list. */
  function FirstTruthy(vs: seq<Value>): (r: Option<Value>)
    ensures r.Some? ==> Truthy(r.value) && r.value in vs
    ensures r.None? <==> forall i :: 0 <= i < |vs| ==> !Truthy(vs[i])
  {
    if |vs| == 0 then None
    else if Truthy(vs[0]) then Some(vs[0])
    else
      assert forall i :: 1 <= i < |vs| ==> vs[i] == vs[1..][i - 1];
      FirstTruthy(vs[1..])
  }

  lemma {:induction false} FirstTruthyConcat(a: seq<Value>, b: seq<Value>)
    ensures FirstTruthy(a + b) == if FirstTruthy(a).Some? then FirstTruthy(a) else FirstTruthy(b)
    decreases |a|
  {
    if |a| == 0 {
      assert a + b == b;
    } else {
      assert (a + b)[0] == a[0] && (a + b)[1..] == a[1..] + b;
      FirstTruthyConcat(a[1..], b);
    }
  }

  /** `extract_story_url` returns the first truthy candidate. */
  lemma ExtractStoryUrlIsFirstCandidate(story: Value)
    requires story.Obj? && story.fields != []
    ensures ExtractStoryUrl(story) == Success(FirstTruthy(UrlCandidates(story)))
  {
    var direct := seq(|UrlKeys|, i requires 0 <= i < |UrlKeys| => Get(story, UrlKeys[i]));
    var websites := Get(story, "websites");
    var tail := if websites.Obj? then FlatMap(websites.fields, SiteCandidate) else [];
    FirstTruthyConcat(direct, tail);
    KeyUrlIsFirstTruthy(story, UrlKeys, 0);
    assert direct[0..] == direct;
    if websites.Obj? {
      SiteUrlIsFirstTruthy(websites.fields, 0);
      assert websites.fields[0..] == websites.fields;
    }
  }

  lemma {:induction false} KeyUrlIsFirstTruthy(story: Value, keys: seq<string>, i: nat)
    requires story.Obj? && i <= |keys|
    ensures FirstKeyUrl(story, keys, i) == FirstTruthy(seq(|keys|, k requires 0 <= k < |keys| => Get(story, keys[k]))[i..])
    decreases |keys| - i
  {
    var all := seq(|keys|, k requires 0 <= k < |keys| => Get(story, keys[k]));
    if i < |keys| {
      KeyUrlIsFirstTruthy(story, keys, i + 1);
      assert all[i..][0] == Get(story, keys[i]);
      assert all[i..][1..] == all[i + 1..];
    }
  }

  lemma {:induction false} SiteUrlIsFirstTruthy(sites: Fields, i: nat)
    requires i <= |sites|
    ensures FirstSiteUrl(sites, i) == FirstTruthy(FlatMap(sites[i..], SiteCandidate))
    decreases |sites| - i
  {
    if i < |sites| {
      SiteUrlIsFirstTruthy(sites, i + 1);
      assert sites[i..] == [sites[i]] + sites[i + 1..];
      FlatMapConcat([sites[i]], sites[i + 1..], SiteCandidate);
      FlatMapOne(sites[i], SiteCandidate);
      FirstTruthyConcat(SiteCandidate(sites[i]), FlatMap(sites[i + 1..], SiteCandidate));
    } else {
      assert sites[i..] == [];
    }
  }

  /* ------------------------------------------------------- story tuples */

  /** One entry of the id listing. */
  datatype StoryTuple = StoryTuple(id: Value, publishDate: Value, url: Option<Value>)

  /** The id listing's treatment of one story: its URL is looked up first,
      and the story is kept when its `_id` is truthy. */
  function StoryTupleOf(story: Value): (r: Result<seq<StoryTuple>>)
    ensures !story.Obj? ==> r == Failure(AttributeError)
    ensures r.Success? ==> (r.value != [] <==> Truthy(Get(story, "_id")))
    ensures r.Success? && r.value != [] ==>
      r.value == [StoryTuple(Get(story, "_id"), Get(story, "publish_date"), ExtractStoryUrl(story).value)]
  {
    if !story.Obj? then Failure(AttributeError)
    else
      var url :- ExtractStoryUrl(story);
      var sid := Get(story, "_id");
      if Truthy(sid) then Success([StoryTuple(sid, Get(story, "publish_date"), url)]) else Success([])
  }
}
