/** The PageBuilder export scan of `find_destacado_targets.py`: which
    content-source files count as targets, where the page list sits in an
    export, how a page's regions flatten into blocks, and which blocks name a
    target as their content source. Reading files and the directory listing
    are inputs. */
module PageBuilder {
  import opened Wrappers
  import opened Json
  import opened Text
  import opened Order
  import opened Seqs

  /* ------------------------------------------------------------ targets */

  const TargetPrefix: string := "destacado-websked"
  const SourceExtension: string := ".js"

  /** A directory entry the pattern `destacado-websked*.js` matches. */
  predicate IsTargetFile(name: string) {
    && '/' !in name
    && |TargetPrefix| + |SourceExtension| <= |name|
    && name[..|TargetPrefix|] == TargetPrefix
    && EndsWith(name, SourceExtension)
  }

  /** The position of the last '.' of `s`, if any. */
  function LastDot(s: string): (r: Option<nat>)
    ensures r.Some? ==> r.value < |s| && s[r.value] == '.'
    ensures r.Some? ==> forall k :: r.value < k < |s| ==> s[k] != '.'
    ensures r.None? ==> forall k :: 0 <= k < |s| ==> s[k] != '.'
  {
    if |s| == 0 then None
    else if s[|s| - 1] == '.' then Some(|s| - 1)
    else LastDot(s[..|s| - 1])
  }

  /** `os.path.splitext` of a base name: the extension runs from the last
      '.' to the end, unless only dots come before that '.'; then there is
      no extension. */
  function SplitExt(name: string): (r: (string, string))
    ensures r.0 + r.1 == name
    ensures r.1 == "" || (r.1[0] == '.' && forall k :: 0 < k < |r.1| ==> r.1[k] != '.')
    ensures r.1 != "" ==> exists k :: 0 <= k < |r.0| && r.0[k] != '.'
    ensures r.1 == "" <==> forall k, j :: 0 <= k < j < |name| && name[k] != '.' ==> name[j] != '.'
  {
    match LastDot(name)
    case Some(d) =>
      if exists k :: 0 <= k < d && name[k] != '.' then
        assert name == name[..d] + name[d..];
        var k :| 0 <= k < d && name[k] != '.';
        assert name[..d][k] != '.';
        (name[..d], name[d..])
      else (name, "")
    case None => (name, "")
  }

  /** `LastDot` finds the '.' after which no other follows. */
  lemma LastDotIs(s: string, d: nat)
    requires d < |s| && s[d] == '.'
    requires forall k :: d < k < |s| ==> s[k] != '.'
    ensures LastDot(s) == Some(d)
  {
    var r := LastDot(s);
    assert s[d] == '.';
  }

  /** Splitting off the extension of a matched name leaves its target. */
  lemma SplitExtOfTarget(name: string)
    requires IsTargetFile(name)
    ensures SplitExt(name).0 + SourceExtension == name
  {
    var d := |name| - |SourceExtension|;
    assert name[d..] == SourceExtension;
    assert name[d] == '.' && name[d + 1] == 'j' && name[d + 2] == 's';
    LastDotIs(name, d);
    assert name[..|TargetPrefix|][0] == 'd';
    assert name[0] != '.';
    assert name == name[..d] + name[d..];
  }

  /** The target a matched path names: its base name without extension. */
  function TargetOf(path: string): string {
    SplitExt(Basename(path)).0
  }

  /** A matched file's target, with the extension put back, is its name. */
  lemma TargetOfPath(base: string, name: string)
    requires IsTargetFile(name)
    ensures TargetOf(JoinPath(base, name)) + SourceExtension == name
  {
    BasenameOfJoin(base, name);
    SplitExtOfTarget(name);
  }

  /** The directory `gather_targets` globs: `content/sources` under the given
      directory when that exists (`nested`), else the directory itself. */
  function SourcesBase(sourcesDir: string, nested: bool): string {
    if nested then JoinPath(JoinPath(sourcesDir, "content"), "sources") else sourcesDir
  }

  function MatchedPath(base: string, name: string): seq<string> {
    if IsTargetFile(name) then [JoinPath(base, name)] else []
  }

  /** The `glob` of `destacado-websked*.js` in `base`: the directory's
      matching entries joined to it, in listing order. */
  function MatchedPaths(base: string, listing: seq<string>): (paths: seq<string>)
    ensures forall p :: p in paths <==> exists k :: 0 <= k < |listing| && IsTargetFile(listing[k]) && p == JoinPath(base, listing[k])
  {
    var f := name => MatchedPath(base, name);
    forall p ensures p in FlatMap(listing, f) <==> exists k :: 0 <= k < |listing| && IsTargetFile(listing[k]) && p == JoinPath(base, listing[k]) {
      FlatMapMembers(listing, f, p);
    }
    FlatMap(listing, f)
  }

  /** The target of every path, in order. */
  function TargetsOf(files: seq<string>): (targets: seq<string>)
    ensures |targets| == |files|
    ensures forall i :: 0 <= i < |files| ==> targets[i] == TargetOf(files[i])
  {
    seq(|files|, i requires 0 <= i < |files| => TargetOf(files[i]))
  }

  /** `gather_targets`: the entries of the sources directory that match the
      pattern, sorted by path, each reduced to its base name without the
      extension. `listing` is the directory's entries. */
  function GatherTargets(sourcesDir: string, nested: bool, listing: seq<string>): (targets: seq<string>)
    ensures forall t :: t in targets <==> exists i :: 0 <= i < |listing| && IsTargetFile(listing[i]) && listing[i] == t + SourceExtension
    ensures forall i, j :: 0 <= i < j < |targets| ==> LexLe(targets[i] + SourceExtension, targets[j] + SourceExtension)
  {
    var base := SourcesBase(sourcesDir, nested);
    var files := Sort(MatchedPaths(base, listing));
    TargetsOfSorted(base, listing, files);
    TargetsOf(files)
  }

  /** A path the glob returns is the base joined with its target's file name. */
  lemma MatchedPathLayout(base: string, listing: seq<string>, f: string)
    requires f in MatchedPaths(base, listing)
    ensures IsTargetFile(TargetOf(f) + SourceExtension)
    ensures TargetOf(f) + SourceExtension in listing
    ensures f == DirPrefix(base) + (TargetOf(f) + SourceExtension)
  {
    var k :| 0 <= k < |listing| && IsTargetFile(listing[k]) && f == JoinPath(base, listing[k]);
    TargetOfPath(base, listing[k]);
  }

  lemma TargetsOfSorted(base: string, listing: seq<string>, files: seq<string>)
    requires multiset(files) == multiset(MatchedPaths(base, listing))
    requires Ascending(files)
    ensures forall t :: t in TargetsOf(files) <==> exists i :: 0 <= i < |listing| && IsTargetFile(listing[i]) && listing[i] == t + SourceExtension
    ensures forall i, j :: 0 <= i < j < |files| ==> LexLe(TargetOf(files[i]) + SourceExtension, TargetOf(files[j]) + SourceExtension)
  {
    forall t ensures t in TargetsOf(files) <==> exists i :: 0 <= i < |listing| && IsTargetFile(listing[i]) && listing[i] == t + SourceExtension {
      if t in TargetsOf(files) {
        TargetOfFile(base, listing, files, t);
      }
      if exists i :: 0 <= i < |listing| && IsTargetFile(listing[i]) && listing[i] == t + SourceExtension {
        var i :| 0 <= i < |listing| && IsTargetFile(listing[i]) && listing[i] == t + SourceExtension;
        FileOfTarget(base, listing, files, i);
        SplitExtOfTarget(listing[i]);
        assert SplitExt(listing[i]).0 == (t + SourceExtension)[..|t|];
      }
    }
    forall i, j | 0 <= i < j < |files|
      ensures LexLe(TargetOf(files[i]) + SourceExtension, TargetOf(files[j]) + SourceExtension)
    {
      assert files[i] in multiset(files) && files[j] in multiset(files);
      MatchedPathLayout(base, listing, files[i]);
      MatchedPathLayout(base, listing, files[j]);
      LexPrefix(DirPrefix(base), TargetOf(files[i]) + SourceExtension, TargetOf(files[j]) + SourceExtension);
    }
  }

  lemma TargetOfFile(base: string, listing: seq<string>, files: seq<string>, t: string)
    requires multiset(files) == multiset(MatchedPaths(base, listing))
    requires t in TargetsOf(files)
    ensures exists i :: 0 <= i < |listing| && IsTargetFile(listing[i]) && listing[i] == t + SourceExtension
  {
    var k :| 0 <= k < |files| && TargetsOf(files)[k] == t;
    assert files[k] in multiset(files);
    MatchedPathLayout(base, listing, files[k]);
    var i :| 0 <= i < |listing| && listing[i] == t + SourceExtension;
  }

  lemma FileOfTarget(base: string, listing: seq<string>, files: seq<string>, i: nat)
    requires multiset(files) == multiset(MatchedPaths(base, listing))
    requires i < |listing| && IsTargetFile(listing[i])
    ensures SplitExt(listing[i]).0 in TargetsOf(files)
  {
    var p := JoinPath(base, listing[i]);
    assert p in MatchedPaths(base, listing);
    assert p in multiset(files);
    var k :| 0 <= k < |files| && files[k] == p;
    BasenameOfJoin(base, listing[i]);
    assert TargetsOf(files)[k] == SplitExt(listing[i]).0;
  }

  /* ------------------------------------------------------ the page list */

  /** The `pages` value inside a `data` dictionary, when both are there. */
  function NestedPages(data: Value): Option<Value> {
    if !data.Obj? then None
    else
      match Lookup(data.fields, "data")
      case Some(Obj(inner)) => Lookup(inner, "pages")
      case _ => None
  }

  predicate IsListField(f: (string, Value)) {
    f.1.Arr?
  }

  /** The list stored under `k` in a dictionary, when a list is what is
      stored there. */
  function ListUnder(data: Value, k: string): Option<Value> {
    if data.Obj? && Lookup(data.fields, k).Some? && Lookup(data.fields, k).value.Arr? then Lookup(data.fields, k)
    else None
  }

  /** `extract_pages_container`: the page list of an export, looked up in
      the shapes exports come in, in this order whatever the order of the
      export's fields: a list under `pages`; the `pages` of a `data`
      dictionary, whatever it holds; a list under `data`; the export itself
      when it is a list; the first list-valued entry; else `[]`. */
  function ExtractPagesContainer(data: Value): (pages: Value)
    ensures data.Arr? ==> pages == data
    ensures !data.Arr? && !data.Obj? ==> pages == Arr([])
    ensures ListUnder(data, "pages").Some? ==> pages == ListUnder(data, "pages").value
    ensures ListUnder(data, "pages").None? && NestedPages(data).Some? ==> pages == NestedPages(data).value
    ensures ListUnder(data, "pages").None? && NestedPages(data).None? && ListUnder(data, "data").Some? ==>
      pages == ListUnder(data, "data").value
    ensures !pages.Arr? ==> NestedPages(data) == Some(pages)
    ensures data.Obj? && ListUnder(data, "pages").None? && NestedPages(data).None? && ListUnder(data, "data").None? ==>
      ((exists i :: 0 <= i < |data.fields| && data.fields[i].1 == pages && forall j :: 0 <= j < i ==> !data.fields[j].1.Arr?)
       || (pages == Arr([]) && forall j :: 0 <= j < |data.fields| ==> !data.fields[j].1.Arr?))
  {
    match data
    case Obj(fs) =>
      var top := Lookup(fs, "pages");
      var inner := Lookup(fs, "data");
      if top.Some? && top.value.Arr? then top.value
      else if inner.Some? && inner.value.Obj? && HasKey(inner.value.fields, "pages") then
        Lookup(inner.value.fields, "pages").value
      else if inner.Some? && inner.value.Arr? then inner.value
      else
        (match FirstIndex(fs, IsListField)
         case Some(i) => fs[i].1
         case None => Arr([]))
    case Arr(_) => data
    case _ => Arr([])
  }

  /** A list under `pages` wins over a list under `data`, even when `data`
      comes first in the export. */
  lemma PagesBeforeData()
    ensures ExtractPagesContainer(Obj([("data", Arr([])), ("pages", Arr([Null]))])) == Arr([Null])
  {
    var fs := [("data", Arr([])), ("pages", Arr([Null]))];
    assert Lookup(fs, "pages") == Some(Arr([Null]));
  }

  /** Whatever else an export carries, the page list comes back from a bare
      list and from a list under `pages`. */
  lemma ExtractPagesOfExport(pages: seq<Value>, rest: Fields)
    ensures ExtractPagesContainer(Arr(pages)) == Arr(pages)
    ensures ExtractPagesContainer(Obj([("pages", Arr(pages))] + rest)) == Arr(pages)
  {
    var a := [("pages", Arr(pages))] + rest;
    assert Lookup(a, "pages") == Some(Arr(pages));
  }

  /** An export without a `pages` key gives the `pages` of its `data`
      dictionary, whatever that holds, or the list under `data`. */
  lemma ExtractPagesOfData(pages: seq<Value>, nested: Value, rest: Fields)
    requires !HasKey(rest, "pages")
    ensures ExtractPagesContainer(Obj([("data", Obj([("pages", nested)]))] + rest)) == nested
    ensures ExtractPagesContainer(Obj([("data", Arr(pages))] + rest)) == Arr(pages)
  {
    DataFirst(Obj([("pages", nested)]), rest);
    assert Lookup([("pages", nested)], "pages") == Some(nested);
    DataFirst(Arr(pages), rest);
  }

  /** An export that starts with `data` and has no `pages` key reads `data`. */
  lemma DataFirst(v: Value, rest: Fields)
    requires !HasKey(rest, "pages")
    ensures !HasKey([("data", v)] + rest, "pages")
    ensures Lookup([("data", v)] + rest, "data") == Some(v)
  {
    var b := [("data", v)] + rest;
    assert b[1..] == rest;
    assert Keys(b) == ["data"] + Keys(rest);
  }

  /* ------------------------------------------------------------ regions */

  /** The items of a list; anything else holds none. */
  function ListItems(v: Value): seq<Value> {
    if v.Arr? then v.items else []
  }

  function FieldItems(f: (string, Value)): seq<Value> {
    ListItems(f.1)
  }

  /** The blocks one region contributes: a list is its blocks, a dictionary
      gives the blocks of its list-valued entries, anything else none. */
  function RegionBlocks(f: (string, Value)): seq<Value> {
    match f.1
    case Arr(xs) => xs
    case Obj(inner) => FlatMap(inner, FieldItems)
    case _ => []
  }

  /** `flatten_blocks`: a page's content as one list of blocks. */
  function FlattenBlocks(content: Value): (blocks: seq<Value>)
    ensures content.Arr? ==> blocks == content.items
    ensures !content.Arr? && !content.Obj? ==> blocks == []
  {
    match content
    case Arr(xs) => xs
    case Obj(fs) => FlatMap(fs, RegionBlocks)
    case _ => []
  }

  /** The regions of a dictionary flatten in order: the blocks of the first
      regions come before the blocks of the later ones. */
  lemma FlattenRegionsConcat(a: Fields, b: Fields)
    ensures FlattenBlocks(Obj(a + b)) == FlattenBlocks(Obj(a)) + FlattenBlocks(Obj(b))
  {
    FlatMapConcat(a, b, RegionBlocks);
  }

  /** A block comes out of a dictionary of regions exactly when it is in a
      list-valued region, or in a list one level down in a dictionary-valued
      region. */
  lemma FlattenBlocksMembers(fs: Fields, b: Value)
    ensures b in FlattenBlocks(Obj(fs)) <==>
      exists i :: 0 <= i < |fs| &&
        (b in ListItems(fs[i].1) || (fs[i].1.Obj? && exists j :: 0 <= j < |fs[i].1.fields| && b in ListItems(fs[i].1.fields[j].1)))
  {
    FlatMapMembers(fs, RegionBlocks, b);
    forall i | 0 <= i < |fs| && fs[i].1.Obj?
      ensures b in RegionBlocks(fs[i]) <==> exists j :: 0 <= j < |fs[i].1.fields| && b in ListItems(fs[i].1.fields[j].1)
    {
      FlatMapMembers(fs[i].1.fields, FieldItems, b);
    }
  }

  /* ------------------------------------------------------------ matches */

  /** One row of `destacado-matches.csv`. */
  datatype MatchRow = MatchRow(
    pageId: Value,
    pageName: Value,
    blockIndex: nat,
    contentSource: string,
    collectionId: Value,
    params: Value)

  /** `page_id` and `page_name`, each with its fallbacks. */
  datatype PageHead = PageHead(id: Value, name: Value)

  function Head(p: Value): PageHead
    requires p.Obj?
  {
    PageHead(Or(Or(Get(p, "_id"), Get(p, "id")), Str("")), Or(Or(Get(p, "name"), Get(p, "title")), Str("")))
  }

  /** The blocks of a page: its `content`, else its `regions`, flattened. */
  function Blocks(p: Value): seq<Value>
    requires p.Obj?
  {
    FlattenBlocks(Or(Or(Get(p, "content"), Get(p, "regions")), Arr([])))
  }

  /** `b.get('content_source') or ''`. */
  function SourceOf(b: Value): Value
    requires b.Obj?
  {
    Or(Get(b, "content_source"), Str(""))
  }

  /** `b.get('content_source_params') or {}`. */
  function ParamsOf(b: Value): Value
    requires b.Obj?
  {
    Or(Get(b, "content_source_params"), Obj([]))
  }

  /** The block is a dictionary whose content source is one of the targets. */
  predicate Targets(b: Value, targets: seq<string>) {
    b.Obj? && SourceOf(b).Str? && SourceOf(b).s in targets
  }

  /** The block stops the scan: its content source is a list or dictionary,
      which `in` on a set cannot hash (TypeError), or it is a target whose
      `collection_id` is missing while its params are no dictionary, which
      has no `get` (AttributeError). */
  predicate Faulty(b: Value, targets: seq<string>) {
    && b.Obj?
    && (|| SourceOf(b).Arr?
        || SourceOf(b).Obj?
        || (Targets(b, targets) && !Truthy(Get(b, "collection_id")) && !ParamsOf(b).Obj?))
  }

  /** The row a target block gives: `collection_id` from the block, else
      from its params, else ''. */
  function RowFor(head: PageHead, idx: nat, b: Value): (row: MatchRow)
    requires b.Obj? && SourceOf(b).Str?
    requires Truthy(Get(b, "collection_id")) || ParamsOf(b).Obj?
  {
    var own := Get(b, "collection_id");
    var params := ParamsOf(b);
    var collection := if Truthy(own) then own else Or(Get(params, "collection_id"), Str(""));
    MatchRow(head.id, head.name, idx, SourceOf(b).s, collection, params)
  }

  /** The rows of one block: none, one, or the exception it raises. */
  function BlockRows(head: PageHead, idx: nat, b: Value, targets: seq<string>): (r: Result<seq<MatchRow>>)
    ensures r.Failure? <==> Faulty(b, targets)
    ensures r.Success? ==> (r.value == [] <==> !Targets(b, targets))
    ensures r.Success? && Targets(b, targets) ==> r.value == [RowFor(head, idx, b)]
  {
    if !b.Obj? then Success([])
    else
      var cs := SourceOf(b);
      if cs.Arr? || cs.Obj? then Failure(TypeError)
      else if !(cs.Str? && cs.s in targets) then Success([])
      else if !Truthy(Get(b, "collection_id")) && !ParamsOf(b).Obj? then Failure(AttributeError)
      else Success([RowFor(head, idx, b)])
  }

  /** The row is the one the target block at its index gives. */
  predicate FromBlock(row: MatchRow, head: PageHead, blocks: seq<Value>, targets: seq<string>) {
    && row.blockIndex < |blocks|
    && Targets(blocks[row.blockIndex], targets)
    && !Faulty(blocks[row.blockIndex], targets)
    && row == RowFor(head, row.blockIndex, blocks[row.blockIndex])
  }

  predicate IndicesAscending(rows: seq<MatchRow>) {
    forall m, n :: 0 <= m < n < |rows| ==> rows[m].blockIndex < rows[n].blockIndex
  }

  /** The rows of the blocks from `i` on, in block order. */
  function PageRows(head: PageHead, blocks: seq<Value>, i: nat, targets: seq<string>): (r: Result<seq<MatchRow>>)
    requires i <= |blocks|
    ensures r.Failure? <==> exists k :: i <= k < |blocks| && Faulty(blocks[k], targets)
    ensures r.Success? ==> forall m :: 0 <= m < |r.value| ==> i <= r.value[m].blockIndex && FromBlock(r.value[m], head, blocks, targets)
    ensures r.Success? ==> forall k :: i <= k < |blocks| && Targets(blocks[k], targets) ==>
      exists m :: 0 <= m < |r.value| && r.value[m].blockIndex == k
    ensures r.Success? ==> IndicesAscending(r.value)
    decreases |blocks| - i
  {
    if i == |blocks| then Success([])
    else
      var here :- BlockRows(head, i, blocks[i], targets);
      var rest := PageRows(head, blocks, i + 1, targets);
      if rest.Failure? then Failure(rest.error)
      else
        RowsCons(head, blocks, i, targets, here, rest.value);
        Success(here + rest.value)
  }

  /** The row of block `i`, if any, followed by the rows of the later blocks. */
  lemma RowsCons(head: PageHead, blocks: seq<Value>, i: nat, targets: seq<string>, here: seq<MatchRow>, rest: seq<MatchRow>)
    requires i < |blocks|
    requires BlockRows(head, i, blocks[i], targets) == Success(here)
    requires forall m :: 0 <= m < |rest| ==> i + 1 <= rest[m].blockIndex && FromBlock(rest[m], head, blocks, targets)
    requires forall k :: i + 1 <= k < |blocks| && Targets(blocks[k], targets) ==> exists m :: 0 <= m < |rest| && rest[m].blockIndex == k
    requires IndicesAscending(rest)
    ensures forall m :: 0 <= m < |here + rest| ==> i <= (here + rest)[m].blockIndex && FromBlock((here + rest)[m], head, blocks, targets)
    ensures forall k :: i <= k < |blocks| && Targets(blocks[k], targets) ==> exists m :: 0 <= m < |here + rest| && (here + rest)[m].blockIndex == k
    ensures IndicesAscending(here + rest)
  {
    RowsConsFrom(head, blocks, i, targets, here, rest);
    RowsConsCover(head, blocks, i, targets, here, rest);
  }

  lemma RowsConsFrom(head: PageHead, blocks: seq<Value>, i: nat, targets: seq<string>, here: seq<MatchRow>, rest: seq<MatchRow>)
    requires i < |blocks|
    requires BlockRows(head, i, blocks[i], targets) == Success(here)
    requires forall m :: 0 <= m < |rest| ==> i + 1 <= rest[m].blockIndex && FromBlock(rest[m], head, blocks, targets)
    requires IndicesAscending(rest)
    ensures forall m :: 0 <= m < |here + rest| ==> i <= (here + rest)[m].blockIndex && FromBlock((here + rest)[m], head, blocks, targets)
    ensures IndicesAscending(here + rest)
  {
    var rows := here + rest;
    if here != [] {
      assert rows == [RowFor(head, i, blocks[i])] + rest;
      assert forall m :: 1 <= m < |rows| ==> rows[m] == rest[m - 1];
    } else {
      assert rows == rest;
    }
  }

  lemma RowsConsCover(head: PageHead, blocks: seq<Value>, i: nat, targets: seq<string>, here: seq<MatchRow>, rest: seq<MatchRow>)
    requires i < |blocks|
    requires BlockRows(head, i, blocks[i], targets) == Success(here)
    requires forall k :: i + 1 <= k < |blocks| && Targets(blocks[k], targets) ==> exists m :: 0 <= m < |rest| && rest[m].blockIndex == k
    ensures forall k :: i <= k < |blocks| && Targets(blocks[k], targets) ==> exists m :: 0 <= m < |here + rest| && (here + rest)[m].blockIndex == k
  {
    var rows := here + rest;
    forall k | i <= k < |blocks| && Targets(blocks[k], targets)
      ensures exists m :: 0 <= m < |rows| && rows[m].blockIndex == k
    {
      if k > i {
        var m :| 0 <= m < |rest| && rest[m].blockIndex == k;
        assert rows[|here| + m] == rest[m];
      } else {
        assert rows[0] == RowFor(head, i, blocks[i]);
      }
    }
  }

  /** The rows of one page; a page that is no dictionary has no `get`. */
  function PageResult(p: Value, targets: seq<string>): Result<seq<MatchRow>> {
    if p.Obj? then PageRows(Head(p), Blocks(p), 0, targets) else Failure(AttributeError)
  }

  function PageMatches(targets: seq<string>): Value -> Result<seq<MatchRow>> {
    (p: Value) => PageResult(p, targets)
  }

  /** `find_matches`: the rows of every page in page order. Iterating a
      page list that is no list, dictionary or string raises TypeError;
      the keys of a dictionary and the characters of a string are pages
      with no `get`. */
  function FindMatches(pages: Value, targets: seq<string>): (r: Result<seq<MatchRow>>)
    ensures pages.Null? || pages.Bool? || pages.Num? ==> r == Failure(TypeError)
    ensures (pages.Str? && pages.s != "") || (pages.Obj? && pages.fields != []) ==> r == Failure(AttributeError)
    ensures pages.Arr? ==> (r.Failure? <==> exists k :: 0 <= k < |pages.items| && PageResult(pages.items[k], targets).Failure?)
  {
    match Iterate(pages)
    case None => Failure(TypeError)
    case Some(ps) =>
      var r := CollectAll(ps, PageMatches(targets));
      assert r.Failure? <==> exists k :: 0 <= k < |ps| && PageMatches(targets)(ps[k]).Failure?;
      if r.Failure? && !pages.Arr? then
        var k :| 0 <= k < |ps| && PageMatches(targets)(ps[k]) == Failure(r.error);
        assert ps[k] in ps;
        r
      else r
  }

  /** The rows of a page are exactly the rows its target blocks give. */
  lemma PageRowsMembers(head: PageHead, blocks: seq<Value>, targets: seq<string>, row: MatchRow)
    requires PageRows(head, blocks, 0, targets).Success?
    ensures row in PageRows(head, blocks, 0, targets).value <==> FromBlock(row, head, blocks, targets)
  {
    var rows := PageRows(head, blocks, 0, targets).value;
    if FromBlock(row, head, blocks, targets) {
      var m :| 0 <= m < |rows| && rows[m].blockIndex == row.blockIndex;
      assert FromBlock(rows[m], head, blocks, targets);
    }
  }

  /** A row is found exactly when some page is a dictionary and the block at
      the row's index of its flattened content is a target, and then the row
      carries that page's id and name and that block's fields. */
  lemma FindMatchesRows(pages: seq<Value>, targets: seq<string>, row: MatchRow)
    requires FindMatches(Arr(pages), targets).Success?
    ensures row in FindMatches(Arr(pages), targets).value <==>
      exists k :: 0 <= k < |pages| && pages[k].Obj? && FromBlock(row, Head(pages[k]), Blocks(pages[k]), targets)
  {
    var f := PageMatches(targets);
    assert FindMatches(Arr(pages), targets) == CollectAll(pages, f);
    CollectAllMembers(pages, f, row);
    forall k | 0 <= k < |pages|
      ensures f(pages[k]).Success? && row in f(pages[k]).value <==> pages[k].Obj? && FromBlock(row, Head(pages[k]), Blocks(pages[k]), targets)
    {
      assert f(pages[k]).Success?;
      assert pages[k].Obj?;
      PageRowsMembers(Head(pages[k]), Blocks(pages[k]), targets, row);
    }
  }

  /** Rows come out page by page: the rows of a list of pages are the rows
      of its first part followed by the rows of the rest, and either part
      failing fails the whole. */
  lemma FindMatchesPageOrder(a: seq<Value>, b: seq<Value>, targets: seq<string>)
    ensures FindMatches(Arr(a + b), targets).Success? <==>
      FindMatches(Arr(a), targets).Success? && FindMatches(Arr(b), targets).Success?
    ensures FindMatches(Arr(a + b), targets).Success? ==>
      FindMatches(Arr(a + b), targets).value == FindMatches(Arr(a), targets).value + FindMatches(Arr(b), targets).value
  {
    CollectAllConcat(a, b, PageMatches(targets));
  }

  /** Without targets a page has no rows. */
  lemma {:induction false} PageRowsNoTargets(head: PageHead, blocks: seq<Value>, i: nat)
    requires i <= |blocks|
    requires PageRows(head, blocks, i, []).Success?
    ensures PageRows(head, blocks, i, []).value == []
    decreases |blocks| - i
  {
    if i < |blocks| {
      PageRowsNoTargets(head, blocks, i + 1);
    }
  }

  /** With no targets nothing matches. */
  lemma NoTargetsNoMatches(pages: Value)
    requires FindMatches(pages, []).Success?
    ensures FindMatches(pages, []).value == []
  {
    var ps := Iterate(pages).value;
    var f := PageMatches([]);
    forall k | 0 <= k < |ps| && f(ps[k]).Success? ensures f(ps[k]).value == [] {
      PageRowsNoTargets(Head(ps[k]), Blocks(ps[k]), 0);
    }
    CollectAllEmpty(ps, f);
  }
}
