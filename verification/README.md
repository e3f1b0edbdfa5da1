# scripts_de_arc in Dafny

A model of the deterministic logic in four Arc XP maintenance scripts. Each
script decides what to do with the replies of the Arc XP Draft and Content
APIs. Every HTTP reply is an input to the model, so each decision is a pure
function whose contract can be stated and proved.

- **Story deletion pipeline** (`pipeline_notas.py`, module `Pipeline`):
  - the circulation lookup and its shape-tolerant decoding;
  - decirculation from every website;
  - unpublish, then permanent delete, with the call trace each story produces;
  - the helpers that gather story ids from an ids file, one CSV or a
    directory of CSVs, and `--limit`.
- **PageBuilder matcher** (`find_destacado_targets.py`, module
  `PageBuilder`):
  - target names from the `destacado-websked*.js` listing;
  - shape-tolerant extraction of the page list;
  - flattening of regions into blocks;
  - exact-name matching of `content_source`.
- **Story audit** (`auditoria_notas.py`):
  - photo references and canonical URL of a story (`Stories`);
  - the recursive date-window bisection and its pagination loop
    (`StoryWindows`, on the shared `Windows` and `Search`);
  - the `YEARS_TO_AUDIT` language, its per-site resolution and the
    publish-date sort (`Years`).
- **Video audit** (`auditoria_videos.py`, module `Videos`):
  - the page parameters and the date query;
  - the window loop and its bisection;
  - the cutoff-capped partitioning and the small-site loop of
    `get_videos_for_site`.

Shared modules:

- `Wrappers`: Option and Result, and the Python exceptions as `Fault`.
- `Json`: a JSON value with Python's `dict.get`, truthiness and iteration.
- `Seqs`: flat maps and fail-fast collection, the shape of every
  `for`/`append` loop.
- `Text`: split, join, strip, basename, and `str`/`int` of integers.
- `Order`: code-point string order, sorting and `sorted(set(...))`.
- `Times`: civil datetimes, `dt_to_iso`, `strptime` and both `parse_iso`s.

The model rests on the following assumptions.

- **Whole seconds.** Datetimes are whole seconds counted from
  `datetime.min`. The midpoint of a window drops the half second that
  `timedelta / 2` keeps, just as `dt_to_iso` drops it from the query.
- **The archive service.** When the search service is modelled as
  consistent, it answers every query from one fixed list of hits. The
  hits are in publish order, and a page at `offset` returns the next
  `min(100, rest)` of them.
- **Fuel.** Page loops carry a request budget (`fuel`). Running out of
  budget is a distinct `OutOfFuel` fault. Every "reads all hits" theorem
  states how much budget suffices.

The deletion pipeline is modelled as the script runs it:

- it has no rate limiter, retry, backoff or worker pool;
- it processes the stories one after another;
- a 404 counts as success only on unpublish; decirculation and permanent
  delete treat it as a failure.

## Model

Some functions are stated through lemmas about them, and have no row of
their own: `Videos.FormatDateQuery` through Videos.QueryBounds,
`Videos.PageParams` through Videos.PageParamsLookup, `Times.DtToIso`
through Times.DtToIsoLayout, `Times.Strptime` through
Times.StrptimeOfDtToIso, `StoryWindows.PagesAsWritten` through the
PagesAsWritten lemmas, and `StoryWindows.CollectStoriesByDateRange` and
`StoryWindows.CollectStoryIdsByDateRange` through
StoryWindows.ArchiveStories.

| member | source | states |
|---|---|---|
| Pipeline.NotFoundForgivenOnlyOnUnpublish | pipeline_notas.py:123-151 | Every reply the decirculation and permanent-delete steps accept, unpublish also accepts. The only reply unpublish accepts that they refuse is 404. |
| Pipeline.FirstListKey | pipeline_notas.py:72-76 | The first of the wrapper keys whose value is a list. None iff none of them is. |
| Pipeline.FirstRecordList | pipeline_notas.py:84-87 | The first dict value that is a non-empty list headed by a dict. None iff there is none. |
| Pipeline.CirculationShape | pipeline_notas.py:66-87 | Exactly one shape holds, by precedence: a bare list; then a wrapper key with a list; then a record with a truthy `website_id`; then the first list of records; else nothing. |
| Pipeline.WrappedShape | pipeline_notas.py:72-76 | A wrapped payload takes its list from the first wrapper key holding a list. No earlier wrapper key holds one. |
| Pipeline.ListOfRecordsShape | pipeline_notas.py:84-87 | The fallback takes the first dict value that is a list of records. |
| Pipeline.WebsiteIdsMembers | pipeline_notas.py:92-98 | An id is collected iff some dict of the circulation list carries it as a truthy `website_id`. |
| Pipeline.WebsiteIds | pipeline_notas.py:92-98 | The id list is never longer than the circulation list. |
| Pipeline.GetCirculations | pipeline_notas.py:59-101 | The result is None exactly when the GET fails: transport error, 4xx/5xx, or a body that is not JSON. Otherwise it is the decoded ids, possibly none. |
| Pipeline.EmptyWrapperWins | pipeline_notas.py:72-90 | For any dict, the first wrapper key holding a list decides the ids, whatever else the dict holds. An empty list there yields no ids, even when the dict has a truthy `website_id` of its own. |
| Pipeline.ScalarPayloadIsEmpty | pipeline_notas.py:68-90 | A payload that is neither list nor dict yields no ids. |
| Pipeline.Decirculate | pipeline_notas.py:103-121 | One DELETE per website, in order, all attempted even after a failure. True iff every one succeeded; true with no call for an empty list. |
| Pipeline.ProcessStory | pipeline_notas.py:153-179 | A failed lookup stops after one call. Otherwise the calls are a prefix of lookup, decirculations, unpublish, delete. The outcome is the first stage that failed, so each stage runs only if the previous one succeeded. |
| Pipeline.ProcessStoryCalls | pipeline_notas.py:159-178 | The lookup is always the first call. Unpublish is called iff the lookup succeeded and every website accepted its decirculation. The delete is called iff unpublish was called and succeeded. |
| Pipeline.FullTracePrefix | pipeline_notas.py:159-178 | In every prefix of the full sequence, unpublish appears only after all decirculations, and the delete only as the last call. |
| Pipeline.AllSuccessfulDeletes | pipeline_notas.py:153-179 | When every reply succeeds, the story is deleted after making every call of the sequence. |
| Pipeline.AlreadyRemovedIsNotSuccess | pipeline_notas.py:160-163 | A 404 on the lookup ends the story as a lookup failure. |
| Pipeline.NotFoundOnDeleteFails | pipeline_notas.py:123-151 | With no circulations, a 404 on unpublish passes, but a 404 on the permanent delete fails. |
| Pipeline.RefusalStopsBeforeUnpublish | pipeline_notas.py:165-167 | A refused decirculation stops the story after the decirculation calls. No unpublish or delete is sent. |
| Pipeline.RunPipeline | pipeline_notas.py:228-230 | Every story is processed, in order, one outcome each. A story's outcome is `process_story_for_deletion` against the server as the earlier stories left it: its lookup knows whether the same id was deleted earlier in the run. |
| Pipeline.RunFromOutcomes | pipeline_notas.py:228-230 | From any point of the loop, each outcome is its story's, with the ids deleted before that point or earlier in the rest counted as gone. |
| Pipeline.GoneStep | pipeline_notas.py:228-230 | After one story, the set of deleted ids grows by that story exactly when it was deleted. |
| Pipeline.RepeatAfterDelete | pipeline_notas.py:228-230 | The loop does not skip repeated ids. When the server answers a deleted story's lookup with 404, an id deleted at its first occurrence fails the lookup at every later one. |
| Pipeline.DistinctIdsRunAlone | pipeline_notas.py:228-230 | With no repeated id, each story's outcome is the one it would have alone. |
| Pipeline.ExtractSiteFromFilename | pipeline_notas.py:29-41 | For a report name, the text after the prefix up to the next `_`. Otherwise a result iff the base name has at least three `_`-separated tokens. |
| Pipeline.SiteOfReportName | pipeline_notas.py:29-41 | The site is read back from any `notas_publicadas_<site>_<year>.csv` path written by the story audit. |
| Pipeline.Coalesce | pipeline_notas.py:51-54 | `a or b or c` over CSV cells: the first non-empty cell, else the last option. |
| Pipeline.Coalesce3 | pipeline_notas.py:51-54 | The three-way fallback is exactly the first present cell, else the last. |
| Pipeline.RowOf | pipeline_notas.py:51-56 | A row is kept iff one of `story_id`, `id`, `_id` is non-empty, and the id is the first such. The site falls back to the filename guess. |
| Pipeline.LoadOne | pipeline_notas.py:47-56 | One row gives at most one story row, iff an id column is filled. Without `site`/`website` it takes the site from the file name. |
| Pipeline.LoadRows | pipeline_notas.py:44-57 | Never more rows than the CSV has, and every kept row has a non-empty id. A story row comes out iff some record of the file gives it. |
| Pipeline.LoadRowsConcat | pipeline_notas.py:50-56 | Records are read in file order: loading `a + b` gives the rows of `a`, then those of `b`. |
| Pipeline.LoadRowsOne | pipeline_notas.py:50-56 | A single record loads as what `LoadOne` makes of it, so with LoadRowsConcat a record is kept iff it names a story. |
| Pipeline.LoadRowsIds | pipeline_notas.py:44-57 | An id comes out of a CSV file iff some record of the file names it. |
| Pipeline.StoryIdsOf | pipeline_notas.py:198-200 | The ids of the loaded rows, one per row, in order; an id is listed iff some loaded row carries it. |
| Text.NonBlank | pipeline_notas.py:214-217 | The stripped non-blank lines: a string is kept iff it is non-empty and some line strips to it, and there are never more than lines. |
| Text.StrippedLine | pipeline_notas.py:215-217 | One line gives its stripped form iff that is not blank, and nothing otherwise. |
| Text.NonBlankConcat | pipeline_notas.py:214-217 | Lines are filtered in order: the kept lines of `a + b` are those of `a`, then those of `b`. |
| Pipeline.UniversalNewlines | pipeline_notas.py:213-214 | Text mode leaves no carriage return in the lines read. |
| Pipeline.IdsFromText | pipeline_notas.py:210-217 | Every id read from the ids file is stripped and non-empty, and there are at most as many as lines. For a file without carriage returns, an id is read iff some line of the file strips to it. |
| Pipeline.IdsFileLines | pipeline_notas.py:213-217 | A file made of any lines, one per line, reads as those lines stripped, with the blank ones dropped, in order. |
| Pipeline.IdsFileRoundTrip | pipeline_notas.py:210-217 | An ids file written one stripped id per line reads back as the same ids. |
| Pipeline.ApplyLimit | pipeline_notas.py:219-220 | `--limit` keeps a prefix: all ids for no limit or 0, the first n for n > 0, all but the last \|n\| for n < 0. |
| Pipeline.FilterCsv | pipeline_notas.py:203-205 | Exactly the names whose lower-cased form ends in `.csv`. A sorted listing stays sorted. |
| Pipeline.CsvFiles | pipeline_notas.py:203-205 | The CSV names of a listing, in sorted order. |
| Pipeline.IdsOfFiles | pipeline_notas.py:203-209 | The ids of a list of CSV files are non-empty, and an id comes out iff some file of the list gives it. |
| Pipeline.IdsOfFilesConcat | pipeline_notas.py:203-209 | Files are read in listing order: the ids of `a + b` are those of `a`, then those of `b`. One file gives its own ids. |
| Pipeline.IdsOfFilesMembers | pipeline_notas.py:203-209 | An id comes out of a list of files iff it comes out of one of them. |
| Pipeline.StoryIds | pipeline_notas.py:196-220 | Every id is non-empty. `--limit` applies to the ids of the `--csv` file; else to those of every CSV file of `--csv-dir`, in sorted name order; else to the lines of the ids file. |
| Pipeline.CsvDirIds | pipeline_notas.py:201-209 | Without a limit, `--csv-dir` processes exactly the ids some CSV file of the listing gives. |
| PageBuilder.SplitExt | find_destacado_targets.py:58 | `os.path.splitext`: the two parts rebuild the name, and the extension is empty or one dot with no other dot. The extension is non-empty iff some dot follows a non-dot character, and then the root keeps a non-dot character. |
| PageBuilder.SplitExtOfTarget | find_destacado_targets.py:56-58 | Stripping the extension of a `destacado-websked*.js` name leaves the name without `.js`. |
| PageBuilder.TargetOfPath | find_destacado_targets.py:56-58 | The target of a matched path is its file name without `.js`. |
| PageBuilder.MatchedPaths | find_destacado_targets.py:53 | The glob yields exactly the base directory joined with each `destacado-websked*.js` name of the listing. |
| PageBuilder.GatherTargets | find_destacado_targets.py:42-60 | The targets are exactly the listed target files without `.js`, in sorted path order. |
| PageBuilder.TargetsOfSorted | find_destacado_targets.py:54-59 | Any sorted arrangement of the matched paths gives exactly the listed targets, ordered by their file names. |
| PageBuilder.ExtractPagesContainer | find_destacado_targets.py:88-106 | A list is returned as is, and a scalar gives `[]`. For a dict, whatever its field order: a list under `pages` wins; then `data.pages` when `data` is a dict holding `pages`; then a list under `data`; then the first list value of the dict, or `[]`. A result that is not a list can only be the nested `data.pages` value. |
| PageBuilder.PagesBeforeData | find_destacado_targets.py:92-98 | `{"data": [], "pages": [null]}` yields `[null]`: `pages` is tried before `data` although it comes second. |
| PageBuilder.ExtractPagesOfExport | find_destacado_targets.py:92-100 | An export that is a list of pages, or holds one under `pages`, yields that list. |
| PageBuilder.ExtractPagesOfData | find_destacado_targets.py:94-98 | `{"data": {"pages": x}}` yields x whatever x is. `{"data": [...]}` yields the list. |
| PageBuilder.FlattenBlocks | find_destacado_targets.py:109-126 | A list is returned unchanged. None and scalars give `[]`. |
| PageBuilder.FlattenRegionsConcat | find_destacado_targets.py:115-125 | The blocks of a dict of regions are the blocks of its entries, concatenated in order. |
| PageBuilder.FlattenBlocksMembers | find_destacado_targets.py:115-125 | A block comes out iff it sits in a list value of the dict, or in a list value one level down. |
| PageBuilder.BlockRows | find_destacado_targets.py:137-144 | A block gives a row iff it is a dict whose `content_source` is one of the targets. The row carries the collection id fallback. The lookups that raise are failures. |
| PageBuilder.PageRows | find_destacado_targets.py:136-144 | The rows of a page come from matching blocks, one per matching block index. They are in ascending block order, and the index counts skipped blocks. |
| PageBuilder.PageRowsMembers | find_destacado_targets.py:137-144 | A row is in a page's result iff some block of the page produced it. |
| PageBuilder.FindMatches | find_destacado_targets.py:129-145 | Iterating a scalar raises TypeError, and a non-empty string or dict raises AttributeError. A list fails iff some page does. |
| PageBuilder.FindMatchesRows | find_destacado_targets.py:129-145 | A row is found iff some page that is a dict has a block producing it. |
| PageBuilder.FindMatchesPageOrder | find_destacado_targets.py:132-145 | Rows come out page by page: the rows of `a + b` are the rows of `a`, then those of `b`. |
| PageBuilder.NoTargetsNoMatches | find_destacado_targets.py:130-141 | With no targets there are no rows. |
| Stories.PromoRefs | auditoria_notas.py:139-149 | At most one promo reference. There is one iff `promo_items.basic` is an image with a truthy `_id`, and it carries that image. |
| Stories.GalleryChildRefs | auditoria_notas.py:166-175 | A gallery child that is not a dict raises. An image child with a truthy `_id` gives one reference to its gallery. |
| Stories.ElementRefs | auditoria_notas.py:152-175 | A non-dict element raises. An element that is neither image nor gallery gives nothing. Every reference comes from the body. |
| Stories.ElementRefsMembers | auditoria_notas.py:154-175 | The references of an element are exactly: itself when it is an image with an id, or its image children with an id when it is a gallery. |
| Stories.BodyRefFromBody | auditoria_notas.py:152-175 | Every reference collected from `content_elements` carries a body location. |
| Stories.ParseStoryForPhotos | auditoria_notas.py:130-177 | A non-dict story raises AttributeError. A dict succeeds iff its promo step and every element of `content_elements` succeed. The result is then the promo reference, then each element's references in order. A `content_elements` that is null, a boolean or a number raises TypeError, and a non-empty value that is not a list raises AttributeError. Every reference carries the story's `_id` and `publish_date`. No reference after the first is a promo. |
| Stories.MissingElementsPromoOnly | auditoria_notas.py:152 | A story without `content_elements` has no body to scan (`get` gives `[]`): only its promo reference is collected. |
| Stories.ParseStoryForPhotosMembers | auditoria_notas.py:139-177 | A reference is collected iff it is the promo reference or a reference of some element of `content_elements`. |
| Stories.PromoThenBody | auditoria_notas.py:139-177 | A promo reference followed by body references carries the story's head throughout and holds no promo after its first place. |
| Stories.ExtractStoryUrl | auditoria_notas.py:180-207 | A falsy story gives None. A truthy story that is not a dict raises. Any URL returned is truthy, and a truthy `canonical_url` wins. |
| Stories.FirstTruthy | auditoria_notas.py:188-200 | The first truthy candidate, if any. |
| Stories.ExtractStoryUrlIsFirstCandidate | auditoria_notas.py:185-207 | The URL is the first truthy value among `canonical_url`, `website_url`, `display_url`, `url`, then each dict site's `website_url` or `url`, in order. |
| Stories.KeyUrlIsFirstTruthy | auditoria_notas.py:188-191 | The key loop returns the first truthy key value. |
| Stories.SiteUrlIsFirstTruthy | auditoria_notas.py:194-200 | The `websites` loop returns the first truthy `website_url or url` of a dict entry. |
| Stories.StoryTupleOf | auditoria_notas.py:349-354 | A story gives a tuple iff its `_id` is truthy: `(_id, publish_date, extract_story_url)`. |
| Times.Pad | auditoria_notas.py:43-44 | A zero-padded field has the given width and reads back as the number. |
| Times.DtToIsoLayout | auditoria_notas.py:43-44 | `dt_to_iso` lays out padded year, month, day, hour, minute and second between the fixed separators of section 5.6 of RFC 3339. |
| Times.StrptimeOfDtToIso | auditoria_notas.py:17-18 | `strptime` with the `Z` format reads `dt_to_iso(d)` back as d. |
| Times.ParseIsoLenient | auditoria_notas.py:13-25 | `parse_iso("")` is None. |
| Times.ParseIsoOfDtToIso | auditoria_notas.py:13-19 | Both `parse_iso`s read `dt_to_iso(d)` back as d, whatever `fromisoformat` does. |
| Times.ParseIsoStrict | auditoria_videos.py:49-57 | Empty input gives None. Otherwise the only failure is ValueError from the unguarded fallback. |
| Times.StrictRaisesWhereLenientGivesNone | auditoria_videos.py:49-57 | The video audit's parser agrees with the story audit's wherever that finds a date. It raises exactly where the story audit returns None on a non-empty string. |
| Times.SecondsRoundTrip | auditoria_notas.py:47-48 | A datetime's count of seconds since `datetime.min` is below the limit and converts back to the same datetime, so windows are exact. |
| Times.DaysBeforeYearClosedForm | auditoria_notas.py:47-48 | The proleptic Gregorian day count before a year equals its closed form. |
| Times.CalendarRoundTrip | auditoria_notas.py:47-48 | The year and month search recovers a date's year, day of year and month from its day count. |
| Windows.Left | auditoria_notas.py:87-88 | The left half starts where the window starts. |
| Windows.Right | auditoria_notas.py:89-90 | The right half starts one second after the left half ends, and ends where the window ends. |
| Windows.Bisect | auditoria_notas.py:72-91 | A failed probe is the window's result. |
| Windows.BisectHalves | auditoria_notas.py:86-91 | An oversized window longer than a second gives the left half's results, then the right half's. |
| Windows.BisectStuck | auditoria_notas.py:86-90 | An oversized one-second window halves into itself; this is a RecursionError. |
| Windows.BisectLeaf | auditoria_notas.py:93-125 | A window within the limit gives its own items. |
| Windows.BisectKeeps | auditoria_videos.py:98-110 | A property every leaf's items have holds for everything the bisection returns. |
| Windows.BisectFollowsPlan | auditoria_notas.py:72-91 | The bisection fails iff its plan fails, with the same fault. The planned windows tile the window, and the results are the leaves' items in plan order. |
| Windows.TilesDisjoint | auditoria_notas.py:89-90 | The windows of a tiling do not overlap, which is the promise of the comment on line 89. |
| Windows.TilesCover | auditoria_notas.py:86-91 | Every second of the window lies in some window of the tiling. |
| Search.Contents | auditoria_notas.py:113 | `data.get("content_elements", [])`: a non-dict reply raises. A missing key gives nothing, and a list gives its items. |
| Search.Decide | auditoria_notas.py:84-86 | The count decides: nothing iff it is 0 or False; halve iff it is a number above 10000; else fetch. A count that is not a number fails. A page fetch is chosen only for a count from 1 to 10000, or a negative one. |
| Search.PageOf | auditoria_notas.py:98-104 | A page from a valid offset is a non-empty run of the hits from there, of 100 hits unless it reaches the end. |
| Search.ServedContents | auditoria_notas.py:104-119 | The consistent service's page holds the hits from the offset and counts all of them. |
| Search.ExtremePublishDate | auditoria_notas.py:491-508 | A failed request or a non-dict reply gives None. A date is returned only from a non-empty page. |
| Search.ExtremeOfServed | auditoria_notas.py:503-506 | On the consistent service, the result is the first hit's `publish_date`, or None when there are no hits. |
| Search.HitsBetweenSplit | auditoria_notas.py:86-91 | In a chronological archive, the hits of `[lo, hi]` are those of `[lo, mid]` followed by those of `[mid+1, hi]`. |
| Search.HitsInHalves | auditoria_notas.py:87-91 | The hits of a window are those of its left half, then those of its right half. |
| Search.ArchiveBisect | auditoria_notas.py:72-91 | When every probe answers from the archive, the bisection either reads exactly the window's hits or fails. It fails because an item raised, or because more than 10000 hits share one second. |
| StoryWindows.PagesAsWrittenStep | auditoria_notas.py:104-122 | One request of the page loop as written: the page's items, then the loop from `offset + len(stories)` with one request less. |
| StoryWindows.PagesStep | auditoria_notas.py:104-122 | One request of the intended loop: the page's items, then the rest unless the page was empty. |
| StoryWindows.PagesAsWrittenAgrees | auditoria_notas.py:104-122 | The loop as written either runs out of requests or gives what the intended loop gives. |
| StoryWindows.AgreesByFuel | auditoria_notas.py:104-122 | The same agreement, proved for every number of requests. |
| StoryWindows.EmptyPageSpins | auditoria_notas.py:104-122 | An empty page before the count is reached makes the loop as written request the same page for ever. The intended loop ends with nothing. |
| StoryWindows.EmptyPageExample | auditoria_notas.py:104-122 | On a service that counts one story but returns empty pages, the loop as written never finishes. |
| StoryWindows.ServedPages | auditoria_notas.py:103-125 | On the consistent service, the intended loop reads exactly the hits from the offset. |
| StoryWindows.ServedPagesAsWritten | auditoria_notas.py:103-125 | On the consistent service, the loop as written reads exactly the hits from the offset, given one request per remaining hit. |
| StoryWindows.ServedStep | auditoria_notas.py:104-119 | One page of the consistent service is a non-empty run of the hits. Reading all hits is reading this page, then the rest. |
| StoryWindows.ProbeWindow | auditoria_notas.py:72-91 | A failed count request gives nothing, and a non-dict count reply raises. The window is halved iff the count is above 10000. |
| StoryWindows.ArchiveProbe | auditoria_notas.py:78-125 | On the archive, a window with no hits gives nothing. Over 10000 hits halve the window. Otherwise it reads the window's hits. |
| StoryWindows.ArchiveStories | auditoria_notas.py:64-128 | Both story collectors (the second at lines 304-365), on a chronological archive, read exactly the hits of the date range. Otherwise they fail because an item raised, or because one second holds more than 10000 hits. |
| Years.YearRange | auditoria_notas.py:573-576 | `range(a, b + 1)` as strings: b - a + 1 years from a upward, none when a > b. |
| Years.ExpandPart | auditoria_notas.py:566-581 | A part without a dash is kept as written. |
| Years.ParseYears | auditoria_notas.py:563-581 | A year is listed iff some comma part of `YEARS_TO_AUDIT` that is not blank, once stripped, expands to it. |
| Years.ParseYearsOfList | auditoria_notas.py:563-581 | A list of any comma-free parts, joined with commas, parses as its parts stripped, blank ones dropped, each expanded in order. Parts already stripped and non-blank are expanded as written. |
| Years.PaddedListExample | auditoria_notas.py:563-581 | `" 2021 , ,2022"` lists 2021 and 2022: padding is stripped and the blank part dropped. |
| Years.ClosedRangeExpands | auditoria_notas.py:573-576 | `A-B` expands to the years from A to B. |
| Years.OpenRangeKept | auditoria_notas.py:567-572 | `N-` is kept as written. |
| Years.SplitAtFirst | auditoria_notas.py:568 | `split('-', 1)` cuts at the first dash. |
| Years.YearsDown | auditoria_notas.py:616-617 | `range(start, low - 1, -1)` as strings: the years from start down to low. |
| Years.ResolvePart | auditoria_notas.py:602-619 | A part not ending in `-` is kept. The only failure is AttributeError, when the site's first publish date cannot be parsed. |
| Years.ResolveYears | auditoria_notas.py:600-622 | The resolved years are strictly descending, so free of duplicates. Resolution fails iff some part fails. |
| Years.ResolveYearsMembers | auditoria_notas.py:600-622 | A year is audited iff some part resolves to it. |
| Years.OpenRangeResolves | auditoria_notas.py:603-617 | `N-` resolves to N down to the year of the site's oldest story. |
| Years.YearNumber | auditoria_notas.py:626 | `int(year)` succeeds iff the text is an integer literal, and gives its value. |
| Years.YearNumbersOfNumerals | auditoria_notas.py:622-626 | Years written by `str` read back with `int`. |
| Years.SortTuplesAsWritten | auditoria_notas.py:635-641 | A permutation of the tuples, sorted by the key as written. |
| Years.SortTuples | auditoria_notas.py:634 | A permutation of the tuples, sorted by date with undated tuples after every dated one. |
| Years.UndatedFirstAsWritten | auditoria_notas.py:634-641 | As written, once a tuple dated after `datetime.min` appears, no undated tuple follows it. |
| Years.UndatedFirstExample | auditoria_notas.py:634-641 | For a dated and an undated tuple, the key as written puts the undated one first. The corrected sort puts it last. |
| Years.UndatedLast | auditoria_notas.py:634 | In the corrected sort, undated tuples only follow undated ones, and dated tuples are in date order. |
| Videos.PageParamsLookup | auditoria_videos.py:25-35 | Every key of `extra_params` reads as given there, and every other key as the defaults have it. No default key is lost. |
| Videos.DefaultParamsRead | auditoria_videos.py:25-32 | Without extras, `website`, `q`, `size` and `from` are the arguments. |
| Videos.QueryBounds | auditoria_videos.py:68-71 | The query for two datetimes is `type:video AND publish_date:[s TO e]`. Both ends read back with `parse_iso` as the datetimes it was made from. |
| Videos.RowOf | auditoria_videos.py:115 | A hit that is not a dict raises. A hit gives one row iff its `_id` is truthy, and the row pairs that id with the site. |
| Videos.ReadPage | auditoria_videos.py:114-119 | A page's rows are those of its hits. As written it advances by the number of rows; as intended, by the number of hits. A page only raises AttributeError or TypeError. |
| Videos.WindowRows | auditoria_videos.py:111-124 | Every row of a window names the site and a truthy id. |
| Videos.FlatRows | auditoria_videos.py:180-190 | Every row names the site. Reaching the total ends the loop, and the loop fails only for a failed request, a malformed reply or lack of requests. |
| Videos.ServedRead | auditoria_videos.py:114-121 | On the consistent service, a page's rows are the rows of its hits, and it advances by its number of hits. This holds as written too when every hit has an id. |
| Videos.OneRowEach | auditoria_videos.py:115 | Hits that all carry an id give one row each. |
| Videos.ServedWindowRows | auditoria_videos.py:111-124 | On the consistent service, the window loop reads the rows of all the hits from the offset, given enough requests. As written this needs every hit to have an id. |
| Videos.ServedFlatRows | auditoria_videos.py:180-190 | The same for the small-site loop. |
| Videos.ProbeVideos | auditoria_videos.py:98-110 | A failed count request raises. A non-dict reply raises AttributeError. A zero count gives nothing, and the window is halved iff the count is above 10000. |
| Videos.CollectVideosByDateRange | auditoria_videos.py:91-127 | Every row names the site. |
| Videos.ArchiveProbeVideos | auditoria_videos.py:98-124 | On the archive, every probe of a window gives the window's rows, or halves the window exactly when it holds more than 10000 hits. |
| Videos.ArchiveVideos | auditoria_videos.py:91-127 | On a chronological archive, the collector reads exactly the rows of the range's hits. Otherwise it fails because a hit raised, or because one second holds more than 10000 hits. |
| Videos.EffectiveEnd | auditoria_videos.py:161 | Without a cutoff the end is the newest date. Otherwise it is whichever of the two is earlier. |
| Videos.ParseDate | auditoria_videos.py:157-158 | A string parses iff the video audit's `parse_iso` accepts it. Any failure is AttributeError or ValueError. |
| Videos.Partition | auditoria_videos.py:151-166 | Missing extreme dates give nothing, and every row names the site. |
| Videos.ArchivePartition | auditoria_videos.py:151-166 | On a chronological archive whose reported oldest date is no later than any video, the partitioned read gives the rows of every video up to the effective end, in order. Otherwise it fails because a video raised, or because one second of the range holds more than 10000 videos. |
| Videos.PartitionNothing | auditoria_videos.py:159-164 | When the dates parse and the effective end is before the oldest date, nothing is collected. |
| Videos.PartitionWindow | auditoria_videos.py:157-166 | When the dates parse and the effective end is not before the oldest date, the collector reads the window from the oldest date to the effective end. |
| Videos.AllAfterCutoff | auditoria_videos.py:159-164 | When every video is later than the cutoff, nothing is collected. |
| Videos.GetVideosForSite | auditoria_videos.py:129-196 | A failed first request or a zero count gives nothing. A site above the result window fails only by running out of requests, since any exception there gives nothing. Every row names the site. The only faults are AttributeError, TypeError and running out of requests, because a RequestException is caught. |
| Videos.ArchiveSite | auditoria_videos.py:139-166 | A site above the result window, served from such an archive with no video raising and no overfull second, gets the rows of every video up to the effective end. |
| Videos.SmallSite | auditoria_videos.py:171-190 | Every row names the site. The only faults are a malformed page, a failed request and running out of requests. |
| Videos.ServedSmallSite | auditoria_videos.py:141-190 | A small site on the consistent service gives the rows of all its videos, in order. As written this needs every video to have an id. |
| Videos.NoRequestFaults | auditoria_videos.py:115 | Reading hits only raises AttributeError. |
| Videos.DuplicateAsWritten | auditoria_videos.py:115-121 | Take hits `[a, x]` where a has no id and x has one. As written, the window returns x's row twice. As intended, it returns it once. |
| Videos.DuplicateExample | auditoria_videos.py:115-121 | With hits `[{}, {"_id": "b"}]`, the window as written returns `("b", site)` twice. |

## Left out

- HTTP, sessions, timeouts, `time.sleep`, `tqdm`, printing, `dotenv`, `argparse` and `sys.exit`: every reply is an input. A request that raised RequestException is `None`, `TransportError` or `RequestFailed`. A body that is not JSON counts as a RequestException, as in requests 2.27 and later.
- File I/O: the CSV writers, `save_data_to_csv`, `save_ids_to_file` and `os.makedirs` are left out. The CSV reader is given rows as maps from column name to string. Directory listings and file contents are inputs.
- The functions outside the modelled core: `fetch_stories_for_year`, `fetch_story_ids_for_year`, `fetch_all_images_for_site` and `download_pages`. They repeat the pagination already modelled, or only fetch.
- `verify_sample.py` is not part of this model.
- `datetime.fromisoformat` is a parameter (`fromIso`) of both `parse_iso`s. Time zones, aware datetimes and microseconds are not modelled.
- Times.ParseIsoLenient: states only the empty case. What a non-empty string gives depends on the `fromIso` parameter. ParseIsoOfDtToIso and StrictRaisesWhereLenientGivesNone state the rest.
- Sub-second midpoints: `timedelta / 2` keeps half seconds, which the model drops. After the first halving, the windows the scripts query can differ from the model's. Python halves `[4.5 s, 5.75 s]` into queries shown as `[4 TO 5]` and `[6 TO 5]`; the model halves `[4, 5]` into `[4 TO 4]` and `[5 TO 5]`. The model does not claim that each window matches. What it proves is that its own leaves tile the starting window (Windows.BisectFollowsPlan, Windows.TilesCover).
- Whole-second publish dates: an archive hit sits at a whole second (`Hit.second` is an integer), and Search.ArchiveBisect, StoryWindows.ArchiveStories, Videos.ArchiveVideos and Videos.ArchivePartition rely on it. A hit at 5.5 s falls between a left half ending at `TO 5` and a right half starting at `6`, so under exact bounds neither query reads it.
- JSON numbers are integers only. A fractional number such as `"count": 0.0` has no `Value`, so what the scripts do with one is not modelled.
- Pipeline.RunPipeline: the only server state the loop carries is whether an id was deleted earlier in the run. A story left half-processed, decirculated but not deleted for instance, answers later lookups only as the reply functions say.
- Videos.GetVideosForSite: running out of the request budget inside the partitioned read is passed on as `OutOfFuel` rather than caught. The script has no such fault, and catching it would turn a budget too small into an empty result.
- Page loops take a request budget (`fuel`) instead of running unboundedly. A loop that would not end, such as the one in the first finding, shows up as `OutOfFuel` for every budget.
- A one-second window with more than 10000 hits recurses until Python's RecursionError. It is modelled as the `RecursionLimit` fault.
- Digits are ASCII. `int()` also accepts other Unicode digits, which the model does not.
- `--csv` versus `--csv-dir` selection by argument truthiness is modelled as the choice of an `IdSource`.
- Pipeline.Decirculate: the server's replies are keyed by website id, so a website listed twice in the circulations gets the same reply both times. A reply that depends on an earlier DELETE of the same website is not modelled.
- Years.ResolveYears: every `N-` part resolves against one oldest publish date, given once per site. The script queries `get_extreme_publish_date` again for each such part (auditoria_notas.py:610); the model assumes the archive does not change between those queries.
- Times.DtToIso: always pads the year to four digits. The platform's `%Y` may not pad years below 1000, so for those years the text can differ; from year 1000 on the two agree.
- Json.Lookup: takes the first field with a key, whereas Python's `json` keeps the last of repeated keys. The two agree on objects whose keys are distinct, which the model assumes of the API's replies.
- Pipeline.ExtractSiteFromFilename: for a name without the report prefix, states only whether a result exists, not which token it is.
- Pipeline.WebsiteIds: states the length bound. The membership contract is WebsiteIdsMembers; the order is by construction, not a separate lemma.
- Order.SortBy: proves sortedness and permutation. Python's sort stability is shown only for two elements (SortByTwo).
- Search.ExtremePublishDate: states the failure cases and where a date can come from. ExtremeOfServed gives the value on the consistent service.
- The properties about reading all hits hold for a consistent service, one that pages through one fixed list of hits. Under a changing service the loops are modelled, but no such theorem is stated.

## Findings

| source | as written | input that shows it | evidently intended | confidence | as-written member | corrected member |
|---|---|---|---|---|---|---|
| auditoria_notas.py:104-122 | The page loop (and its twin at lines 339-359) adds `len(stories)` to the offset and loops while it is below the count. An empty page leaves the offset unchanged, so the same page is requested for ever. | A window whose count is 1 but whose page has no `content_elements` | Stop at the first empty page, as the video audit does. | not executed | StoryWindows.EmptyPageSpins, StoryWindows.EmptyPageExample | StoryWindows.Pages, StoryWindows.ServedPages |
| auditoria_notas.py:634-641 | The comment says stories without a date go last. The key maps them to `datetime.min`, so they sort first. | A dated story and one whose `publish_date` is null | Undated stories after every dated one | not executed | Years.UndatedFirstAsWritten, Years.UndatedFirstExample | Years.SortTuples, Years.UndatedLast |
| auditoria_videos.py:115-121 | The offset advances by the number of ids on the page, not the number of hits; lines 173-175 and 182-189 do the same. A hit without `_id` makes the next request start inside the page just read, so a hit is read twice. | Hits `[{}, {"_id": "b"}]` in one window | Advance by the number of hits on the page, so each hit is read once | not executed | Videos.DuplicateAsWritten, Videos.DuplicateExample | Videos.ServedWindowRows, Videos.ServedFlatRows, Videos.ServedSmallSite |
