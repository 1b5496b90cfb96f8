# TUIDService line-identity bookkeeping, modelled in Dafny

TUIDService gives every line of every file a TUID, a number that stays with
the line as later changesets insert and delete lines around it. It keeps:

- a counter, `next_tuid`;
- a `temporal` table, which records the TUID of each line as first
  introduced at a (revision, file, line);
- an `annotations` table, which holds each file's list of (tuid, line)
  pairs at a revision, as text.

This project models the logic of `tuid/service.py` that carries those lists
from one revision to the next:

- the TUID allocator: `__init__` seeds it and `tuid()` hands out numbers;
- the text form of an annotation: `stringify_tuids` and `destringify_tuids`;
- `_apply_diff` with `add_one` and `remove_one`: it sorts the annotation by
  line, then walks the `+`/`-` changes of the file's diff entry. A `+`
  whose (changeset, file, line) is already in `temporal` is meant to reuse
  that TUID, and otherwise allocates a fresh one. A `-` removes the line.
  As written, the lookup `_get_one_tuid` selects the constant 1, so every
  reused TUID comes back as 1 (see "## Findings"). `DiffApply.Step` applied
  to `SelectOneAsWritten(temporal)` is that code as written. `ApplyChanges`,
  `ApplyDiff` and `ApplyDiffs` model the intended lookup, which reads the
  stored TUID;
- the frontier search of `_update_file_frontiers`: a walk over json-log
  pages, newest first, that looks for each file's last known revision;
- the sorting of the fetched diff entries into removed files, added files
  and per-file changeset lists. The frontier search and the try-revision
  path each have their own version of this;
- the walk from a try revision down its draft ancestors to a public one;
- `_update_file_changesets` and `_quick_update_file_changeset`;
- the per-line assembly of the result of `_get_tuids`.

The files and their modules:

| file | module | contents |
|---|---|---|
| `tuid_records.dfy` | TuidRecords | (tuid, line) pairs, table keys and rows, first-occurrence de-duplication |
| `py_text.dfy` | PyText | the Python string operations used: `str`, `int`, `split`, `splitlines`, `join`, `lstrip`, `replace`, `[:12]` |
| `annotation_text.dfy` | AnnotationText | the annotation's text form |
| `line_edits.dfy` | LineEdits | Python slicing, `add_one`, `remove_one`, the stable sort by line |
| `diff_apply.dfy` | DiffApply | what `_apply_diff` computes, as a function |
| `service.dfy` | Service | class `TUIDService`, with the counter and the `temporal` table as fields, and its methods |
| `frontier.dfy` | Frontier | the frontier search and the gathering of diffs to fetch |
| `classify.dfy` | Classify | the classification of diff entries and the try-revision draft walk |

The style of each part follows the code:

- Code that updates state step by step is a method with loops. `tuid()`,
  `_apply_diff`, `destringify_tuids`, the frontier search, the
  classification loops and the result loop of `_get_tuids` are all written
  this way.
- Each such method is proved equal to a function, or is characterised
  outright.
- Code that only slices and joins lists is a function.

## Model

| member | source | states |
|---|---|---|
| Service.SeedTuid | tuid/service.py:58 | the seed is 1 on an empty table; otherwise it is one past the largest stored TUID |
| Service.TUIDService.constructor | tuid/service.py:47-60 | the table holds the stored rows, and the counter starts at SeedTuid of them, above every stored TUID |
| Service.TUIDService.Tuid | tuid/service.py:63-71 | returns the current counter, advances it by exactly 1, and the value returned is no TUID already in the table |
| AnnotationText.EntryText | tuid/service.py:164 | an entry's text is non-empty, has no line break and has a comma |
| AnnotationText.Stringify | tuid/service.py:161-164 | the text is empty exactly when the list is empty |
| AnnotationText.ParseLines | tuid/service.py:171-177 | None exactly when some line fails to parse; otherwise one entry per line, each that line's parse, in order |
| AnnotationText.Destringify | tuid/service.py:167-181 | the loop returns the parse of the stored text, with one entry per line of the text |
| AnnotationText.ParseLinesRejects | tuid/service.py:172-179 | a single line that does not parse makes the whole result None |
| AnnotationText.ParseEntryText | tuid/service.py:164-176 | an entry's text parses back to the entry |
| AnnotationText.StringifyRoundTrip | tuid/service.py:161-181 | destringify of stringify gives back the list, including the empty list through "" |
| AnnotationText.StringifyLineCount | tuid/service.py:164 | the stored text has one line per entry |
| AnnotationText.MissingCommaRejected | tuid/service.py:173-179 | a line with no comma (`entry[1]` raises IndexError) makes the result None |
| PyText.ParseIntOfIntToString | tuid/service.py:164-176 | `int(str(n)) == n` for every integer, negatives included |
| PyText.SplitLinesOfJoin | tuid/service.py:164-170 | splitlines of non-empty newline-free parts joined by "\n" gives back the parts |
| PyText.SplitOnTwoFields | tuid/service.py:173 | splitting "a,b" on ',' gives [a, b] when neither part has a comma |
| PyText.RemoveChar | tuid/service.py:175 | `replace(c, '')` leaves no c, and changes nothing when there was none |
| PyText.RemoveCharConcat | tuid/service.py:175 | `replace(c, '')` works character by character: it distributes over concatenation, drops a single c and keeps any other character, so the other characters stay in order |
| PyText.LStrip | tuid/service.py:518 | the result does not start with the stripped character |
| PyText.LStripDropsLeading | tuid/service.py:518 | `lstrip('/')` removes exactly the leading run of '/': the result is a suffix of the input and every character before it is '/' |
| PyText.Short | tuid/service.py:822 | the 12-character prefix, or the whole string when it is shorter |
| LineEdits.SliceBound | tuid/service.py:510-514 | a slice bound inside the list is itself; past the end it is the length; a negative bound k counts from the end (n + k), and is 0 below -n |
| LineEdits.AddOneShape | tuid/service.py:509-511 | add_one at 1 <= p <= n+1 grows the list by one, keeps entries before p, puts the new entry at p, and moves each later entry one line down with its TUID |
| LineEdits.AddOneNumbered | tuid/service.py:509-511 | add_one turns a list numbered 1..n into one numbered 1..n+1 |
| LineEdits.RemoveOneShape | tuid/service.py:513-514 | remove_one of 1 <= p <= n shrinks the list by one, keeps entries before p, and moves each later entry one line up with its TUID |
| LineEdits.RemoveOneNumbered | tuid/service.py:513-514 | remove_one turns a list numbered 1..n into one numbered 1..n-1 |
| LineEdits.RemoveOneBeyondEnd | tuid/service.py:513-514 | removing a line past the end leaves the list unchanged |
| LineEdits.RemoveOneUndoesAddOne | tuid/service.py:509-514 | remove_one at a line undoes add_one at that line |
| LineEdits.AddOneTuids | tuid/service.py:509-511 | add_one adds exactly the new entry's TUID, as a multiset, at any line |
| LineEdits.RemoveOneTuids | tuid/service.py:513-514 | remove_one of an existing line drops exactly that line's TUID |
| LineEdits.SortByLine | tuid/service.py:507 | the sort returns a permutation of the annotation, ordered by line |
| LineEdits.InsertByLineAtLine | tuid/service.py:507 | an inserted entry goes before the entries already on its line |
| LineEdits.SortByLineStable | tuid/service.py:507 | the sort is stable, as `list.sort` is: the entries on each line keep their input order |
| LineEdits.SortByLineOfSorted | tuid/service.py:507 | an annotation already in line order is left as it is, as a stable sort does |
| DiffApply.ChangesFor | tuid/service.py:516-532 | None exactly when no entry's `/`-stripped new name is the file; otherwise the changes of an entry that names it |
| DiffApply.ChangesForFirst | tuid/service.py:516-532 | the entry used is the first one naming the file; later entries for the file are ignored |
| DiffApply.ApplyDiffWithoutEntry | tuid/service.py:506-519 | with no entry for the file, the result is the sorted annotation, and nothing is allocated or queued |
| DiffApply.ApplyDiffAllocates | tuid/service.py:521-531 | the queued rows carry next, next+1, ... in order, each for a key not already stored, and the counter ends just past them |
| DiffApply.StepsAllocate | tuid/service.py:521-531 | one fresh TUID per `+` whose key is not stored, in order; a `-` never allocates |
| DiffApply.StepsLength | tuid/service.py:521-531 | the annotation's length follows the changes: +1 per `+`, -1 per `-` of an existing line |
| DiffApply.StepsNumbered | tuid/service.py:521-531 | an annotation numbered 1..n stays numbered after well-placed changes |
| DiffApply.StepsProvenance | tuid/service.py:521-531 | every TUID of the result was in the annotation, is stored in the table, or was freshly allocated by this call |
| DiffApply.StepReusesStored | tuid/service.py:523-529 | a `+` whose (cset, file, line+1) is stored puts the stored TUID at its line and allocates nothing |
| DiffApply.SelectOneAsWritten | tuid/service.py:150-153 | the lookup as written reads the constant 1 for every stored key |
| DiffApply.OneStoredAdd | tuid/service.py:521-531 | one `+` at line 0 on an empty annotation gives the stored TUID at line 1 |
| DiffApply.StoredTuidLostAsWritten | tuid/service.py:150-153 | with the lookup as written, a line whose stored TUID is 7 comes back with TUID 1 |
| Service.TUIDService.ApplyChanges | tuid/service.py:520-531 | the change loop computes the DiffApply steps over the stored table: the annotation, the counter and the queued rows. This is the intended lookup, which reads the stored TUID; the code as written reads 1 (`SelectOneAsWritten`) |
| Service.TUIDService.ApplyDiff | tuid/service.py:490-546 | _apply_diff with the intended lookup (the stored TUID, not the constant 1 of the code as written) computes ApplyDiffSpec over the table, inserts the queued rows, and never rewrites a stored TUID |
| Service.InsertFresh | tuid/service.py:533-543 | inserting rows whose TUIDs come from the counter keeps every stored entry and stays below the counter |
| Service.TUIDService.ApplyDiffs | tuid/service.py:703-704 | applying a file's changesets in turn computes ApplyDiffsSpec and keeps every stored entry |
| Service.ApplyDiffsKeepsTable | tuid/service.py:703-704 | over any number of diffs the table only grows, and every TUID in it stays below the counter |
| Service.FillMap | tuid/service.py:1140-1148 | the fill covers exactly the listed keys, with TUIDs from start to start+len-1 |
| Service.FillFresh | tuid/service.py:1140-1148 | filling unstored keys from a counter above every stored TUID keeps the table and the counter invariant |
| Service.FillMapPositions | tuid/service.py:1140-1148 | on a list without repeats the i-th key gets start+i |
| Service.TUIDService.QuickUpdateFileChangeset | tuid/service.py:1133-1148 | one fresh TUID per key, in order; the counter advances by the number of keys |
| Service.QuickfillMembers | tuid/service.py:1126-1130 | the quickfill list holds exactly the keys of the annotated lines that the table lacks |
| Service.TUIDService.UpdateFileChangesets | tuid/service.py:1117-1131 | afterwards every annotated line's key is stored, and stored entries are unchanged |
| Service.TUIDService.ScanLines | tuid/service.py:1273-1289 | every line's key is its origin; a stored key's TUID is recorded under its line number; exactly the lines whose key is not stored are set aside, in their order (`Unknowns`), so their quickfill list is that of all the lines |
| Service.UnknownsMembers | tuid/service.py:1277-1286 | a line is set aside exactly when it is one of the lines and its key is not stored |
| Service.QuickfillOfUnknowns | tuid/service.py:1124-1129 | the quickfill list of the set-aside lines equals that of all the lines, since known keys contribute nothing to it |
| Service.TUIDService.AssembleTuids | tuid/service.py:1307-1323 | line n takes the TUID found while scanning, else the stored one, else MISSING; numbered 1..n when nothing is MISSING |
| Service.AssembledLines | tuid/service.py:1273-1323 | once every origin is stored, the result is numbered 1..n and every TUID is a stored one; when the annotate lines are numbered in order, line i has the TUID stored for its own origin |
| Service.TUIDService.AnnotateFile | tuid/service.py:1273-1323 | for an annotate response: one entry per line, numbered 1..n, every origin stored afterwards and every TUID a stored one (so none MISSING); when the lines are numbered in order, line i has its origin's stored TUID; stored entries are unchanged; the new table is the old one plus FillMap of the de-duplicated quickfill list from the old counter, and the counter advances by that list's length, so the new keys get fresh, distinct TUIDs (FillFresh, FillMapPositions) |
| Frontier.Scanned | tuid/service.py:818-822 | a page offers its nodes but the last, each shortened to 12 characters |
| Frontier.ExtendUnfound | tuid/service.py:842-844 | each frontier still looked for gains the changeset; the others are unchanged, whatever the dict order |
| Frontier.ScanPage | tuid/service.py:816-850 | frontiers met are marked found; the nodes scanned are cached and appended to the list of every frontier not found before them; the scan stops at the node that finds the last frontier, and `still_looking` is false exactly when none is left |
| Frontier.PageStep | tuid/service.py:816-850 | after each page, every frontier's list is the cached changesets before it, and a frontier is unfound exactly when it has not been cached |
| Frontier.WalkPages | tuid/service.py:803-865 | pages follow each other through their last nodes. A page is followed by another only while some frontier is unseen. The cache is every changeset the pages offer, or, when the last frontier was found, everything before the changeset that found it; the marks and lists follow from the cache. The loop stops when all frontiers are found, or after max_csets_proc pages, and then every file maps to [revision]. A failure (`FailedAt`) comes after a chain of pages within the budget, none of which completed the frontiers, at the page at the cursor: either that page is missing, or it is the last page read and it is empty |
| Frontier.WalkStep | tuid/service.py:816-865 | scanning one more page extends the walk: the cache grows by that page, or stops right before the changeset that completes the frontiers |
| Frontier.SearchFrontiers | tuid/service.py:784-865 | an empty frontier list fails (`frontier_list[0]` raises); exactly when every frontier is the requested revision the page loop is skipped, and `still_looking`, first bound inside that loop, is unbound at line 867, so the source raises UnboundLocalError, modelled as `Failed(NotSearched)`; otherwise the page walk's results, a success or a failure tied to the pages read as WalkPages states (`Stopped`, `FailedAt`) |
| Frontier.AllAtRevision | tuid/service.py:861 | every file of the frontier list maps to [revision] |
| Frontier.GatheredMembers | tuid/service.py:877-883 | with `order` an iteration of all frontiers, each once, a changeset is gathered exactly when it is on the list of some found frontier |
| Frontier.GatherDiffs | tuid/service.py:877-883 | the loop concatenates the lists of the found frontiers in iteration order; a changeset is in the cache exactly when some found frontier lists it |
| Frontier.SampleScanStops | tuid/service.py:816-850 | on the page x, c1, c2, tip, looking for c1 and c2, the scan stops at c2 with both found |
| Frontier.SampleScanLists | tuid/service.py:816-850 | that scan leaves c1 with [x] and c2 with [x, c1] |
| Frontier.OverlappingListsAsWritten | tuid/service.py:877-883 | gathering after that page lists x twice: [x, x, c1] |
| Frontier.SampleGather | tuid/service.py:877-883 | the lists [x] and [x, c1] gather to [x, x, c1], and to [x, c1] without repeats |
| Frontier.AppendNew | tuid/service.py:880-883 | appending only changesets not yet gathered extends the first-occurrence de-duplication |
| Frontier.GatherDiffsOnce | tuid/service.py:877-883 | the gathered changesets, each once, in the order first gathered; a changeset is in the cache exactly when some found frontier lists it |
| Classify.GetDiffs | tuid/service.py:214-222 | one element per requested changeset, in order, repeats kept, each with its diff |
| Classify.FrontierEntry | tuid/service.py:895-942 | one entry: the changeset is appended to its file's list exactly when the file has a frontier that is neither passed nor this changeset and the entry is no rename; the frontier is marked passed exactly when it is this changeset; removed and added gain exactly the dev/null cases |
| Classify.FrontierEntriesListed | tuid/service.py:895-942 | over one diff, a changeset is listed for f exactly when it was before or one of its entries lists it for f |
| Classify.FrontierAllListed | tuid/service.py:891-942 | over all fetched diffs, x is listed for f exactly when it was listed at the start or an entry of changeset x names f where f's frontier is neither passed nor x and the entry is no rename |
| Classify.FrontierEntriesPass | tuid/service.py:916-924 | over one diff, f's frontier becomes "" exactly when it is this changeset and an entry names f |
| Classify.FrontierAllPass | tuid/service.py:916-924 | over all fetched diffs, f's frontier becomes "" exactly when an entry for f comes from its frontier changeset; otherwise it is unchanged |
| Classify.ClassifyFrontierEntries | tuid/service.py:895-942 | the entry loop computes FrontierEntries |
| Classify.ClassifyForFrontiers | tuid/service.py:891-942 | the loop over the fetched diffs computes FrontierAll |
| Classify.FrontierAllSettles | tuid/service.py:916-924 | each frontier stays or is marked passed, and a file whose frontier is passed gains no changeset |
| Classify.FrontierListsNoDup | tuid/service.py:936-942 | with distinct fetched changesets, each naming a file at most once, no changeset is listed twice for a file |
| Classify.FetchedOnceListsNoDup | tuid/service.py:886-942 | fetching the changesets gathered without repeats lists each at most once per file |
| Classify.RepeatedCsetListedTwiceAsWritten | tuid/service.py:936-942 | a changeset fetched twice is listed twice for a file it modifies |
| Classify.TryEntry | tuid/service.py:646-666 | one entry: its changeset is appended to its file's list exactly when the file is being updated and the entry does not add it; removed and added gain exactly the dev/null cases |
| Classify.TryEntriesListed | tuid/service.py:646-666 | over one diff, a changeset is listed for f exactly when it was before or one of its entries names f, a file being updated, without adding it |
| Classify.TryAllListed | tuid/service.py:642-666 | over all draft diffs, x is listed for f exactly when it was at the start or an entry of changeset x names f, a file being updated, without adding it |
| Classify.ClassifyTryEntries | tuid/service.py:646-666 | the entry loop of the try path computes TryEntries |
| Classify.ClassifyForTry | tuid/service.py:642-666 | the loop over the draft diffs computes TryAll from empty dicts |
| Classify.TryListsNoDup | tuid/service.py:642-666 | with distinct draft changesets, each naming a file at most once, every file's list has no repeats |
| Classify.TryWalk | tuid/service.py:591-632 | the drafts walked form a first-parent chain without repeats; the outcome is Public, GiveUp, Crash or Loops exactly under its condition on the revision reached |
| Classify.DraftChainsAgree | tuid/service.py:595-632 | first-parent chains from one revision agree as far as the shorter goes, so the walk's result is determined |

## Left out

- HTTP: `_get_hg_diff`, `_get_hg_annotate`, `_check_branch`, `get_tuids_from_revision`, the json-log and json-rev fetches and the coverage query. Pages, revision data and diffs are inputs (maps) instead.
- SQLite: `init_db`, transactions, SQL text and `SQL_BATCH_SIZE` batching. The `temporal` table is a map field. The `annotations` table is not state; annotation text is an input.
- The unique index on `temporal`: an insert of an existing key raises in SQLite, but the model overwrites. The callers only insert unstored keys, which ApplyDiffAllocates and QuickfillMembers state.
- Locks, threads, `Thread.run`, the `_daemon` loop, the `get_tuids` chunking loop, `Log.*` and `gc.collect()`.
- The `elif already_ann[0] == ''` branches, which index a possibly-`None` result.
- `tuid/util.py` is not part of this model. `MISSING` is a parameter of AssembleTuids and AnnotateFile.
- Python set order in `list(set(...))`: the model keeps first occurrences in order (Dedup). The order of dict iteration over `latest_csets` is a parameter of GatherDiffs.
- `int()`: underscores and non-ASCII digits are not modelled. `IsSpace` strips ASCII white space only; Python 3's `int()` also strips the separators `\x1c`-`\x1f`, `\x85` and Unicode white space. `splitlines()`: only "\n", "\r" and "\r\n" end a line.
- The per-file processing after the classification (`service.py` 944-1114 and 673-707): re-annotation of added and missing files, empty results for removed files, and applying each file's changesets newest-last through `_apply_diff`. ApplyDiffs models that last step.
- `get_tuids` and `get_tuids_from_files` orchestration, the annotation cache lookups and the insertion of the `annotations` row.
- Service.TUIDService.ApplyDiffs: a changeset missing from `parsed_diffs` raises KeyError in the source; the model requires every changeset to be present.
- Classify.TryWalk: on a cycle of drafts the source loops forever; the model stops when it reaches a revision already walked and reports Loops.
- Frontier.SearchFrontiers: a failing page fetch (`Log.error`) and an empty page are error results rather than exceptions.

## Findings

| source | as written | input that shows it | evidently intended | confidence | as-written member | corrected member |
|---|---|---|---|---|---|---|
| tuid/service.py:150-153 | `_get_one_tuid` runs `select 1 from temporal ...`, so `_apply_diff` reuses the TUID 1 for every stored (cset, file, line) | a `+` at line 0 of file f in changeset c, with (c, f, 1) stored with TUID 7: the line gets TUID 1 | `select tuid from temporal ...`, so the stored TUID 7 is reused | high, not executed | DiffApply.StoredTuidLostAsWritten | DiffApply.StepReusesStored |
| tuid/service.py:877-883 | `diffs_cache` concatenates the lists of all found frontiers, which overlap, so a changeset can be fetched and classified twice and appended twice to a file's list | page x, c1, c2, tip with frontiers c1 and c2: the lists are [x] and [x, c1], and the cache is [x, x, c1] | each changeset gathered once, in order: [x, c1] | medium, not executed | Frontier.OverlappingListsAsWritten | Frontier.GatherDiffsOnce |
