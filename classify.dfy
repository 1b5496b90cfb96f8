/** Sorting the entries of fetched changeset diffs into removed files, added
    files and per-file lists of changesets to apply, as
    TUIDService._update_file_frontiers does for a frontier search and as
    _get_tuids_from_files_try_branch does for a try revision; and the walk
    from a try revision down its draft ancestors to the first public one. */
module Classify {

  import opened TuidRecords
  import opened PyText
  import opened DiffApply

  /** One element of what get_diffs returns: a changeset's short hash and
      the entries of its diff. */
  datatype CsetDiff = CsetDiff(cset: string, diff: seq<FileDiff>)

  /** The dictionaries the classification fills: `removed_files` and
      `added_files` (only their keys matter) and `files_to_process`. */
  datatype Classified = Classified(removed: set<string>, added: set<string>, toProcess: map<string, seq<string>>)

  /** The frontier search classification also updates `file_to_frontier`,
      where "" marks a file whose frontier has been passed. */
  datatype FrontierState = FrontierState(sorted: Classified, frontier: map<string, string>)

  /** The file name an entry is about: its new name without leading slashes. */
  function Name(e: FileDiff): string {
    LStrip(e.newName, '/')
  }

  function OldName(e: FileDiff): string {
    LStrip(e.oldName, '/')
  }

  /** What is listed for `f` so far: nothing when `f` has no list yet. */
  function Listed(tp: map<string, seq<string>>, f: string): seq<string> {
    if f in tp then tp[f] else []
  }

  /** `files_to_process[f].append(c)`, or `files_to_process[f] = [c]` when
      `f` has no list yet. */
  function Append(tp: map<string, seq<string>>, f: string, c: string): (r: map<string, seq<string>>)
    ensures r.Keys == tp.Keys + {f}
    ensures r[f] == Listed(tp, f) + [c]
    ensures forall g :: g in tp && g != f ==> r[g] == tp[g]
  {
    tp[f := Listed(tp, f) + [c]]
  }

  /** An entry either leaves the lists alone or appends `c` to the list of `f`. */
  ghost predicate AppendOrKeep(before: map<string, seq<string>>, after: map<string, seq<string>>, f: string, c: string) {
    after == before || after == Append(before, f, c)
  }

  // ---------------------------------------------------------------------
  // _update_file_frontiers: the entries of the diffs gathered for the
  // frontiers that were found

  /** An entry of changeset `c` that lists `c` for its file: the file has a
      frontier, which is neither passed nor `c`, and the entry is no rename. */
  predicate FrontierLists(s: FrontierState, c: string, e: FileDiff) {
    Name(e) in s.frontier && s.frontier[Name(e)] !in {"", c} && OldName(e) == Name(e)
  }

  /** One diff entry of changeset `c`. A file without a frontier is skipped,
      noting it as removed when its new name is dev/null; a file added here
      is noted; a file past its frontier is skipped; reaching the frontier
      marks it passed; a rename is skipped; otherwise `c` is listed for the
      file. */
  function FrontierEntry(s: FrontierState, c: string, e: FileDiff): (r: FrontierState)
    ensures r.sorted.toProcess == if FrontierLists(s, c, e) then Append(s.sorted.toProcess, Name(e), c) else s.sorted.toProcess
    ensures r.frontier == if Name(e) in s.frontier && s.frontier[Name(e)] == c then s.frontier[Name(e) := ""] else s.frontier
    ensures r.sorted.removed == if Name(e) !in s.frontier && Name(e) == "dev/null" then s.sorted.removed + {OldName(e)} else s.sorted.removed
    ensures r.sorted.added == if Name(e) in s.frontier && OldName(e) == "dev/null" then s.sorted.added + {Name(e)} else s.sorted.added
    ensures r.frontier.Keys == s.frontier.Keys
    ensures forall f :: f in s.frontier ==> r.frontier[f] == s.frontier[f] || r.frontier[f] == ""
    ensures AppendOrKeep(s.sorted.toProcess, r.sorted.toProcess, Name(e), c)
    ensures r.sorted.toProcess != s.sorted.toProcess ==>
              Name(e) in s.frontier && s.frontier[Name(e)] !in {"", c} && OldName(e) == Name(e)
    ensures s.sorted.removed <= r.sorted.removed && s.sorted.added <= r.sorted.added
  {
    var newName := Name(e);
    var oldName := OldName(e);
    var sorted := s.sorted;
    if newName !in s.frontier then
      if newName == "dev/null" then FrontierState(sorted.(removed := sorted.removed + {oldName}), s.frontier)
      else s
    else
      var sorted := if oldName == "dev/null" then sorted.(added := sorted.added + {newName}) else sorted;
      if s.frontier[newName] == "" then FrontierState(sorted, s.frontier)
      else if s.frontier[newName] == c then FrontierState(sorted, s.frontier[newName := ""])
      else if oldName != newName then FrontierState(sorted, s.frontier)
      else FrontierState(sorted.(toProcess := Append(sorted.toProcess, newName, c)), s.frontier)
  }

  /** The entries of one changeset's diff, in order. */
  function FrontierEntries(s: FrontierState, c: string, diff: seq<FileDiff>): FrontierState {
    if |diff| == 0 then s
    else FrontierEntry(FrontierEntries(s, c, diff[..|diff| - 1]), c, diff[|diff| - 1])
  }

  /** All fetched diffs, in the order get_diffs returned them. */
  function FrontierAll(s: FrontierState, all: seq<CsetDiff>): FrontierState {
    if |all| == 0 then s
    else
      var last := all[|all| - 1];
      FrontierEntries(FrontierAll(s, all[..|all| - 1]), last.cset, last.diff)
  }

  /** The inner `for f_added in parsed_diff` loop. */
  method ClassifyFrontierEntries(s0: FrontierState, c: string, diff: seq<FileDiff>) returns (s: FrontierState)
    ensures s == FrontierEntries(s0, c, diff)
  {
    s := s0;
    for i := 0 to |diff|
      invariant s == FrontierEntries(s0, c, diff[..i])
    {
      assert diff[..i + 1][..i] == diff[..i];
      ghost var next := FrontierEntry(s, c, diff[i]);
      assert FrontierEntries(s0, c, diff[..i + 1]) == next;
      var newName := LStrip(diff[i].newName, '/');
      var oldName := LStrip(diff[i].oldName, '/');
      if newName !in s.frontier {
        if newName == "dev/null" {
          s := s.(sorted := s.sorted.(removed := s.sorted.removed + {oldName}));
        }
        continue;
      }
      if oldName == "dev/null" {
        s := s.(sorted := s.sorted.(added := s.sorted.added + {newName}));
      }
      if s.frontier[newName] == "" {
        continue;
      }
      if s.frontier[newName] == c {
        s := s.(frontier := s.frontier[newName := ""]);
        continue;
      }
      if oldName != newName {
        continue;
      }
      if newName in s.sorted.toProcess {
        s := s.(sorted := s.sorted.(toProcess := s.sorted.toProcess[newName := s.sorted.toProcess[newName] + [c]]));
      } else {
        assert Listed(s.sorted.toProcess, newName) + [c] == [c];
        s := s.(sorted := s.sorted.(toProcess := s.sorted.toProcess[newName := [c]]));
      }
    }
    assert diff[..|diff|] == diff;
  }

  /** The outer `for csets_diff in all_diffs` loop. */
  method ClassifyForFrontiers(s0: FrontierState, all: seq<CsetDiff>) returns (s: FrontierState)
    ensures s == FrontierAll(s0, all)
  {
    s := s0;
    for k := 0 to |all|
      invariant s == FrontierAll(s0, all[..k])
    {
      assert all[..k + 1][..k] == all[..k];
      s := ClassifyFrontierEntries(s, all[k].cset, all[k].diff);
    }
    assert all[..|all|] == all;
  }

  /** What the classification keeps of the frontier map: its files; each
      frontier either stays or is marked passed, and a file marked passed
      gains no changeset. */
  ghost predicate Settles(s: FrontierState, r: FrontierState) {
    && r.frontier.Keys == s.frontier.Keys
    && (forall f :: f in s.frontier ==> r.frontier[f] == s.frontier[f] || r.frontier[f] == "")
    && (forall f :: f in s.frontier && s.frontier[f] == "" ==>
          (f in r.sorted.toProcess <==> f in s.sorted.toProcess) && Listed(r.sorted.toProcess, f) == Listed(s.sorted.toProcess, f))
  }

  lemma SettlesTrans(a: FrontierState, b: FrontierState, c: FrontierState)
    requires Settles(a, b) && Settles(b, c)
    ensures Settles(a, c)
  {
    forall f | f in a.frontier && a.frontier[f] == ""
      ensures (f in c.sorted.toProcess <==> f in a.sorted.toProcess)
      ensures Listed(c.sorted.toProcess, f) == Listed(a.sorted.toProcess, f)
    {
      assert b.frontier[f] == "";
    }
  }

  lemma FrontierEntrySettles(s: FrontierState, c: string, e: FileDiff)
    ensures Settles(s, FrontierEntry(s, c, e))
  {
  }

  lemma {:induction false} FrontierEntriesSettle(s: FrontierState, c: string, diff: seq<FileDiff>)
    ensures Settles(s, FrontierEntries(s, c, diff))
  {
    if |diff| > 0 {
      var mid := FrontierEntries(s, c, diff[..|diff| - 1]);
      FrontierEntriesSettle(s, c, diff[..|diff| - 1]);
      FrontierEntrySettles(mid, c, diff[|diff| - 1]);
      SettlesTrans(s, mid, FrontierEntries(s, c, diff));
    }
  }

  /** Across all fetched diffs the files keep their frontiers or have them
      marked passed, and no changeset is listed for a file once its
      frontier is passed. */
  lemma {:induction false} FrontierAllSettles(s: FrontierState, all: seq<CsetDiff>)
    ensures Settles(s, FrontierAll(s, all))
  {
    if |all| > 0 {
      var mid := FrontierAll(s, all[..|all| - 1]);
      FrontierAllSettles(s, all[..|all| - 1]);
      FrontierEntriesSettle(mid, all[|all| - 1].cset, all[|all| - 1].diff);
      SettlesTrans(s, mid, FrontierAll(s, all));
    }
  }

  /** Appending for one file leaves the list of every other file alone. */
  lemma ListedAppend(tp: map<string, seq<string>>, g: string, c: string, f: string)
    ensures Listed(Append(tp, g, c), f) == Listed(tp, f) + if g == f then [c] else []
  {
  }

  /** Entry `j` of the diff lists `c` for file f. */
  ghost predicate ListsAt(s: FrontierState, c: string, diff: seq<FileDiff>, j: nat, f: string)
    requires j < |diff|
  {
    Name(diff[j]) == f && FrontierLists(FrontierEntries(s, c, diff[..j]), c, diff[j])
  }

  lemma ListsAtPrefix(s: FrontierState, c: string, diff: seq<FileDiff>, n: nat, f: string)
    requires n < |diff|
    ensures (exists j :: 0 <= j < n + 1 && ListsAt(s, c, diff, j, f)) <==>
            (exists j :: 0 <= j < n && ListsAt(s, c, diff[..n], j, f)) || ListsAt(s, c, diff, n, f)
  {
    var init := diff[..n];
    forall j | 0 <= j < n
      ensures ListsAt(s, c, diff, j, f) == ListsAt(s, c, init, j, f)
    {
      assert init[j] == diff[j] && init[..j] == diff[..j];
    }
  }

  lemma {:induction false} FrontierEntriesListed(s: FrontierState, c: string, diff: seq<FileDiff>, f: string, x: string)
    ensures x in Listed(FrontierEntries(s, c, diff).sorted.toProcess, f) <==>
            x in Listed(s.sorted.toProcess, f) ||
            (x == c && exists j :: 0 <= j < |diff| && ListsAt(s, c, diff, j, f))
  {
    if |diff| > 0 {
      var n := |diff| - 1;
      var init := diff[..n];
      var e := diff[n];
      FrontierEntriesListed(s, c, init, f, x);
      var mid := FrontierEntries(s, c, init);
      assert FrontierEntries(s, c, diff) == FrontierEntry(mid, c, e);
      ListedAppend(mid.sorted.toProcess, Name(e), c, f);
      assert Listed(FrontierEntries(s, c, diff).sorted.toProcess, f) ==
             Listed(mid.sorted.toProcess, f) + if FrontierLists(mid, c, e) && Name(e) == f then [c] else [];
      ListsAtPrefix(s, c, diff, n, f);
      assert ListsAt(s, c, diff, n, f) == (FrontierLists(mid, c, e) && Name(e) == f);
    }
  }

  /** Entry `j` of the diff of `all[k]` lists that changeset for file f, in
      the state the classification has reached when it meets the entry. */
  ghost predicate ListedBy(s: FrontierState, all: seq<CsetDiff>, k: nat, j: nat, f: string)
    requires k < |all|
  {
    j < |all[k].diff| && ListsAt(FrontierAll(s, all[..k]), all[k].cset, all[k].diff, j, f)
  }

  /** A changeset is listed for file f exactly when it was listed at the
      start, or one of its entries names f at a point where f's frontier is
      neither passed nor that changeset and the entry is no rename. */
  lemma {:induction false} FrontierAllListed(s: FrontierState, all: seq<CsetDiff>, f: string, x: string)
    ensures x in Listed(FrontierAll(s, all).sorted.toProcess, f) <==>
            x in Listed(s.sorted.toProcess, f) ||
            exists k, j :: 0 <= k < |all| && 0 <= j && all[k].cset == x && ListedBy(s, all, k, j, f)
  {
    if |all| > 0 {
      var n := |all| - 1;
      var init := all[..n];
      var last := all[n];
      FrontierAllListed(s, init, f, x);
      var mid := FrontierAll(s, init);
      assert FrontierAll(s, all) == FrontierEntries(mid, last.cset, last.diff);
      FrontierEntriesListed(mid, last.cset, last.diff, f, x);
      forall k, j | 0 <= k < n && 0 <= j
        ensures ListedBy(s, init, k, j, f) == ListedBy(s, all, k, j, f)
      {
        assert init[k] == all[k] && init[..k] == all[..k];
      }
      if exists k, j :: 0 <= k < |all| && 0 <= j && all[k].cset == x && ListedBy(s, all, k, j, f) {
        var k, j :| 0 <= k < |all| && 0 <= j && all[k].cset == x && ListedBy(s, all, k, j, f);
        if k == n {
          assert all[..n] == init;
          assert x == last.cset && 0 <= j < |last.diff| && ListsAt(mid, last.cset, last.diff, j, f);
        } else {
          assert init[k].cset == x && ListedBy(s, init, k, j, f);
        }
      }
      if x == last.cset && exists j :: 0 <= j < |last.diff| && ListsAt(mid, last.cset, last.diff, j, f) {
        var j :| 0 <= j < |last.diff| && ListsAt(mid, last.cset, last.diff, j, f);
        assert all[..n] == init;
        assert ListedBy(s, all, n, j, f);
      }
      if exists k, j :: 0 <= k < |init| && 0 <= j && init[k].cset == x && ListedBy(s, init, k, j, f) {
        var k, j :| 0 <= k < |init| && 0 <= j && init[k].cset == x && ListedBy(s, init, k, j, f);
        assert all[k].cset == x && ListedBy(s, all, k, j, f);
      }
    }
  }

  /** Some entry of the diff is about file f. */
  ghost predicate Names(diff: seq<FileDiff>, f: string) {
    exists j :: 0 <= j < |diff| && Name(diff[j]) == f
  }

  lemma {:induction false} FrontierEntriesPass(s: FrontierState, c: string, diff: seq<FileDiff>, f: string)
    requires f in s.frontier
    ensures f in FrontierEntries(s, c, diff).frontier
    ensures FrontierEntries(s, c, diff).frontier[f] == if s.frontier[f] == c && Names(diff, f) then "" else s.frontier[f]
  {
    if |diff| > 0 {
      var n := |diff| - 1;
      var init := diff[..n];
      FrontierEntriesPass(s, c, init, f);
      assert forall j :: 0 <= j < n ==> init[j] == diff[j];
      if Names(diff, f) && !Names(init, f) {
        assert Name(diff[n]) == f;
      }
    }
  }

  /** A file's frontier is passed ("") exactly when an entry for the file
      comes from its frontier changeset; otherwise it stays as it was. */
  lemma {:induction false} FrontierAllPass(s: FrontierState, all: seq<CsetDiff>, f: string)
    requires f in s.frontier
    ensures f in FrontierAll(s, all).frontier
    ensures FrontierAll(s, all).frontier[f] ==
            if exists k :: 0 <= k < |all| && all[k].cset == s.frontier[f] && Names(all[k].diff, f)
            then "" else s.frontier[f]
  {
    if |all| > 0 {
      var n := |all| - 1;
      var init := all[..n];
      FrontierAllPass(s, init, f);
      assert FrontierAll(s, all) == FrontierEntries(FrontierAll(s, init), all[n].cset, all[n].diff);
      assert forall k :: 0 <= k < n ==> init[k] == all[k];
      FrontierEntriesPass(FrontierAll(s, init), all[n].cset, all[n].diff, f);
    }
  }

  // ---------------------------------------------------------------------
  // _get_tuids_from_files_try_branch: the entries of the draft diffs

  /** An entry that lists its changeset on the try path: a file being
      updated that the entry does not add. */
  predicate TryLists(e: FileDiff, files: set<string>) {
    Name(e) in files && OldName(e) != "dev/null"
  }

  /** One diff entry of changeset `c` on the try path: a file not being
      updated is skipped, noting it as removed when its new name is
      dev/null; an added file is noted and skipped; otherwise `c` is listed
      for the file. */
  function TryEntry(s: Classified, c: string, e: FileDiff, files: set<string>): (r: Classified)
    ensures AppendOrKeep(s.toProcess, r.toProcess, Name(e), c)
    ensures r.toProcess == if TryLists(e, files) then Append(s.toProcess, Name(e), c) else s.toProcess
    ensures r.removed == if Name(e) !in files && Name(e) == "dev/null" then s.removed + {OldName(e)} else s.removed
    ensures r.added == if Name(e) in files && OldName(e) == "dev/null" then s.added + {Name(e)} else s.added
  {
    var newName := Name(e);
    var oldName := OldName(e);
    if newName !in files then
      if newName == "dev/null" then s.(removed := s.removed + {oldName}) else s
    else if oldName == "dev/null" then s.(added := s.added + {newName})
    else s.(toProcess := Append(s.toProcess, newName, c))
  }

  function TryEntries(s: Classified, c: string, diff: seq<FileDiff>, files: set<string>): Classified {
    if |diff| == 0 then s
    else TryEntry(TryEntries(s, c, diff[..|diff| - 1], files), c, diff[|diff| - 1], files)
  }

  function TryAll(s: Classified, all: seq<CsetDiff>, files: set<string>): Classified {
    if |all| == 0 then s
    else
      var last := all[|all| - 1];
      TryEntries(TryAll(s, all[..|all| - 1], files), last.cset, last.diff, files)
  }

  /** The inner `for f_added in parsed_diff` loop of the try path. */
  method ClassifyTryEntries(s0: Classified, c: string, diff: seq<FileDiff>, files: set<string>) returns (s: Classified)
    ensures s == TryEntries(s0, c, diff, files)
  {
    s := s0;
    for i := 0 to |diff|
      invariant s == TryEntries(s0, c, diff[..i], files)
    {
      assert diff[..i + 1][..i] == diff[..i];
      ghost var next := TryEntry(s, c, diff[i], files);
      assert TryEntries(s0, c, diff[..i + 1], files) == next;
      var newName := LStrip(diff[i].newName, '/');
      var oldName := LStrip(diff[i].oldName, '/');
      assert newName == Name(diff[i]) && oldName == OldName(diff[i]);
      if newName !in files {
        if newName == "dev/null" {
          s := s.(removed := s.removed + {oldName});
        }
        assert s == next;
        continue;
      }
      if oldName == "dev/null" {
        s := s.(added := s.added + {newName});
        assert s == next;
        continue;
      }
      if newName in s.toProcess {
        s := s.(toProcess := s.toProcess[newName := s.toProcess[newName] + [c]]);
      } else {
        assert Listed(s.toProcess, newName) + [c] == [c];
        s := s.(toProcess := s.toProcess[newName := [c]]);
      }
      assert s == next;
    }
    assert diff[..|diff|] == diff;
  }

  /** The outer loop of the try path, over the diffs of the draft changesets. */
  method ClassifyForTry(all: seq<CsetDiff>, files: set<string>) returns (s: Classified)
    ensures s == TryAll(Classified({}, {}, map[]), all, files)
  {
    s := Classified({}, {}, map[]);
    for k := 0 to |all|
      invariant s == TryAll(Classified({}, {}, map[]), all[..k], files)
    {
      assert all[..k + 1][..k] == all[..k];
      s := ClassifyTryEntries(s, all[k].cset, all[k].diff, files);
    }
    assert all[..|all|] == all;
  }

  lemma {:induction false} TryEntriesListed(s: Classified, c: string, diff: seq<FileDiff>, files: set<string>,
                                            f: string, x: string)
    ensures x in Listed(TryEntries(s, c, diff, files).toProcess, f) <==>
            x in Listed(s.toProcess, f) ||
            (x == c && exists j :: 0 <= j < |diff| && Name(diff[j]) == f && TryLists(diff[j], files))
  {
    if |diff| > 0 {
      var n := |diff| - 1;
      var init := diff[..n];
      TryEntriesListed(s, c, init, files, f, x);
      assert forall j :: 0 <= j < n ==> init[j] == diff[j];
      var mid := TryEntries(s, c, init, files);
      ListedAppend(mid.toProcess, Name(diff[n]), c, f);
    }
  }

  /** On the try path a changeset is listed for file f exactly when it was
      listed at the start or one of its entries names f, a file being
      updated, without adding it. */
  lemma {:induction false} TryAllListed(s: Classified, all: seq<CsetDiff>, files: set<string>, f: string, x: string)
    ensures x in Listed(TryAll(s, all, files).toProcess, f) <==>
            x in Listed(s.toProcess, f) ||
            exists k, j :: 0 <= k < |all| && 0 <= j < |all[k].diff| && all[k].cset == x
              && Name(all[k].diff[j]) == f && TryLists(all[k].diff[j], files)
  {
    if |all| > 0 {
      var n := |all| - 1;
      var init := all[..n];
      TryAllListed(s, init, files, f, x);
      assert forall k :: 0 <= k < n ==> init[k] == all[k];
      TryEntriesListed(TryAll(s, init, files), all[n].cset, all[n].diff, files, f, x);
    }
  }

  // ---------------------------------------------------------------------
  // Each changeset is listed at most once per file

  /** The names of the first `n` entries of a diff. */
  function NamesOf(diff: seq<FileDiff>, n: nat): set<string>
    requires n <= |diff|
  {
    set j | 0 <= j < n :: Name(diff[j])
  }

  /** No two entries of a diff are about the same file. */
  ghost predicate NamesDistinct(diff: seq<FileDiff>) {
    forall i, j :: 0 <= i < j < |diff| ==> Name(diff[i]) != Name(diff[j])
  }

  function Csets(all: seq<CsetDiff>): (cs: seq<string>)
    ensures |cs| == |all|
    ensures forall k :: 0 <= k < |all| ==> cs[k] == all[k].cset
  {
    seq(|all|, k requires 0 <= k < |all| => all[k].cset)
  }

  /** After some entries of changeset `c`, each list is what it was, or
      that plus `c` for a file one of those entries (`names`) is about. */
  ghost predicate GainsOnce(before: map<string, seq<string>>, after: map<string, seq<string>>, c: string, names: set<string>) {
    && before.Keys <= after.Keys
    && forall f :: f in after ==>
         (f in before && after[f] == before[f]) || (f in names && after[f] == Listed(before, f) + [c])
  }

  lemma GainsOnceStep(before: map<string, seq<string>>, mid: map<string, seq<string>>, after: map<string, seq<string>>,
                      c: string, names: set<string>, f0: string)
    requires GainsOnce(before, mid, c, names) && f0 !in names && AppendOrKeep(mid, after, f0, c)
    ensures GainsOnce(before, after, c, names + {f0})
  {
    if after != mid {
      assert Listed(mid, f0) == Listed(before, f0);
    }
  }

  /** Each list is the starting list plus distinct changesets from `done`. */
  ghost predicate GrownFrom(init: map<string, seq<string>>, tp: map<string, seq<string>>, done: seq<string>) {
    && init.Keys <= tp.Keys
    && forall f :: f in tp ==>
         var base := Listed(init, f);
         && |base| <= |tp[f]| && tp[f][..|base|] == base
         && NoDup(tp[f][|base|..])
         && forall x :: x in tp[f][|base|..] ==> x in done
  }

  lemma GrownFromStep(init: map<string, seq<string>>, tp: map<string, seq<string>>, after: map<string, seq<string>>,
                      done: seq<string>, c: string, names: set<string>)
    requires GrownFrom(init, tp, done) && c !in done && GainsOnce(tp, after, c, names)
    ensures GrownFrom(init, after, done + [c])
  {
    forall f | f in after
      ensures var base := Listed(init, f);
        && |base| <= |after[f]| && after[f][..|base|] == base
        && NoDup(after[f][|base|..])
        && forall x :: x in after[f][|base|..] ==> x in done + [c]
    {
      var base := Listed(init, f);
      if !(f in tp && after[f] == tp[f]) {
        var prev := Listed(tp, f);
        assert after[f] == prev + [c];
        assert |base| <= |prev| && prev[..|base|] == base by {
          if f !in tp {
            assert f !in init;
          }
        }
        assert after[f][|base|..] == prev[|base|..] + [c];
      }
    }
  }

  /** A starting list followed by distinct changesets none of which it holds
      has no repeats. */
  lemma NoDupGrown(base: seq<string>, xs: seq<string>, done: seq<string>)
    requires |base| <= |xs| && xs[..|base|] == base && NoDup(base) && NoDup(xs[|base|..])
    requires forall x :: x in xs[|base|..] ==> x in done
    requires forall x :: x in base ==> x !in done
    ensures NoDup(xs)
  {
    forall i, j | 0 <= i < j < |xs|
      ensures xs[i] != xs[j]
    {
      if j < |base| {
        assert xs[i] == base[i] && xs[j] == base[j];
      } else if i < |base| {
        assert xs[i] == base[i] && base[i] in base;
        assert xs[j] == xs[|base|..][j - |base|] && xs[j] in xs[|base|..];
      } else {
        assert xs[i] == xs[|base|..][i - |base|] && xs[j] == xs[|base|..][j - |base|];
      }
    }
  }

  lemma {:induction false} FrontierEntriesGain(s: FrontierState, c: string, diff: seq<FileDiff>, n: nat)
    requires n <= |diff| && NamesDistinct(diff)
    ensures GainsOnce(s.sorted.toProcess, FrontierEntries(s, c, diff[..n]).sorted.toProcess, c, NamesOf(diff, n))
  {
    if n > 0 {
      assert diff[..n][..n - 1] == diff[..n - 1];
      FrontierEntriesGain(s, c, diff, n - 1);
      var mid := FrontierEntries(s, c, diff[..n - 1]);
      assert NamesOf(diff, n) == NamesOf(diff, n - 1) + {Name(diff[n - 1])};
      GainsOnceStep(s.sorted.toProcess, mid.sorted.toProcess, FrontierEntry(mid, c, diff[n - 1]).sorted.toProcess,
                    c, NamesOf(diff, n - 1), Name(diff[n - 1]));
    }
  }

  lemma {:induction false} FrontierAllGrown(s: FrontierState, all: seq<CsetDiff>)
    requires NoDup(Csets(all))
    requires forall k :: 0 <= k < |all| ==> NamesDistinct(all[k].diff)
    ensures GrownFrom(s.sorted.toProcess, FrontierAll(s, all).sorted.toProcess, Csets(all))
  {
    if |all| > 0 {
      var k := |all| - 1;
      var init := all[..k];
      assert Csets(all) == Csets(init) + [all[k].cset];
      assert NoDup(Csets(init));
      FrontierAllGrown(s, init);
      var mid := FrontierAll(s, init);
      FrontierEntriesGain(mid, all[k].cset, all[k].diff, |all[k].diff|);
      assert all[k].diff[..|all[k].diff|] == all[k].diff;
      assert all[k].cset !in Csets(init);
      GrownFromStep(s.sorted.toProcess, mid.sorted.toProcess, FrontierAll(s, all).sorted.toProcess,
                    Csets(init), all[k].cset, NamesOf(all[k].diff, |all[k].diff|));
    }
  }

  /** When the fetched changesets are distinct and no diff has two entries
      for one file, the frontier classification lists each changeset at
      most once per file. */
  lemma FrontierListsNoDup(s: FrontierState, all: seq<CsetDiff>, f: string)
    requires NoDup(Csets(all))
    requires forall k :: 0 <= k < |all| ==> NamesDistinct(all[k].diff)
    requires NoDup(Listed(s.sorted.toProcess, f))
    requires forall x :: x in Listed(s.sorted.toProcess, f) ==> x !in Csets(all)
    ensures NoDup(Listed(FrontierAll(s, all).sorted.toProcess, f))
  {
    FrontierAllGrown(s, all);
    var tp := FrontierAll(s, all).sorted.toProcess;
    if f in tp {
      NoDupGrown(Listed(s.sorted.toProcess, f), tp[f], Csets(all));
    }
  }

  lemma {:induction false} TryEntriesGain(s: Classified, c: string, diff: seq<FileDiff>, files: set<string>, n: nat)
    requires n <= |diff| && NamesDistinct(diff)
    ensures GainsOnce(s.toProcess, TryEntries(s, c, diff[..n], files).toProcess, c, NamesOf(diff, n))
  {
    if n > 0 {
      assert diff[..n][..n - 1] == diff[..n - 1];
      TryEntriesGain(s, c, diff, files, n - 1);
      var mid := TryEntries(s, c, diff[..n - 1], files);
      assert NamesOf(diff, n) == NamesOf(diff, n - 1) + {Name(diff[n - 1])};
      GainsOnceStep(s.toProcess, mid.toProcess, TryEntry(mid, c, diff[n - 1], files).toProcess,
                    c, NamesOf(diff, n - 1), Name(diff[n - 1]));
    }
  }

  lemma {:induction false} TryAllGrown(s: Classified, all: seq<CsetDiff>, files: set<string>)
    requires NoDup(Csets(all))
    requires forall k :: 0 <= k < |all| ==> NamesDistinct(all[k].diff)
    ensures GrownFrom(s.toProcess, TryAll(s, all, files).toProcess, Csets(all))
  {
    if |all| > 0 {
      var k := |all| - 1;
      var init := all[..k];
      assert Csets(all) == Csets(init) + [all[k].cset];
      assert NoDup(Csets(init));
      TryAllGrown(s, init, files);
      var mid := TryAll(s, init, files);
      TryEntriesGain(mid, all[k].cset, all[k].diff, files, |all[k].diff|);
      assert all[k].diff[..|all[k].diff|] == all[k].diff;
      assert all[k].cset !in Csets(init);
      GrownFromStep(s.toProcess, mid.toProcess, TryAll(s, all, files).toProcess,
                    Csets(init), all[k].cset, NamesOf(all[k].diff, |all[k].diff|));
    }
  }

  /** On the try path, with distinct draft changesets each naming a file
      at most once, every file's list holds distinct changesets. */
  lemma TryListsNoDup(all: seq<CsetDiff>, files: set<string>, f: string)
    requires NoDup(Csets(all))
    requires forall k :: 0 <= k < |all| ==> NamesDistinct(all[k].diff)
    ensures NoDup(Listed(TryAll(Classified({}, {}, map[]), all, files).toProcess, f))
  {
    var s := Classified({}, {}, map[]);
    TryAllGrown(s, all, files);
    var tp := TryAll(s, all, files).toProcess;
    if f in tp {
      NoDupGrown([], tp[f], Csets(all));
    }
  }

  /** get_diffs: one element per requested changeset, in the order
      requested and with no repeats removed, each carrying the diff
      _get_hg_diff returns for it (given here as `hgDiff`). */
  function GetDiffs(csets: seq<string>, hgDiff: map<string, seq<FileDiff>>): (all: seq<CsetDiff>)
    requires forall i :: 0 <= i < |csets| ==> csets[i] in hgDiff
    ensures Csets(all) == csets
    ensures forall k :: 0 <= k < |all| ==> all[k].diff == hgDiff[csets[k]]
  {
    seq(|csets|, k requires 0 <= k < |csets| => CsetDiff(csets[k], hgDiff[csets[k]]))
  }

  /** Fetching changesets gathered without repeats (Frontier.GatherDiffsOnce)
      lists each of them at most once for any file whose list starts empty. */
  lemma FetchedOnceListsNoDup(s: FrontierState, csets: seq<string>, hgDiff: map<string, seq<FileDiff>>, f: string)
    requires NoDup(csets) && forall i :: 0 <= i < |csets| ==> csets[i] in hgDiff
    requires forall c :: c in hgDiff ==> NamesDistinct(hgDiff[c])
    requires f !in s.sorted.toProcess
    ensures NoDup(Listed(FrontierAll(s, GetDiffs(csets, hgDiff)).sorted.toProcess, f))
  {
    var all := GetDiffs(csets, hgDiff);
    FrontierListsNoDup(s, all, f);
  }

  /** A changeset fetched twice, each time with an entry for file g whose
      frontier is another changeset, is listed twice for g. */
  lemma RepeatedCsetListedTwiceAsWritten(x: string, g: string, fr: string)
    requires |g| > 0 && g[0] != '/' && g != "dev/null" && fr != "" && fr != x
    ensures var e := FileDiff(g, g, []);
      var s := FrontierState(Classified({}, {}, map[]), map[g := fr]);
      FrontierAll(s, [CsetDiff(x, [e]), CsetDiff(x, [e])]).sorted.toProcess == map[g := [x, x]]
  {
    var e := FileDiff(g, g, []);
    var s := FrontierState(Classified({}, {}, map[]), map[g := fr]);
    var all := [CsetDiff(x, [e]), CsetDiff(x, [e])];
    assert Name(e) == g && OldName(e) == g;
    assert [e][..0] == [] && all[..1][..0] == [] && all[..1] == [CsetDiff(x, [e])];
    var once := FrontierState(Classified({}, {}, map[g := [x]]), map[g := fr]);
    assert Listed(map[], g) + [x] == [x];
    assert FrontierEntry(s, x, e) == once;
    assert FrontierEntries(s, x, [e]) == once;
    assert FrontierAll(s, all[..1]) == once;
    assert Listed(once.sorted.toProcess, g) + [x] == [x, x];
    assert FrontierEntry(once, x, e).sorted.toProcess == map[g := [x, x]];
    assert FrontierEntries(once, x, [e]) == FrontierEntry(once, x, e);
  }

  // ---------------------------------------------------------------------
  // _get_tuids_from_files_try_branch: from the try revision down to the
  // first public ancestor

  /** What json-rev says of a revision: its `phase`, when there is one, and
      its parents' hashes. A revision the server does not know is absent
      from the map the walk is given. */
  datatype RevInfo = RevInfo(phase: Option<string>, parents: seq<string>)

  /** How the walk ends: at a public revision; giving up (unknown revision,
      no phase, or a phase other than public and draft), where the source
      returns an empty annotation for every file; on a draft revision
      without parents, where `parents[0]` raises IndexError; or back at a
      draft already walked, from where the source would go round forever. */
  datatype Outcome = Public | GiveUp | Crash | Loops

  /** Where the walk ended (`at`) and the draft revisions walked, newest first. */
  datatype Walk = Walk(outcome: Outcome, drafts: seq<string>, at: string)

  predicate IsDraft(revs: map<string, RevInfo>, r: string) {
    r in revs && revs[r].phase == Some("draft") && |revs[r].parents| > 0
  }

  /** `parents[0][:12]` */
  function Parent(revs: map<string, RevInfo>, r: string): string
    requires IsDraft(revs, r)
  {
    Short(revs[r].parents[0])
  }

  /** `drafts` starts at `start`, each is a draft whose first parent is the
      next one, and the last one's first parent is `at`. */
  ghost predicate DraftChain(revs: map<string, RevInfo>, start: string, drafts: seq<string>, at: string) {
    && (forall i :: 0 <= i < |drafts| ==> IsDraft(revs, drafts[i]))
    && (if |drafts| == 0 then at == start
        else drafts[0] == start && Parent(revs, drafts[|drafts| - 1]) == at)
    && forall i :: 0 <= i < |drafts| - 1 ==> Parent(revs, drafts[i]) == drafts[i + 1]
  }

  lemma DraftChainExtend(revs: map<string, RevInfo>, start: string, drafts: seq<string>, at: string)
    requires DraftChain(revs, start, drafts, at) && IsDraft(revs, at)
    ensures DraftChain(revs, start, drafts + [at], Parent(revs, at))
  {
    var d := drafts + [at];
    forall i | 0 <= i < |d| - 1
      ensures Parent(revs, d[i]) == d[i + 1]
    {
      assert d[i] == drafts[i];
    }
  }

  lemma NoDupSnoc(xs: seq<string>, x: string)
    requires NoDup(xs) && x !in xs
    ensures NoDup(xs + [x])
  {
  }

  /** The `while not found_mc_patch` loop. */
  method TryWalk(revs: map<string, RevInfo>, revision: string) returns (w: Walk)
    ensures DraftChain(revs, revision, w.drafts, w.at) && NoDup(w.drafts)
    ensures w.outcome == Loops <==> w.at in w.drafts
    ensures w.outcome == Public <==> w.at !in w.drafts && w.at in revs && revs[w.at].phase == Some("public")
    ensures w.outcome == Crash <==>
              w.at !in w.drafts && w.at in revs && revs[w.at].phase == Some("draft") && |revs[w.at].parents| == 0
    ensures w.outcome == GiveUp <==>
              w.at !in w.drafts && (w.at !in revs || revs[w.at].phase !in {Some("public"), Some("draft")})
  {
    var cur := revision;
    var drafts: seq<string> := [];
    ghost var seen: set<string> := {};
    while true
      invariant DraftChain(revs, revision, drafts, cur) && NoDup(drafts)
      invariant seen <= revs.Keys && forall x :: x in seen <==> x in drafts
      decreases |revs.Keys - seen|
    {
      if cur in drafts {
        return Walk(Loops, drafts, cur);
      }
      if cur !in revs || revs[cur].phase.None? {
        return Walk(GiveUp, drafts, cur);
      }
      var info := revs[cur];
      if info.phase.value == "public" {
        return Walk(Public, drafts, cur);
      } else if info.phase.value != "draft" {
        return Walk(GiveUp, drafts, cur);
      }
      if |info.parents| == 0 {
        return Walk(Crash, drafts, cur);
      }
      DraftChainExtend(revs, revision, drafts, cur);
      NoDupSnoc(drafts, cur);
      assert (revs.Keys - seen) - {cur} == revs.Keys - (seen + {cur});
      drafts := drafts + [cur];
      seen := seen + {cur};
      cur := Short(info.parents[0]);
    }
  }

  /** The walk follows first parents only: two chains from one revision
      agree as far as the shorter goes, and the shorter one ends where the
      longer one continues. So the outcome of TryWalk is determined by the
      revisions it is given. */
  lemma {:induction false} DraftChainsAgree(revs: map<string, RevInfo>, start: string,
                                            d1: seq<string>, a1: string, d2: seq<string>, a2: string)
    requires DraftChain(revs, start, d1, a1) && DraftChain(revs, start, d2, a2) && |d1| <= |d2|
    ensures d2[..|d1|] == d1
    ensures a1 == if |d1| < |d2| then d2[|d1|] else a2
  {
    if |d1| > 0 {
      var k := |d1| - 1;
      assert DraftChain(revs, start, d1[..k], d1[k]) by {
        forall i | 0 <= i < k - 1
          ensures Parent(revs, d1[..k][i]) == d1[..k][i + 1]
        {
        }
        if k > 0 {
          assert Parent(revs, d1[k - 1]) == d1[k];
        }
      }
      DraftChainsAgree(revs, start, d1[..k], d1[k], d2, a2);
      assert d1[k] == d2[k];
      assert d2[..|d1|] == d2[..k] + [d2[k]] && d1 == d1[..k] + [d1[k]];
      if k + 1 < |d2| {
        assert Parent(revs, d2[k]) == d2[k + 1];
      }
    }
  }
}
