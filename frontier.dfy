/** The frontier search of TUIDService._update_file_frontiers: starting at
    the requested revision, walk the changelog one json-log page at a time,
    marking each file's last known revision (its frontier) as found when it
    shows up, and remembering for every frontier the changesets seen before
    it. The search ends when every frontier is found or after
    `max_csets_proc` pages. The pages are an input: a map from the revision
    a page is requested at to the nodes it lists, newest first. */
module Frontier {

  import opened TuidRecords
  import opened PyText

  /** An entry of `frontier_list`: a file and its frontier revision. */
  datatype FileRev = FileRev(file: string, rev: string)

  /** Why the search raised instead of returning. */
  datatype SearchError =
    | NoFrontiers            // `frontier_list[0]` of an empty list
    | NotSearched            // `still_looking` read before the loop ever ran
    | MissingPage(rev: string)  // the json-log fetch for `rev` failed
    | EmptyPage(rev: string)    // `changesets[len - 1]` of an empty page

  /** The state the search ends in: `latest_csets` (true while a frontier
      is still looked for), `diffs_to_frontier`, `diffs_cache`,
      `files_to_process`, `still_looking` and `csets_proced`. */
  datatype Search =
    | Searched(latest: map<string, bool>, toFrontier: map<string, seq<string>>, cache: seq<string>,
               toProcess: map<string, seq<string>>, stillLooking: bool, pagesRead: nat)
    | Failed(error: SearchError)

  function Revisions(frontiers: seq<FileRev>): set<string> {
    set i | 0 <= i < |frontiers| :: frontiers[i].rev
  }

  function Files(frontiers: seq<FileRev>): set<string> {
    set i | 0 <= i < |frontiers| :: frontiers[i].file
  }

  /** `any(latest_csets.values())` */
  predicate AnyUnfound(latest: map<string, bool>) {
    exists c :: c in latest && latest[c]
  }

  /** The 12-character revisions a page offers for scanning: every node but
      the last, which is where the next page starts. */
  function Scanned(page: seq<string>): (xs: seq<string>)
    ensures |xs| == if |page| == 0 then 0 else |page| - 1
    ensures forall i :: 0 <= i < |xs| ==> xs[i] == Short(page[i])
  {
    if |page| == 0 then [] else seq(|page| - 1, i requires 0 <= i < |page| - 1 => Short(page[i]))
  }

  /** Where the next page starts: the last node of this one. */
  function LastNode(page: seq<string>): string
    requires |page| > 0
  {
    Short(page[|page| - 1])
  }

  /** The changesets of `xs` seen before the first `c`, or all of them. */
  function Before(c: string, xs: seq<string>): (r: seq<string>)
    ensures c !in r
    ensures c !in xs ==> r == xs
  {
    if |xs| == 0 then []
    else if xs[0] == c then []
    else [xs[0]] + Before(c, xs[1..])
  }

  /** Seeing one more changeset extends the list of a frontier not yet seen. */
  lemma {:induction false} BeforeSnoc(c: string, xs: seq<string>, x: string)
    ensures Before(c, xs + [x]) == if c in xs || c == x then Before(c, xs) else xs + [x]
  {
    if |xs| > 0 {
      BeforeSnoc(c, xs[1..], x);
      assert (xs + [x])[1..] == xs[1..] + [x];
      assert xs == [xs[0]] + xs[1..];
    }
  }

  lemma {:induction false} BeforeAppend(c: string, xs: seq<string>, ys: seq<string>)
    ensures Before(c, xs + ys) == if c in xs then Before(c, xs) else xs + Before(c, ys)
  {
    if |ys| == 0 {
      assert xs + ys == xs;
    } else {
      var init, y := ys[..|ys| - 1], ys[|ys| - 1];
      BeforeAppend(c, xs, init);
      assert xs + ys == (xs + init) + [y];
      assert ys == init + [y];
      BeforeSnoc(c, xs + init, y);
      BeforeSnoc(c, init, y);
    }
  }

  /** `for cset in diffs_to_frontier: if latest_csets[cset]:
      diffs_to_frontier[cset].append(c)`, the dictionary visited in an
      unspecified order. */
  method ExtendUnfound(lists: map<string, seq<string>>, latest: map<string, bool>, c: string)
    returns (r: map<string, seq<string>>)
    requires lists.Keys <= latest.Keys
    ensures r.Keys == lists.Keys
    ensures forall f :: f in lists ==> r[f] == if latest[f] then lists[f] + [c] else lists[f]
  {
    r := lists;
    var todo := lists.Keys;
    while todo != {}
      invariant todo <= lists.Keys && r.Keys == lists.Keys
      invariant forall f :: f in lists ==> r[f] == if f !in todo && latest[f] then lists[f] + [c] else lists[f]
      decreases |todo|
    {
      var f :| f in todo;
      if latest[f] {
        r := r[f := r[f] + [c]];
      }
      todo := todo - {f};
    }
  }

  /** A frontier is found once it is among the first `n` scanned changesets. */
  ghost predicate MarkedUpTo(latest: map<string, bool>, found: map<string, bool>, xs: seq<string>, n: nat)
    requires n <= |xs|
  {
    && found.Keys == latest.Keys
    && forall c :: c in latest ==> found[c] == (latest[c] && c !in xs[..n])
  }

  /** Each frontier still looked for has gained the first `n` scanned
      changesets up to itself; the others have gained nothing. */
  ghost predicate ExtendedUpTo(latest: map<string, bool>, toFrontier: map<string, seq<string>>,
                               lists: map<string, seq<string>>, xs: seq<string>, n: nat)
    requires toFrontier.Keys <= latest.Keys && n <= |xs|
  {
    && lists.Keys == toFrontier.Keys
    && forall c :: c in toFrontier ==>
         lists[c] == toFrontier[c] + if latest[c] then Before(c, xs[..n]) else []
  }

  /** What scanning one page does: the changesets scanned are the page's
      nodes but its last, up to the one that completed the search if one
      did (`!stillLooking`); that one is marked but neither cached nor
      appended. */
  ghost predicate PageScanned(page: seq<string>, latest: map<string, bool>, toFrontier: map<string, seq<string>>,
                              cache: seq<string>, found: map<string, bool>, lists: map<string, seq<string>>,
                              cached: seq<string>, stillLooking: bool, count: nat)
    requires toFrontier.Keys <= latest.Keys
  {
    var xs := Scanned(page);
    && count <= |xs|
    && (stillLooking ==> count == |xs|)
    && (!stillLooking ==> count < |xs| && xs[count] in latest)
    && (!stillLooking && AnyUnfound(latest) ==> latest[xs[count]] && xs[count] !in xs[..count])
    && cached == cache + xs[..count]
    && MarkedUpTo(latest, found, xs, if stillLooking then count else count + 1)
    && ExtendedUpTo(latest, toFrontier, lists, xs, count)
  }

  lemma MarkStep(latest: map<string, bool>, found: map<string, bool>, xs: seq<string>, n: nat)
    requires n < |xs| && MarkedUpTo(latest, found, xs, n)
    ensures MarkedUpTo(latest, if xs[n] in found then found[xs[n] := false] else found, xs, n + 1)
  {
    assert xs[..n + 1] == xs[..n] + [xs[n]];
  }

  /** A scan that stops at `xs[n]` stops at a frontier still unfound and
      not met earlier on the page. */
  lemma StopsAtFresh(latest: map<string, bool>, prev: map<string, bool>, xs: seq<string>, n: nat)
    requires n < |xs| && MarkedUpTo(latest, prev, xs, n) && xs[n] in prev
    requires AnyUnfound(prev) && !AnyUnfound(prev[xs[n] := false])
    ensures latest[xs[n]] && xs[n] !in xs[..n]
  {
    var c := xs[n];
    var d :| d in prev && prev[d];
    assert !(d in prev[c := false] && prev[c := false][d]);
    assert d == c;
  }

  lemma ExtendStep(latest: map<string, bool>, found: map<string, bool>, toFrontier: map<string, seq<string>>,
                   lists: map<string, seq<string>>, next: map<string, seq<string>>, xs: seq<string>, n: nat)
    requires toFrontier.Keys <= latest.Keys && n < |xs|
    requires MarkedUpTo(latest, found, xs, n + 1) && ExtendedUpTo(latest, toFrontier, lists, xs, n)
    requires next.Keys == lists.Keys
    requires forall f :: f in lists ==> next[f] == if found[f] then lists[f] + [xs[n]] else lists[f]
    ensures ExtendedUpTo(latest, toFrontier, next, xs, n + 1)
  {
    assert xs[..n + 1] == xs[..n] + [xs[n]];
    forall f | f in toFrontier
      ensures next[f] == toFrontier[f] + if latest[f] then Before(f, xs[..n + 1]) else []
    {
      BeforeSnoc(f, xs[..n], xs[n]);
    }
  }

  /** One json-log page (the `for count, clog_cset` loop of
      _update_file_frontiers). Every node but the last is scanned in order:
      a frontier met is marked found, and unless that was the last one
      missing (which ends the page at once) the node is cached and appended
      to the list of every frontier still looked for. `count` is where the
      scan stopped. */
  method ScanPage(page: seq<string>, latest: map<string, bool>, toFrontier: map<string, seq<string>>,
                  cache: seq<string>)
    returns (found: map<string, bool>, lists: map<string, seq<string>>, cached: seq<string>,
             stillLooking: bool, count: nat)
    requires toFrontier.Keys <= latest.Keys
    ensures PageScanned(page, latest, toFrontier, cache, found, lists, cached, stillLooking, count)
    ensures !stillLooking ==> !AnyUnfound(found)
    ensures stillLooking && AnyUnfound(latest) ==> AnyUnfound(found)
  {
    ghost var xs := Scanned(page);
    found, lists, cached := latest, toFrontier, cache;
    stillLooking := true;
    count := 0;
    while count < |page| - 1
      invariant count <= |xs| && stillLooking
      invariant cached == cache + xs[..count]
      invariant MarkedUpTo(latest, found, xs, count)
      invariant ExtendedUpTo(latest, toFrontier, lists, xs, count)
      invariant AnyUnfound(latest) ==> AnyUnfound(found)
    {
      var c := Short(page[count]);
      assert c == xs[count];
      MarkStep(latest, found, xs, count);
      if stillLooking {
        if c in found {
          ghost var prev := found;
          found := found[c := false];
          stillLooking := AnyUnfound(found);
          if !stillLooking {
            if AnyUnfound(latest) {
              StopsAtFresh(latest, prev, xs, count);
            }
            return;
          }
        }
        assert xs[..count + 1] == xs[..count] + [c];
        cached := cached + [c];
        var next := ExtendUnfound(lists, found, c);
        ExtendStep(latest, found, toFrontier, lists, next, xs, count);
        lists := next;
      }
      if c in found {
        assert found[c := false] == found;
        found := found[c := false];
        stillLooking := AnyUnfound(found);
      }
      count := count + 1;
    }
  }

  /** Every TUID list to process is the requested revision alone. */
  function AllAtRevision(frontiers: seq<FileRev>, revision: string): (m: map<string, seq<string>>)
    ensures m.Keys == Files(frontiers)
    ensures forall f :: f in m ==> m[f] == [revision]
  {
    map f | f in Files(frontiers) :: [revision]
  }

  /** The pages read form a chain: the first at the requested revision and
      each later one at the last node of the page before it. */
  ghost predicate Trail(pages: map<string, seq<string>>, revision: string, trail: seq<string>) {
    && (|trail| > 0 ==> trail[0] == revision)
    && (forall i :: 0 <= i < |trail| ==> trail[i] in pages)
    && (forall i :: 0 <= i < |trail| - 1 ==>
          |pages[trail[i]]| > 0 && trail[i + 1] == LastNode(pages[trail[i]]))
  }

  /** Where the page after the trail starts. */
  ghost predicate CursorAfter(pages: map<string, seq<string>>, revision: string, trail: seq<string>, cursor: string) {
    if |trail| == 0 then cursor == revision
    else trail[|trail| - 1] in pages && |pages[trail[|trail| - 1]]| > 0
         && cursor == LastNode(pages[trail[|trail| - 1]])
  }

  lemma TrailExtend(pages: map<string, seq<string>>, revision: string, trail: seq<string>, cursor: string)
    requires Trail(pages, revision, trail) && CursorAfter(pages, revision, trail, cursor) && cursor in pages
    ensures Trail(pages, revision, trail + [cursor])
  {
  }

  /** Every frontier's list holds the cached changesets that came before it. */
  ghost predicate ListsBefore(toFrontier: map<string, seq<string>>, cache: seq<string>) {
    forall c :: c in toFrontier ==> toFrontier[c] == Before(c, cache)
  }

  /** A frontier is still looked for exactly when it has not been cached. */
  ghost predicate MarksCached(latest: map<string, bool>, cache: seq<string>) {
    forall c :: c in latest ==> (latest[c] <==> c !in cache)
  }

  /** The search state between pages: the lists and the marks agree with
      the cache, and a search that stopped early has found everything. */
  ghost predicate InStep(revs: set<string>, latest: map<string, bool>, toFrontier: map<string, seq<string>>,
                         cache: seq<string>, stillLooking: bool) {
    && latest.Keys == revs && toFrontier.Keys == revs
    && ListsBefore(toFrontier, cache)
    && (stillLooking ==> MarksCached(latest, cache))
    && (!stillLooking ==> !AnyUnfound(latest))
  }

  /** Scanning a page keeps the lists and the marks in step with the cache. */
  lemma PageStep(page: seq<string>, latest: map<string, bool>, toFrontier: map<string, seq<string>>,
                 cache: seq<string>, found: map<string, bool>, lists: map<string, seq<string>>,
                 cached: seq<string>, stillLooking: bool, count: nat)
    requires InStep(latest.Keys, latest, toFrontier, cache, true)
    requires PageScanned(page, latest, toFrontier, cache, found, lists, cached, stillLooking, count)
    requires !stillLooking ==> !AnyUnfound(found)
    ensures InStep(latest.Keys, found, lists, cached, stillLooking)
  {
    var xs := Scanned(page)[..count];
    forall c | c in lists
      ensures lists[c] == Before(c, cached)
    {
      BeforeAppend(c, cache, xs);
    }
  }

  /** The changesets the pages of the trail offer, page after page. */
  ghost function Walked(pages: map<string, seq<string>>, trail: seq<string>): seq<string>
    requires forall t :: t in trail ==> t in pages
  {
    if |trail| == 0 then []
    else Walked(pages, trail[..|trail| - 1]) + Scanned(pages[trail[|trail| - 1]])
  }

  /** Every frontier is among `xs`. */
  ghost predicate AllSeen(revs: set<string>, xs: seq<string>) {
    forall c :: c in revs ==> c in xs
  }

  /** The cache measured against the pages read: a page was followed by
      another only while some frontier was still unseen; a search still
      looking has cached every changeset of its pages; one that stopped has
      cached everything up to, and not including, the changeset that
      completed the frontiers, which lies on its last page. */
  ghost predicate Walk(pages: map<string, seq<string>>, revs: set<string>, trail: seq<string>,
                       cache: seq<string>, stillLooking: bool) {
    && (forall t :: t in trail ==> t in pages)
    && (forall i :: 0 < i < |trail| ==> !AllSeen(revs, Walked(pages, trail[..i])))
    && !AllSeen(revs, cache)
    && (stillLooking ==> cache == Walked(pages, trail))
    && (!stillLooking ==>
          && |trail| > 0
          && Walked(pages, trail[..|trail| - 1]) <= cache
          && |cache| < |Walked(pages, trail)| && cache <= Walked(pages, trail)
          && AllSeen(revs, Walked(pages, trail)[..|cache| + 1]))
  }

  /** Reading one more page adds its changesets to those walked. */
  lemma WalkedSnoc(pages: map<string, seq<string>>, trail: seq<string>, t: string)
    requires (forall x :: x in trail ==> x in pages) && t in pages
    ensures Walked(pages, trail + [t]) == Walked(pages, trail) + Scanned(pages[t])
  {
    assert (trail + [t])[..|trail|] == trail;
  }

  lemma WalkedPrefixes(pages: map<string, seq<string>>, revs: set<string>, trail: seq<string>, t: string)
    requires (forall x :: x in trail ==> x in pages) && t in pages
    requires forall i :: 0 < i < |trail| ==> !AllSeen(revs, Walked(pages, trail[..i]))
    requires |trail| > 0 ==> !AllSeen(revs, Walked(pages, trail))
    ensures forall i :: 0 < i < |trail + [t]| ==> !AllSeen(revs, Walked(pages, (trail + [t])[..i]))
  {
    var next := trail + [t];
    forall i | 0 < i < |next|
      ensures !AllSeen(revs, Walked(pages, next[..i]))
    {
      assert next[..i] == trail[..i];
      if i == |trail| {
        assert trail[..i] == trail;
      }
    }
  }

  /** A page scanned to its end, with a frontier still unseen. */
  lemma ScannedOn(latest: map<string, bool>, found: map<string, bool>, cache: seq<string>,
                  xs: seq<string>, cached: seq<string>)
    requires MarksCached(latest, cache) && MarkedUpTo(latest, found, xs, |xs|)
    requires cached == cache + xs && AnyUnfound(found)
    ensures !AllSeen(latest.Keys, cached)
  {
    var c :| c in found && found[c];
    assert xs[..|xs|] == xs;
    assert c !in cached;
  }

  /** A page whose changeset `xs[count]` found the last frontier. */
  lemma ScannedUpTo(latest: map<string, bool>, found: map<string, bool>, cache: seq<string>,
                    xs: seq<string>, count: nat, cached: seq<string>)
    requires count < |xs| && MarksCached(latest, cache)
    requires MarkedUpTo(latest, found, xs, count + 1) && !AnyUnfound(found)
    requires xs[count] in latest && latest[xs[count]] && xs[count] !in xs[..count]
    requires cached == cache + xs[..count]
    ensures !AllSeen(latest.Keys, cached)
    ensures AllSeen(latest.Keys, (cache + xs)[..|cached| + 1])
    ensures cached <= cache + xs && |cached| < |cache + xs|
  {
    assert xs[count] !in cached;
    assert (cache + xs)[..|cached| + 1] == cache + xs[..count + 1];
    forall c | c in latest
      ensures c in cache + xs[..count + 1]
    {
      if latest[c] {
        assert !found[c];
      }
    }
    assert cached + xs[count..] == cache + xs;
  }

  /** Scanning the page at `t` extends the walk by that page. */
  lemma WalkStep(pages: map<string, seq<string>>, revs: set<string>, trail: seq<string>, t: string,
                 latest: map<string, bool>, toFrontier: map<string, seq<string>>, cache: seq<string>,
                 found: map<string, bool>, lists: map<string, seq<string>>, cached: seq<string>,
                 stillLooking: bool, count: nat)
    requires Walk(pages, revs, trail, cache, true) && t in pages
    requires latest.Keys == revs && MarksCached(latest, cache) && toFrontier.Keys <= latest.Keys
    requires PageScanned(pages[t], latest, toFrontier, cache, found, lists, cached, stillLooking, count)
    requires !stillLooking ==> !AnyUnfound(found)
    requires stillLooking && AnyUnfound(latest) ==> AnyUnfound(found)
    ensures Walk(pages, revs, trail + [t], cached, stillLooking)
  {
    var xs := Scanned(pages[t]);
    var next := trail + [t];
    WalkedSnoc(pages, trail, t);
    WalkedPrefixes(pages, revs, trail, t);
    assert next[..|next| - 1] == trail;
    var u :| u in revs && u !in cache;
    assert latest[u];
    if stillLooking {
      ScannedOn(latest, found, cache, xs, cached);
    } else {
      ScannedUpTo(latest, found, cache, xs, count, cached);
    }
  }

  /** A search that fails has read a chain of pages within the page budget,
      none of which completed the frontiers, and fails on the page at its
      cursor: that page is missing from the log, or it was read and has no
      node to move the cursor to. */
  ghost predicate FailedAt(pages: map<string, seq<string>>, revision: string, maxProc: int,
                           revs: set<string>, trail: seq<string>, e: SearchError) {
    && (e.MissingPage? || e.EmptyPage?)
    && Trail(pages, revision, trail)
    && (forall t :: t in trail ==> t in pages)
    && (forall i :: 0 < i <= |trail| ==> !AllSeen(revs, Walked(pages, trail[..i])))
    && |trail| < (if maxProc > 1 then maxProc else 1)
    && (e.MissingPage? ==> e.rev !in pages && CursorAfter(pages, revision, trail, e.rev))
    && (e.EmptyPage? ==> |trail| > 0 && trail[|trail| - 1] == e.rev && pages[e.rev] == [])
  }

  /** While still looking, no page read so far completed the frontiers. */
  lemma WalkNoneComplete(pages: map<string, seq<string>>, revs: set<string>, trail: seq<string>, cache: seq<string>)
    requires Walk(pages, revs, trail, cache, true)
    ensures forall i :: 0 < i <= |trail| ==> !AllSeen(revs, Walked(pages, trail[..i]))
  {
    assert trail[..|trail|] == trail;
  }

  /** What the page loop of the search promises once it has stopped. */
  ghost predicate Stopped(frontiers: seq<FileRev>, revision: string, maxProc: int,
                          pages: map<string, seq<string>>, revs: set<string>, r: Search, trail: seq<string>)
    requires r.Searched?
  {
    && InStep(revs, r.latest, r.toFrontier, r.cache, r.stillLooking)
    && 1 <= r.pagesRead && (r.pagesRead <= maxProc || r.pagesRead == 1)
    && (r.stillLooking ==> r.pagesRead >= maxProc && r.toProcess == AllAtRevision(frontiers, revision))
    && (!r.stillLooking ==> r.toProcess == map[])
    && |trail| == r.pagesRead && Trail(pages, revision, trail)
    && Walk(pages, revs, trail, r.cache, r.stillLooking)
  }

  /** The `while not found_last_frontier` loop: fetch the page at the
      cursor, scan it, and stop when every frontier is found or after
      `max_csets_proc` pages; otherwise move the cursor to the page's last
      node. */
  method WalkPages(frontiers: seq<FileRev>, revision: string, maxProc: int,
                   pages: map<string, seq<string>>, revs: set<string>,
                   latest0: map<string, bool>, toFrontier0: map<string, seq<string>>)
    returns (r: Search, ghost trail: seq<string>)
    requires revs != {} && InStep(revs, latest0, toFrontier0, [], true)
    ensures r.Failed? ==> r.error.MissingPage? || r.error.EmptyPage?
    ensures r.Failed? && r.error.MissingPage? ==> r.error.rev !in pages
    ensures r.Failed? && r.error.EmptyPage? ==> r.error.rev in pages && pages[r.error.rev] == []
    ensures r.Failed? ==> FailedAt(pages, revision, maxProc, revs, trail, r.error)
    ensures r.Searched? ==> Stopped(frontiers, revision, maxProc, pages, revs, r, trail)
  {
    trail := [];
    var latest, toFrontier := latest0, toFrontier0;
    var finalRev := revision;
    var proced := 0;
    var cache: seq<string> := [];
    var toProcess := map[];
    var stillLooking := true;
    var done := false;
    ghost var bound := if maxProc > 1 then maxProc else 1;
    while !done
      invariant InStep(revs, latest, toFrontier, cache, stillLooking)
      invariant !stillLooking ==> done
      invariant 0 <= proced <= bound && (!done ==> proced < bound) && (done ==> proced >= 1)
      invariant done && stillLooking ==> proced >= maxProc && toProcess == AllAtRevision(frontiers, revision)
      invariant !(done && stillLooking) ==> toProcess == map[]
      invariant |trail| == proced && Trail(pages, revision, trail)
      invariant Walk(pages, revs, trail, cache, stillLooking)
      invariant !done ==> CursorAfter(pages, revision, trail, finalRev)
      decreases bound - proced
    {
      if finalRev !in pages {
        WalkNoneComplete(pages, revs, trail, cache);
        return Failed(MissingPage(finalRev)), trail;
      }
      var page := pages[finalRev];
      TrailExtend(pages, revision, trail, finalRev);
      ghost var before := (latest, toFrontier, cache, trail);
      trail := trail + [finalRev];
      var count;
      latest, toFrontier, cache, stillLooking, count := ScanPage(page, latest, toFrontier, cache);
      PageStep(page, before.0, before.1, before.2, latest, toFrontier, cache, stillLooking, count);
      WalkStep(pages, revs, before.3, finalRev, before.0, before.1, before.2,
               latest, toFrontier, cache, stillLooking, count);
      proced := proced + 1;
      if !stillLooking {
        done := true;
      } else if proced >= maxProc {
        done := true;
        toProcess := AllAtRevision(frontiers, revision);
      }
      if !done {
        if |page| == 0 {
          WalkNoneComplete(pages, revs, trail, cache);
          return Failed(EmptyPage(finalRev)), trail;
        }
        finalRev := LastNode(page);
      }
    }
    r := Searched(latest, toFrontier, cache, toProcess, stillLooking, proced);
  }

  /** The search of _update_file_frontiers up to the end of its page loop:
      the frontiers to look for are the revisions of `frontier_list`, all
      unfound at first. */
  method SearchFrontiers(frontiers: seq<FileRev>, revision: string, maxProc: int,
                         pages: map<string, seq<string>>)
    returns (r: Search, ghost trail: seq<string>)
    ensures |frontiers| == 0 <==> r == Failed(NoFrontiers)
    ensures |frontiers| > 0 && |Revisions(frontiers)| <= 1 && frontiers[0].rev == revision
            <==> r == Failed(NotSearched)
    ensures r.Failed? && r.error.MissingPage? ==> r.error.rev !in pages
    ensures r.Failed? && r.error.EmptyPage? ==> r.error.rev in pages && pages[r.error.rev] == []
    ensures r.Failed? && (r.error.MissingPage? || r.error.EmptyPage?) ==>
              FailedAt(pages, revision, maxProc, Revisions(frontiers), trail, r.error)
    ensures r.Searched? ==> Stopped(frontiers, revision, maxProc, pages, Revisions(frontiers), r, trail)
  {
    trail := [];
    if |frontiers| == 0 {
      return Failed(NoFrontiers), trail;
    }
    var revs := Revisions(frontiers);
    var latest := map c | c in revs :: true;
    assert latest.Keys == revs;
    if |latest| <= 1 && frontiers[0].rev == revision {
      return Failed(NotSearched), trail;
    }
    var toFrontier := map c | c in latest :: [];
    assert InStep(revs, latest, toFrontier, [], true);
    assert frontiers[0].rev in revs;
    r, trail := WalkPages(frontiers, revision, maxProc, pages, revs, latest, toFrontier);
  }

  // ---------------------------------------------------------------------
  // diffs_cache rebuilt from the frontiers found

  /** The lists of the found frontiers, concatenated in `order`, the
      iteration order of `diffs_to_frontier`. */
  function Gathered(order: seq<string>, latest: map<string, bool>, lists: map<string, seq<string>>): seq<string>
    requires forall i :: 0 <= i < |order| ==> order[i] in latest && order[i] in lists
  {
    if |order| == 0 then []
    else
      var c := order[|order| - 1];
      Gathered(order[..|order| - 1], latest, lists) + if latest[c] then [] else lists[c]
  }

  /** `order` is an iteration of `diffs_to_frontier`, whose keys are those
      of `latest_csets`: every frontier, each once. */
  ghost predicate IteratesKeys(order: seq<string>, latest: map<string, bool>, lists: map<string, seq<string>>) {
    && NoDup(order)
    && (forall c :: c in latest <==> c in order)
    && lists.Keys == latest.Keys
  }

  lemma {:induction false} GatheredAt(order: seq<string>, latest: map<string, bool>,
                                      lists: map<string, seq<string>>, x: string)
    requires forall i :: 0 <= i < |order| ==> order[i] in latest && order[i] in lists
    ensures x in Gathered(order, latest, lists) <==>
            exists i :: 0 <= i < |order| && !latest[order[i]] && x in lists[order[i]]
  {
    if |order| > 0 {
      var init := order[..|order| - 1];
      GatheredAt(init, latest, lists, x);
      assert forall i :: 0 <= i < |init| ==> init[i] == order[i];
    }
  }

  /** A changeset is gathered exactly when it is on the list of a found frontier. */
  lemma GatheredMembers(order: seq<string>, latest: map<string, bool>,
                        lists: map<string, seq<string>>, x: string)
    requires IteratesKeys(order, latest, lists)
    ensures x in Gathered(order, latest, lists) <==>
            exists c :: c in latest && !latest[c] && x in lists[c]
  {
    GatheredAt(order, latest, lists, x);
    if exists c :: c in latest && !latest[c] && x in lists[c] {
      var c :| c in latest && !latest[c] && x in lists[c];
      assert c in order;
      var i :| 0 <= i < |order| && order[i] == c;
    }
  }

  /** `for cset in diffs_to_frontier: if not latest_csets[cset]:
      diffs_cache.extend(diffs_to_frontier[cset])` */
  method GatherDiffs(order: seq<string>, latest: map<string, bool>, lists: map<string, seq<string>>)
    returns (cache: seq<string>)
    requires IteratesKeys(order, latest, lists)
    ensures cache == Gathered(order, latest, lists)
    ensures forall x :: x in cache <==> exists c :: c in latest && !latest[c] && x in lists[c]
  {
    cache := [];
    for i := 0 to |order|
      invariant cache == Gathered(order[..i], latest, lists)
    {
      assert order[..i + 1][..i] == order[..i];
      if !latest[order[i]] {
        cache := cache + lists[order[i]];
      }
    }
    assert order[..|order|] == order;
    forall x
      ensures x in cache <==> exists c :: c in latest && !latest[c] && x in lists[c]
    {
      GatheredMembers(order, latest, lists, x);
    }
  }

  /** A page x, c1, c2, tip of short revisions offers x, c1 and c2. */
  lemma SamplePage(x: string, c1: string, c2: string, tip: string)
    requires |x| <= 12 && |c1| <= 12 && |c2| <= 12
    ensures Scanned([x, c1, c2, tip]) == [x, c1, c2]
  {
  }

  /** The shape of the example below: three distinct short revisions. */
  ghost predicate Distinct3(x: string, c1: string, c2: string) {
    |x| <= 12 && |c1| <= 12 && |c2| <= 12 && x != c1 && x != c2 && c1 != c2
  }

  /** With c1 and c2 looked for, scanning x, c1 and c2 finds both, while
      scanning only x and c1 leaves c2 unfound. */
  lemma SampleMarks(x: string, c1: string, c2: string, found: map<string, bool>)
    requires Distinct3(x, c1, c2)
    ensures AnyUnfound(map[c1 := true, c2 := true])
    ensures MarkedUpTo(map[c1 := true, c2 := true], found, [x, c1, c2], 3) ==> !AnyUnfound(found)
    ensures MarkedUpTo(map[c1 := true, c2 := true], found, [x, c1, c2], 2) ==> AnyUnfound(found)
  {
    var latest := map[c1 := true, c2 := true];
    var xs := [x, c1, c2];
    assert c1 in latest && latest[c1];
    assert xs[..3] == xs && xs[..2] == [x, c1];
    if MarkedUpTo(latest, found, xs, 3) {
      forall c | c in found
        ensures !found[c]
      {
        assert c == c1 || c == c2;
      }
    }
    if MarkedUpTo(latest, found, xs, 2) {
      assert c2 in found && found[c2];
    }
  }

  /** On the page x, c1, c2, tip with frontiers c1 and c2 both looked
      for, the scan stops at c2, having found both. */
  lemma SampleScanStops(x: string, c1: string, c2: string, tip: string,
                        found: map<string, bool>, lists: map<string, seq<string>>,
                        cached: seq<string>, stillLooking: bool, count: nat)
    requires Distinct3(x, c1, c2)
    requires PageScanned([x, c1, c2, tip], map[c1 := true, c2 := true], map[c1 := [], c2 := []],
                         [], found, lists, cached, stillLooking, count)
    requires !stillLooking ==> !AnyUnfound(found)
    requires stillLooking && AnyUnfound(map[c1 := true, c2 := true]) ==> AnyUnfound(found)
    ensures !stillLooking && count == 2
  {
    SamplePage(x, c1, c2, tip);
    SampleMarks(x, c1, c2, found);
    assert [x, c1, c2][0] == x;
  }

  /** After scanning x and c1 for c1 and c2, c1 has gained [x] and c2 has
      gained [x, c1]. */
  lemma SampleLists(x: string, c1: string, c2: string, lists: map<string, seq<string>>)
    requires Distinct3(x, c1, c2)
    requires ExtendedUpTo(map[c1 := true, c2 := true], map[c1 := [], c2 := []], lists, [x, c1, c2], 2)
    ensures lists == map[c1 := [x], c2 := [x, c1]]
  {
    var xs := [x, c1, c2];
    assert xs[..2] == [x, c1];
    assert Before(c1, [x, c1]) == [x] by {
      assert [x, c1][1..] == [c1];
    }
    assert Before(c2, [x, c1]) == [x, c1];
    assert lists[c1] == [x] && lists[c2] == [x, c1];
  }

  /** What the scan that stops at c2 leaves: c1 with [x], c2 with [x, c1]. */
  lemma SampleScanLists(x: string, c1: string, c2: string, tip: string,
                        found: map<string, bool>, lists: map<string, seq<string>>, cached: seq<string>)
    requires Distinct3(x, c1, c2)
    requires PageScanned([x, c1, c2, tip], map[c1 := true, c2 := true], map[c1 := [], c2 := []],
                         [], found, lists, cached, false, 2)
    ensures lists == map[c1 := [x], c2 := [x, c1]]
    ensures c1 in found && c2 in found && !found[c1] && !found[c2]
  {
    SamplePage(x, c1, c2, tip);
    SampleLists(x, c1, c2, lists);
    SampleMarks(x, c1, c2, found);
    assert [x, c1, c2][..3] == [x, c1, c2];
  }

  /** On the page x, c1, c2, tip with frontiers c1 and c2 both looked for,
      the scan must find both, leaving c1 with [x] and c2 with [x, c1];
      gathering then lists x twice. */
  lemma OverlappingListsAsWritten(x: string, c1: string, c2: string, tip: string,
                                  found: map<string, bool>, lists: map<string, seq<string>>,
                                  cached: seq<string>, stillLooking: bool, count: nat)
    requires Distinct3(x, c1, c2)
    requires PageScanned([x, c1, c2, tip], map[c1 := true, c2 := true], map[c1 := [], c2 := []],
                         [], found, lists, cached, stillLooking, count)
    requires !stillLooking ==> !AnyUnfound(found)
    requires stillLooking && AnyUnfound(map[c1 := true, c2 := true]) ==> AnyUnfound(found)
    ensures !stillLooking && lists == map[c1 := [x], c2 := [x, c1]]
    ensures Gathered([c1, c2], found, lists) == [x, x, c1]
  {
    SampleScanStops(x, c1, c2, tip, found, lists, cached, stillLooking, count);
    SampleScanLists(x, c1, c2, tip, found, lists, cached);
    SampleGather(x, c1, c2, found, lists);
  }

  /** Gathering the lists c1: [x] and c2: [x, c1] of two found frontiers
      lists x twice; keeping only the first of each gives [x, c1]. */
  lemma SampleGather(x: string, c1: string, c2: string,
                     found: map<string, bool>, lists: map<string, seq<string>>)
    requires x != c1 && c1 != c2
    requires c1 in found && c2 in found && !found[c1] && !found[c2]
    requires lists == map[c1 := [x], c2 := [x, c1]]
    ensures Gathered([c1, c2], found, lists) == [x, x, c1]
    ensures Dedup(Gathered([c1, c2], found, lists)) == [x, c1]
  {
    var order := [c1, c2];
    assert order[..1] == [c1] && order[..1][..0] == [];
    assert Gathered(order[..1], found, lists) == [x];
    assert Gathered(order, found, lists) == [x] + [x, c1];
    DedupSample(x, c1);
  }

  lemma DedupSample(x: string, c1: string)
    requires x != c1
    ensures Dedup([x, x, c1]) == [x, c1]
  {
    assert Dedup([x]) == [x] by {
      DedupSnoc([], x);
    }
    assert Dedup([x, x]) == [x] by {
      DedupSnoc([x], x);
      assert [x] + [x] == [x, x];
    }
    DedupSnoc([x, x], c1);
    assert [x, x] + [c1] == [x, x, c1];
  }

  lemma DedupSnoc(s: seq<string>, x: string)
    ensures Dedup(s + [x]) == if x in Dedup(s) then Dedup(s) else Dedup(s) + [x]
  {
    assert (s + [x])[..|s|] == s;
  }

  lemma DedupAppendStep(before: seq<string>, list: seq<string>, j: nat)
    requires j < |list|
    ensures Dedup(before + list[..j + 1]) ==
      if list[j] in Dedup(before + list[..j]) then Dedup(before + list[..j])
      else Dedup(before + list[..j]) + [list[j]]
  {
    assert before + list[..j + 1] == (before + list[..j]) + [list[j]];
    DedupSnoc(before + list[..j], list[j]);
  }

  /** `for x in list: if x not in cache: cache.append(x)` */
  method AppendNew(cache: seq<string>, list: seq<string>, ghost before: seq<string>) returns (r: seq<string>)
    requires cache == Dedup(before)
    ensures r == Dedup(before + list)
  {
    r := cache;
    assert before + list[..0] == before;
    for j := 0 to |list|
      invariant r == Dedup(before + list[..j])
    {
      DedupAppendStep(before, list, j);
      if list[j] !in r {
        r := r + [list[j]];
      }
    }
    assert list[..|list|] == list;
  }

  /** Keeping the first of repeated changesets: every changeset gathered,
      each once, in the order first gathered. */
  method GatherDiffsOnce(order: seq<string>, latest: map<string, bool>, lists: map<string, seq<string>>)
    returns (cache: seq<string>)
    requires IteratesKeys(order, latest, lists)
    ensures cache == Dedup(Gathered(order, latest, lists))
    ensures NoDup(cache)
    ensures forall x :: x in cache <==> exists c :: c in latest && !latest[c] && x in lists[c]
  {
    cache := [];
    for i := 0 to |order|
      invariant cache == Dedup(Gathered(order[..i], latest, lists))
    {
      assert order[..i + 1][..i] == order[..i];
      ghost var before := Gathered(order[..i], latest, lists);
      if !latest[order[i]] {
        cache := AppendNew(cache, lists[order[i]], before);
      } else {
        assert before + [] == before;
      }
    }
    assert order[..|order|] == order;
    forall x
      ensures x in cache <==> exists c :: c in latest && !latest[c] && x in lists[c]
    {
      GatheredMembers(order, latest, lists, x);
    }
  }
}
