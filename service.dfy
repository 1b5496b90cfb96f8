/** The state TUIDService keeps across calls: the TUID counter `next_tuid`
    and the `temporal` table that maps a (revision, file, line) to the TUID
    of the line first introduced there. The methods of the class are the
    parts of the service that update them: tuid(), _apply_diff (with the
    insertion of the rows it queues), _quick_update_file_changeset,
    _update_file_changesets and the per-file assembly of _get_tuids. */
module Service {

  import opened TuidRecords
  import opened PyText
  import opened LineEdits
  import opened DiffApply

  /** `coalesce(SELECT max(tuid)+1 FROM temporal, 1)`: one past the largest
      stored TUID, or 1 for an empty table. */
  function SeedTuid(rows: seq<Row>): (r: int)
    ensures |rows| == 0 ==> r == 1
    ensures forall i :: 0 <= i < |rows| ==> rows[i].tuid < r
    ensures |rows| > 0 ==> exists i :: 0 <= i < |rows| && rows[i].tuid == r - 1
  {
    if |rows| == 0 then 1
    else
      var init := rows[..|rows| - 1];
      var t := rows[|rows| - 1].tuid;
      assert forall i :: 0 <= i < |init| ==> init[i] == rows[i];
      if |init| == 0 then t + 1
      else
        var m := SeedTuid(init);
        if t + 1 > m then t + 1 else m
  }

  /** The rows _quick_update_file_changeset inserts: the i-th key of the
      list gets TUID start + i. */
  function FillMap(qf: seq<Key>, start: int): (m: map<Key, int>)
    ensures m.Keys == set k | k in qf
    ensures forall k :: k in m ==> start <= m[k] < start + |qf|
  {
    if |qf| == 0 then map[]
    else
      var init := qf[..|qf| - 1];
      assert forall k :: k in qf <==> k in init || k == qf[|qf| - 1] by {
        assert qf == init + [qf[|qf| - 1]];
      }
      FillMap(init, start)[qf[|qf| - 1] := start + |qf| - 1]
  }

  lemma UnionUpdate(a: map<Key, int>, b: map<Key, int>, k: Key, v: int)
    ensures (a + b)[k := v] == a + b[k := v]
  {
  }

  /** Filling keys that are not stored, from a counter above every stored
      TUID, keeps the stored entries and every TUID below the advanced
      counter, and stores every listed key. */
  lemma FillFresh(t: map<Key, int>, qf: seq<Key>, start: int)
    requires forall k :: k in t ==> t[k] < start
    requires forall k :: k in qf ==> k !in t
    ensures var u := t + FillMap(qf, start);
      && (forall k :: k in t ==> k in u && u[k] == t[k])
      && (forall k :: k in u ==> u[k] < start + |qf|)
      && (forall k :: k in qf ==> k in u)
  {
  }

  /** On a list without repeats, every key gets its own position's TUID, so
      the TUIDs handed out are pairwise different. */
  lemma {:induction false} FillMapPositions(qf: seq<Key>, start: int)
    requires NoDup(qf)
    ensures forall i :: 0 <= i < |qf| ==> FillMap(qf, start)[qf[i]] == start + i
  {
    if |qf| > 0 {
      var init := qf[..|qf| - 1];
      FillMapPositions(init, start);
      forall i | 0 <= i < |qf| - 1
        ensures FillMap(qf, start)[qf[i]] == start + i
      {
        assert qf[i] == init[i] && qf[i] != qf[|qf| - 1];
      }
    }
  }

  /** One line of an hg annotate response: the changeset that introduced
      the line, the file's path at that changeset, the line's number there,
      and its number in the annotated revision. */
  datatype AnnotatedLine = AnnotatedLine(node: string, abspath: string, targetline: int, lineno: int)

  /** The `temporal` key of an annotated line. */
  function LineKey(a: AnnotatedLine): Key {
    Key(Short(a.node), a.abspath, a.targetline)
  }

  /** The quickfill list of _update_file_changesets before de-duplication:
      the keys of the lines the table does not know yet, in order. */
  function Quickfill(lines: seq<AnnotatedLine>, temporal: map<Key, int>): seq<Key> {
    if |lines| == 0 then []
    else
      var key := LineKey(lines[|lines| - 1]);
      Quickfill(lines[..|lines| - 1], temporal) + (if key in temporal then [] else [key])
  }

  lemma QuickfillSnoc(lines: seq<AnnotatedLine>, x: AnnotatedLine, temporal: map<Key, int>)
    ensures Quickfill(lines + [x], temporal) ==
      Quickfill(lines, temporal) + (if LineKey(x) in temporal then [] else [LineKey(x)])
  {
    assert (lines + [x])[..|lines|] == lines;
  }

  /** The quickfill list holds exactly the keys of the lines that the table
      does not know. */
  lemma {:induction false} QuickfillMembers(lines: seq<AnnotatedLine>, temporal: map<Key, int>)
    ensures forall k :: k in Quickfill(lines, temporal) <==>
      k !in temporal && exists i :: 0 <= i < |lines| && LineKey(lines[i]) == k
  {
    if |lines| > 0 {
      var init := lines[..|lines| - 1];
      QuickfillMembers(init, temporal);
      assert forall i :: 0 <= i < |init| ==> init[i] == lines[i];
    }
  }

  /** The lines whose key the table does not know, in their order: the
      `annotated_lines` list of _get_tuids. */
  function Unknowns(lines: seq<AnnotatedLine>, temporal: map<Key, int>): seq<AnnotatedLine> {
    if |lines| == 0 then []
    else
      var x := lines[|lines| - 1];
      Unknowns(lines[..|lines| - 1], temporal) + (if LineKey(x) in temporal then [] else [x])
  }

  /** The set-aside lines are exactly the lines the table does not know. */
  lemma {:induction false} UnknownsMembers(lines: seq<AnnotatedLine>, temporal: map<Key, int>)
    ensures forall x :: x in Unknowns(lines, temporal) <==> x in lines && LineKey(x) !in temporal
  {
    if |lines| > 0 {
      var init := lines[..|lines| - 1];
      UnknownsMembers(init, temporal);
      assert lines == init + [lines[|lines| - 1]];
    }
  }

  /** Setting the known lines aside first does not change the quickfill list. */
  lemma {:induction false} QuickfillOfUnknowns(lines: seq<AnnotatedLine>, temporal: map<Key, int>)
    ensures Quickfill(Unknowns(lines, temporal), temporal) == Quickfill(lines, temporal)
  {
    if |lines| > 0 {
      var init, x := lines[..|lines| - 1], lines[|lines| - 1];
      QuickfillOfUnknowns(init, temporal);
      assert Unknowns(lines, temporal) == Unknowns(init, temporal) + (if LineKey(x) in temporal then [] else [x]);
      assert Quickfill(lines, temporal) == Quickfill(init, temporal) + (if LineKey(x) in temporal then [] else [LineKey(x)]);
      if LineKey(x) !in temporal {
        QuickfillSnoc(Unknowns(init, temporal), x, temporal);
      } else {
        assert Unknowns(lines, temporal) == Unknowns(init, temporal);
      }
    }
  }

  /** What ScanLines promises about the lines it sets aside. */
  lemma SetAside(nodes: seq<AnnotatedLine>, temporal: map<Key, int>)
    ensures var u := Unknowns(nodes, temporal);
      && (forall j :: 0 <= j < |nodes| ==> LineKey(nodes[j]) in temporal || nodes[j] in u)
      && (forall x :: x in u ==> x in nodes && LineKey(x) !in temporal)
      && Quickfill(u, temporal) == Quickfill(nodes, temporal)
  {
    UnknownsMembers(nodes, temporal);
    QuickfillOfUnknowns(nodes, temporal);
  }

  /** The result of applying a list of changesets' diffs to a file. */
  datatype Applied = Applied(ann: seq<TuidMap>, temporal: map<Key, int>, next: int)

  /** `for i in csets: tmp_res = self._apply_diff(transaction, tmp_res, parsed_diffs[i], i, file)`,
      each diff seeing the rows the earlier ones inserted. */
  function ApplyDiffsSpec(ann: seq<TuidMap>, csets: seq<string>, parsed: map<string, seq<FileDiff>>,
                          file: string, temporal: map<Key, int>, next: int): Applied
    requires forall i :: 0 <= i < |csets| ==> csets[i] in parsed
  {
    if |csets| == 0 then Applied(ann, temporal, next)
    else
      var p := ApplyDiffsSpec(ann, csets[..|csets| - 1], parsed, file, temporal, next);
      var c := csets[|csets| - 1];
      var s := ApplyDiffSpec(p.ann, parsed[c], p.temporal, c, file, p.next);
      Applied(s.ann, p.temporal + RowsToMap(s.inserts), s.next)
  }

  /** Inserting rows for unstored keys whose TUIDs come from the counter
      keeps every stored entry and every TUID below the advanced counter. */
  lemma InsertFresh(temporal: map<Key, int>, rows: seq<Row>, next: int, bound: int)
    requires forall k :: k in temporal ==> temporal[k] < next
    requires forall i :: 0 <= i < |rows| ==> rows[i].tuid == next + i && rows[i].key !in temporal
    requires bound == next + |rows|
    ensures var t := temporal + RowsToMap(rows);
      && (forall k :: k in temporal ==> k in t && t[k] == temporal[k])
      && (forall k :: k in t ==> t[k] < bound)
  {
  }

  /** Applying diffs one after another never rewrites a stored TUID and
      never hands out a TUID twice: the table only gains keys, keeps its
      values, and every TUID in it stays below the counter. */
  lemma {:induction false} ApplyDiffsKeepsTable(ann: seq<TuidMap>, csets: seq<string>, parsed: map<string, seq<FileDiff>>,
                                                file: string, temporal: map<Key, int>, next: int)
    requires forall i :: 0 <= i < |csets| ==> csets[i] in parsed
    requires forall k :: k in temporal ==> temporal[k] < next
    ensures var r := ApplyDiffsSpec(ann, csets, parsed, file, temporal, next);
      && r.next >= next
      && (forall k :: k in temporal ==> k in r.temporal && r.temporal[k] == temporal[k])
      && (forall k :: k in r.temporal ==> r.temporal[k] < r.next)
  {
    if |csets| > 0 {
      var init := csets[..|csets| - 1];
      ApplyDiffsKeepsTable(ann, init, parsed, file, temporal, next);
      var p := ApplyDiffsSpec(ann, init, parsed, file, temporal, next);
      var c := csets[|csets| - 1];
      ApplyDiffAllocates(p.ann, parsed[c], p.temporal, c, file, p.next);
      var d := ApplyDiffSpec(p.ann, parsed[c], p.temporal, c, file, p.next);
      InsertFresh(p.temporal, d.inserts, p.next, d.next);
      var t := p.temporal + RowsToMap(d.inserts);
      assert ApplyDiffsSpec(ann, csets, parsed, file, temporal, next) == Applied(d.ann, t, d.next);
    }
  }

  /** Line n of the result of _get_tuids: the TUID found for line number
      n while scanning, else the one stored for the line's origin, else
      MISSING. */
  ghost predicate LineAssembled(t: TuidMap, n: int, origin: Key, existing: map<int, int>,
                                temporal: map<Key, int>, missing: TuidMap)
  {
    if n in existing then t == TuidMap(existing[n], n)
    else if origin in temporal then t == TuidMap(temporal[origin], n)
    else t == missing
  }

  /** The TUID found for line number n while scanning came from the line
      at index source[n], which has that number and whose key was stored
      with that TUID. */
  ghost predicate FoundAt(nodes: seq<AnnotatedLine>, n: int, source: map<int, int>,
                          existing: map<int, int>, temporal: map<Key, int>)
    requires n in existing
  {
    && n in source && 0 <= source[n] < |nodes|
    && nodes[source[n]].lineno == n
    && LineKey(nodes[source[n]]) in temporal
    && existing[n] == temporal[LineKey(nodes[source[n]])]
  }

  /** Once every origin is stored, and every TUID found while scanning is
      the one still stored for a line of that number, the assembled lines
      are numbered 1..n and carry stored TUIDs; with the lines numbered in
      order, each carries the TUID of its own origin. */
  lemma AssembledLines(nodes: seq<AnnotatedLine>, origins: seq<Key>, existing: map<int, int>, source: map<int, int>,
                       t0: map<Key, int>, t1: map<Key, int>, tuids: seq<TuidMap>, missing: TuidMap)
    requires |origins| == |nodes| && |tuids| == |nodes|
    requires forall j :: 0 <= j < |nodes| ==> origins[j] == LineKey(nodes[j]) && origins[j] in t1
    requires forall n :: n in existing ==> FoundAt(nodes, n, source, existing, t0)
    requires forall j :: 0 <= j < |nodes| && LineKey(nodes[j]) in t0 ==> nodes[j].lineno in existing
    requires forall k :: k in t0 ==> k in t1 && t1[k] == t0[k]
    requires forall i :: 0 <= i < |nodes| ==> LineAssembled(tuids[i], i + 1, origins[i], existing, t1, missing)
    ensures Numbered(tuids)
    ensures forall i :: 0 <= i < |nodes| ==> tuids[i].tuid in t1.Values
    ensures (forall i :: 0 <= i < |nodes| ==> nodes[i].lineno == i + 1) ==>
      forall i :: 0 <= i < |nodes| ==> tuids[i] == TuidMap(t1[LineKey(nodes[i])], i + 1)
  {
    forall i | 0 <= i < |nodes|
      ensures tuids[i].line == i + 1 && tuids[i].tuid in t1.Values
    {
      if i + 1 in existing {
        var j := source[i + 1];
        assert t1[LineKey(nodes[j])] == existing[i + 1];
      } else {
        assert t1[origins[i]] == tuids[i].tuid;
      }
    }
    if forall i :: 0 <= i < |nodes| ==> nodes[i].lineno == i + 1 {
      forall i | 0 <= i < |nodes|
        ensures tuids[i] == TuidMap(t1[LineKey(nodes[i])], i + 1)
      {
        if i + 1 in existing {
          assert source[i + 1] == i;
        }
      }
    }
  }

  class TUIDService {
    /** The TUID the next call of tuid() hands out. */
    var nextTuid: int
    /** The `temporal` table, unique on (revision, file, line). */
    var temporal: map<Key, int>

    /** Every stored TUID is below the counter, so a TUID the counter hands
        out is new. */
    ghost predicate Valid()
      reads this
    {
      forall k :: k in temporal ==> temporal[k] < nextTuid
    }

    /** __init__ over the rows already in the `temporal` table. */
    constructor (rows: seq<Row>)
      ensures temporal == RowsToMap(rows)
      ensures nextTuid == SeedTuid(rows)
      ensures Valid()
    {
      temporal := RowsToMap(rows);
      nextTuid := SeedTuid(rows);
    }

    /** tuid(): the current counter, which then advances by one. */
    method Tuid() returns (t: int)
      requires Valid()
      modifies this
      ensures t == old(nextTuid) && nextTuid == t + 1
      ensures temporal == old(temporal)
      ensures t !in temporal.Values
      ensures Valid()
    {
      t := nextTuid;
      nextTuid := nextTuid + 1;
    }

    /** The loop of _apply_diff over the changes of the matching entry: a
        `+` reads the TUID stored for its key or takes a fresh one and
        queues a row for it, a `-` removes its line. The table itself is
        not written here. */
    method ApplyChanges(ann: seq<TuidMap>, changes: seq<Change>, cset: string, file: string)
      returns (newAnn: seq<TuidMap>, toInsert: seq<Row>)
      requires Valid()
      modifies this
      ensures Steps(DiffState(ann, old(nextTuid), []), changes, temporal, cset, file) == DiffState(newAnn, nextTuid, toInsert)
      ensures temporal == old(temporal)
      ensures Valid()
    {
      newAnn := ann;
      toInsert := [];
      ghost var start := DiffState(ann, nextTuid, []);
      for k := 0 to |changes|
        invariant temporal == old(temporal) && nextTuid >= start.next
        invariant DiffState(newAnn, nextTuid, toInsert) == Steps(start, changes[..k], temporal, cset, file)
        invariant Valid()
      {
        var change := changes[k];
        ghost var before := DiffState(newAnn, nextTuid, toInsert);
        assert changes[..k + 1][..k] == changes[..k];
        assert Steps(start, changes[..k + 1], temporal, cset, file) == Step(before, change, temporal, cset, file);
        if change.action == '+' {
          var key := ChangeKey(change, cset, file);
          var newTuid;
          if key in temporal {
            newTuid := temporal[key];
          } else {
            newTuid := Tuid();
            toInsert := toInsert + [Row(newTuid, key)];
          }
          newAnn := AddOne(TuidMap(newTuid, change.line + 1), newAnn);
          StepAdd(before, change, temporal, cset, file);
        } else if change.action == '-' {
          newAnn := RemoveOne(change.line + 1, newAnn);
        }
      }
      assert changes[..|changes|] == changes;
    }

    /** _apply_diff: sort the annotation, skip the diff entries for other
        files, apply the changes of the first entry for this one, and
        finally insert the queued rows into the table. */
    method ApplyDiff(ann: seq<TuidMap>, diff: seq<FileDiff>, cset: string, file: string)
      returns (newAnn: seq<TuidMap>)
      requires Valid()
      modifies this
      ensures var spec := ApplyDiffSpec(ann, diff, old(temporal), cset, file, old(nextTuid));
        && newAnn == spec.ann
        && nextTuid == spec.next
        && temporal == old(temporal) + RowsToMap(spec.inserts)
      ensures forall k :: k in old(temporal) ==> k in temporal && temporal[k] == old(temporal)[k]
      ensures Valid()
    {
      newAnn := SortByLine(ann);
      var toInsert: seq<Row> := [];
      var i := 0;
      while i < |diff| && !NamesFile(diff[i], file)
        invariant 0 <= i <= |diff|
        invariant forall j :: 0 <= j < i ==> !NamesFile(diff[j], file)
      {
        i := i + 1;
      }
      ghost var spec := ApplyDiffSpec(ann, diff, temporal, cset, file, nextTuid);
      if i < |diff| {
        ChangesForFirst(diff, file, i);
        assert spec == Steps(DiffState(newAnn, nextTuid, []), diff[i].changes, temporal, cset, file);
        newAnn, toInsert := ApplyChanges(newAnn, diff[i].changes, cset, file);
      } else {
        assert spec == DiffState(newAnn, nextTuid, []);
      }
      assert spec == DiffState(newAnn, nextTuid, toInsert);
      ApplyDiffAllocates(ann, diff, old(temporal), cset, file, old(nextTuid));
      InsertFresh(temporal, toInsert, old(nextTuid), nextTuid);
      temporal := temporal + RowsToMap(toInsert);
    }

    /** The loop over a file's changesets: each diff applied in turn to
        the previous result. */
    method ApplyDiffs(ann: seq<TuidMap>, csets: seq<string>, parsed: map<string, seq<FileDiff>>, file: string)
      returns (res: seq<TuidMap>)
      requires Valid()
      requires forall i :: 0 <= i < |csets| ==> csets[i] in parsed
      modifies this
      ensures ApplyDiffsSpec(ann, csets, parsed, file, old(temporal), old(nextTuid)) == Applied(res, temporal, nextTuid)
      ensures forall k :: k in old(temporal) ==> k in temporal && temporal[k] == old(temporal)[k]
      ensures Valid()
    {
      res := ann;
      for i := 0 to |csets|
        invariant ApplyDiffsSpec(ann, csets[..i], parsed, file, old(temporal), old(nextTuid)) == Applied(res, temporal, nextTuid)
        invariant Valid()
      {
        assert csets[..i + 1][..i] == csets[..i];
        res := ApplyDiff(res, parsed[csets[i]], csets[i], file);
      }
      assert csets[..|csets|] == csets;
      ApplyDiffsKeepsTable(ann, csets, parsed, file, old(temporal), old(nextTuid));
    }

    /** _quick_update_file_changeset: one fresh TUID per key, in order. */
    method QuickUpdateFileChangeset(qf: seq<Key>)
      requires Valid()
      modifies this
      ensures nextTuid == old(nextTuid) + |qf|
      ensures temporal == old(temporal) + FillMap(qf, old(nextTuid))
      ensures Valid()
    {
      for i := 0 to |qf|
        invariant nextTuid == old(nextTuid) + i
        invariant temporal == old(temporal) + FillMap(qf[..i], old(nextTuid))
        invariant Valid()
      {
        var t := Tuid();
        assert qf[..i + 1][..i] == qf[..i];
        assert FillMap(qf[..i + 1], old(nextTuid)) == FillMap(qf[..i], old(nextTuid))[qf[i] := t];
        UnionUpdate(old(temporal), FillMap(qf[..i], old(nextTuid)), qf[i], t);
        temporal := temporal[qf[i] := t];
      }
      assert qf[..|qf|] == qf;
    }

    /** _update_file_changesets: collect the keys of the annotated lines
        the table does not know, drop repeats, and give each a fresh TUID. */
    method UpdateFileChangesets(lines: seq<AnnotatedLine>)
      requires Valid()
      modifies this
      ensures var qf := Dedup(Quickfill(lines, old(temporal)));
        && nextTuid == old(nextTuid) + |qf|
        && temporal == old(temporal) + FillMap(qf, old(nextTuid))
      ensures forall i :: 0 <= i < |lines| ==> LineKey(lines[i]) in temporal
      ensures forall k :: k in old(temporal) ==> k in temporal && temporal[k] == old(temporal)[k]
      ensures Valid()
    {
      var table := temporal;
      var quickfill: seq<Key> := [];
      for i := 0 to |lines|
        invariant quickfill == Quickfill(lines[..i], table)
      {
        var key := LineKey(lines[i]);
        if key !in table {
          quickfill := quickfill + [key];
        }
        assert lines[..i + 1][..i] == lines[..i];
      }
      assert lines[..|lines|] == lines;
      QuickfillMembers(lines, table);
      var qf := Dedup(quickfill);
      FillFresh(table, qf, nextTuid);
      QuickUpdateFileChangeset(qf);
      forall i | 0 <= i < |lines|
        ensures LineKey(lines[i]) in temporal
      {
        var key := LineKey(lines[i]);
        if key !in table {
          assert key in quickfill && key in qf;
        }
      }
    }

    /** The result loop of _get_tuids: line n takes the TUID found for line
        number n while scanning, else the TUID stored for its origin, else
        MISSING. */
    method AssembleTuids(origins: seq<Key>, existing: map<int, int>, missing: TuidMap)
      returns (tuids: seq<TuidMap>)
      ensures |tuids| == |origins|
      ensures forall i :: 0 <= i < |origins| ==> LineAssembled(tuids[i], i + 1, origins[i], existing, temporal, missing)
      ensures (forall i :: 0 <= i < |origins| ==> i + 1 in existing || origins[i] in temporal) ==> Numbered(tuids)
    {
      tuids := [];
      for n := 1 to |origins| + 1
        invariant |tuids| == n - 1
        invariant forall i :: 0 <= i < n - 1 ==> LineAssembled(tuids[i], i + 1, origins[i], existing, temporal, missing)
      {
        if n in existing {
          tuids := tuids + [TuidMap(existing[n], n)];
        } else if origins[n - 1] in temporal {
          tuids := tuids + [TuidMap(temporal[origins[n - 1]], n)];
        } else {
          tuids := tuids + [missing];
        }
      }
    }

    /** The scan of the annotate response in _get_tuids: every line's key
        is recorded as its origin; a line whose key is stored has its TUID
        recorded under its line number, the others are set aside for
        _update_file_changesets. */
    method ScanLines(nodes: seq<AnnotatedLine>)
      returns (annotated: seq<AnnotatedLine>, origins: seq<Key>, existing: map<int, int>, ghost source: map<int, int>)
      ensures |origins| == |nodes|
      ensures forall j :: 0 <= j < |nodes| ==> origins[j] == LineKey(nodes[j])
      ensures forall j :: 0 <= j < |nodes| ==> LineKey(nodes[j]) in temporal || nodes[j] in annotated
      ensures forall x :: x in annotated ==> x in nodes && LineKey(x) !in temporal
      ensures annotated == Unknowns(nodes, temporal)
      ensures Quickfill(annotated, temporal) == Quickfill(nodes, temporal)
      ensures forall n :: n in existing ==> FoundAt(nodes, n, source, existing, temporal)
      ensures forall j :: 0 <= j < |nodes| && LineKey(nodes[j]) in temporal ==> nodes[j].lineno in existing
    {
      annotated, origins, existing, source := [], [], map[], map[];
      for i := 0 to |nodes|
        invariant |origins| == i
        invariant forall j :: 0 <= j < i ==> origins[j] == LineKey(nodes[j])
        invariant annotated == Unknowns(nodes[..i], temporal)
        invariant forall n :: n in existing ==> FoundAt(nodes, n, source, existing, temporal) && source[n] < i
        invariant forall j :: 0 <= j < i && LineKey(nodes[j]) in temporal ==> nodes[j].lineno in existing
      {
        var key := LineKey(nodes[i]);
        assert nodes[..i + 1][..i] == nodes[..i];
        if key !in temporal {
          annotated := annotated + [nodes[i]];
        } else {
          existing := existing[nodes[i].lineno := temporal[key]];
          source := source[nodes[i].lineno := i];
        }
        origins := origins + [key];
      }
      assert nodes[..|nodes|] == nodes;
      SetAside(nodes, temporal);
    }

    /** The per-file body of _get_tuids for a successful annotate response:
        scan the lines, give the unknown ones fresh TUIDs, then assemble one
        entry per line. No line comes back MISSING, the result is numbered
        1..n, and when the response numbers its lines 1..n in order each
        entry carries the TUID stored for that line's origin. */
    method AnnotateFile(nodes: seq<AnnotatedLine>, missing: TuidMap) returns (tuids: seq<TuidMap>)
      requires Valid()
      modifies this
      ensures var qf := Dedup(Quickfill(nodes, old(temporal)));
        && nextTuid == old(nextTuid) + |qf|
        && temporal == old(temporal) + FillMap(qf, old(nextTuid))
      ensures |tuids| == |nodes| && Numbered(tuids)
      ensures forall i :: 0 <= i < |nodes| ==> LineKey(nodes[i]) in temporal
      ensures forall i :: 0 <= i < |nodes| ==> tuids[i].tuid in temporal.Values
      ensures (forall i :: 0 <= i < |nodes| ==> nodes[i].lineno == i + 1) ==>
        forall i :: 0 <= i < |nodes| ==> tuids[i] == TuidMap(temporal[LineKey(nodes[i])], i + 1)
      ensures forall k :: k in old(temporal) ==> k in temporal && temporal[k] == old(temporal)[k]
      ensures Valid()
    {
      var annotated, origins, existing, source := ScanLines(nodes);
      if |annotated| > 0 {
        UpdateFileChangesets(annotated);
      } else {
        assert temporal == old(temporal) + map[];
      }
      tuids := AssembleTuids(origins, existing, missing);
      AssembledLines(nodes, origins, existing, source, old(temporal), temporal, tuids, missing);
    }
  }
}
