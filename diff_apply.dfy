/** What TUIDService._apply_diff computes, as a function of its inputs: the
    annotation sorted by line, then the `+`/`-` changes of the first diff
    entry for the file applied one by one with add_one and remove_one, a
    `+` reusing the TUID stored for its (changeset, file, line) and
    otherwise taking the next fresh TUID and queueing a row for the
    `temporal` table. The class method Service.TUIDService.ApplyDiff is
    proved to compute exactly this. */
module DiffApply {

  import opened TuidRecords
  import opened PyText
  import opened LineEdits

  /** One change of a diff entry: its action ('+' adds, '-' removes, any
      other character is ignored) and its 0-based line number. */
  datatype Change = Change(action: char, line: int)

  /** One entry of a changeset's diff: the file's old and new names and
      its changes in order. */
  datatype FileDiff = FileDiff(oldName: string, newName: string, changes: seq<Change>)

  /** The state _apply_diff carries through the changes: the annotation so
      far, the allocator's next TUID and the rows queued for insertion. */
  datatype DiffState = DiffState(ann: seq<TuidMap>, next: int, inserts: seq<Row>)

  predicate NamesFile(d: FileDiff, file: string) {
    LStrip(d.newName, '/') == file
  }

  /** The changes of the first entry whose new name, without its leading
      slashes, is `file`; later entries for the same file are not looked at. */
  function ChangesFor(diff: seq<FileDiff>, file: string): (r: Option<seq<Change>>)
    ensures r.None? <==> forall i :: 0 <= i < |diff| ==> !NamesFile(diff[i], file)
    ensures r.Some? ==> exists i :: 0 <= i < |diff| && NamesFile(diff[i], file)
                          && r.value == diff[i].changes
                          && forall j :: 0 <= j < i ==> !NamesFile(diff[j], file)
  {
    if |diff| == 0 then None
    else if NamesFile(diff[0], file) then Some(diff[0].changes)
    else
      var r := ChangesFor(diff[1..], file);
      assert forall i :: 1 <= i < |diff| ==> diff[1..][i - 1] == diff[i];
      r
  }

  /** The key a change's line has in the `temporal` table: diff lines are
      0-based, table lines 1-based. */
  function ChangeKey(c: Change, cset: string, file: string): Key {
    Key(cset, file, c.line + 1)
  }

  /** One change. `stored` is what the lookup of an existing TUID sees. */
  function Step(s: DiffState, c: Change, stored: map<Key, int>, cset: string, file: string): DiffState {
    if c.action == '+' then
      var key := ChangeKey(c, cset, file);
      if key in stored then
        DiffState(AddOne(TuidMap(stored[key], c.line + 1), s.ann), s.next, s.inserts)
      else
        DiffState(AddOne(TuidMap(s.next, c.line + 1), s.ann), s.next + 1, s.inserts + [Row(s.next, key)])
    else if c.action == '-' then
      DiffState(RemoveOne(c.line + 1, s.ann), s.next, s.inserts)
    else s
  }

  /** A `+` inserts at its line the stored TUID, or else the next one,
      which is then queued with the line's key. */
  lemma StepAdd(s: DiffState, c: Change, stored: map<Key, int>, cset: string, file: string)
    requires c.action == '+'
    ensures var key := ChangeKey(c, cset, file);
      var tuid := if key in stored then stored[key] else s.next;
      var r := Step(s, c, stored, cset, file);
      && r.ann == AddOne(TuidMap(tuid, c.line + 1), s.ann)
      && r.next == (if key in stored then s.next else s.next + 1)
      && r.inserts == (if key in stored then s.inserts else s.inserts + [Row(s.next, key)])
  {
  }

  /** The changes applied in order. */
  function Steps(s: DiffState, cs: seq<Change>, stored: map<Key, int>, cset: string, file: string): DiffState {
    if |cs| == 0 then s
    else Step(Steps(s, cs[..|cs| - 1], stored, cset, file), cs[|cs| - 1], stored, cset, file)
  }

  /** _apply_diff as a function: sort, then the changes of the first
      matching entry, or nothing when no entry matches. */
  function ApplyDiffSpec(ann: seq<TuidMap>, diff: seq<FileDiff>, stored: map<Key, int>,
                         cset: string, file: string, next: int): DiffState
  {
    var start := DiffState(SortByLine(ann), next, []);
    match ChangesFor(diff, file)
    case None => start
    case Some(cs) => Steps(start, cs, stored, cset, file)
  }

  // ---------------------------------------------------------------------
  // Properties

  /** The entry ChangesFor picks is the first one naming the file. */
  lemma ChangesForFirst(diff: seq<FileDiff>, file: string, i: int)
    requires 0 <= i < |diff| && NamesFile(diff[i], file)
    requires forall j :: 0 <= j < i ==> !NamesFile(diff[j], file)
    ensures ChangesFor(diff, file) == Some(diff[i].changes)
  {
    var r := ChangesFor(diff, file);
    assert r.Some?;
    var w :| 0 <= w < |diff| && NamesFile(diff[w], file) && r.value == diff[w].changes
             && forall j :: 0 <= j < w ==> !NamesFile(diff[j], file);
    assert w == i;
  }

  /** What _apply_diff queues for insertion: rows for keys not stored,
      carrying next, next + 1, ... in order, with the counter just past them. */
  lemma ApplyDiffAllocates(ann: seq<TuidMap>, diff: seq<FileDiff>, stored: map<Key, int>,
                           cset: string, file: string, next: int)
    ensures var r := ApplyDiffSpec(ann, diff, stored, cset, file, next);
      && r.next == next + |r.inserts|
      && forall i :: 0 <= i < |r.inserts| ==> r.inserts[i].tuid == next + i && r.inserts[i].key !in stored
  {
    var start := DiffState(SortByLine(ann), next, []);
    match ChangesFor(diff, file)
    case None =>
    case Some(cs) => StepsAllocate(start, cs, stored, cset, file);
  }

  /** With no entry for the file the result is the sorted annotation, and
      nothing is allocated or queued. */
  lemma ApplyDiffWithoutEntry(ann: seq<TuidMap>, diff: seq<FileDiff>, stored: map<Key, int>,
                              cset: string, file: string, next: int)
    requires forall i :: 0 <= i < |diff| ==> !NamesFile(diff[i], file)
    ensures ApplyDiffSpec(ann, diff, stored, cset, file, next) == DiffState(SortByLine(ann), next, [])
  {
  }

  /** The number of fresh TUIDs the changes allocate: one per `+` whose key
      is not stored; a `-` never allocates. */
  function FreshAdds(cs: seq<Change>, stored: map<Key, int>, cset: string, file: string): nat {
    if |cs| == 0 then 0
    else
      var c := cs[|cs| - 1];
      FreshAdds(cs[..|cs| - 1], stored, cset, file)
        + (if c.action == '+' && ChangeKey(c, cset, file) !in stored then 1 else 0)
  }

  /** Allocation is monotonic and gap-free: the queued rows carry the TUIDs
      start.next, start.next + 1, ... in order, one per `+` without a stored
      TUID, each for a key not stored yet, and the counter ends just past them. */
  lemma {:induction false} StepsAllocate(s: DiffState, cs: seq<Change>, stored: map<Key, int>, cset: string, file: string)
    ensures var r := Steps(s, cs, stored, cset, file);
      && |r.inserts| == |s.inserts| + FreshAdds(cs, stored, cset, file)
      && r.next == s.next + FreshAdds(cs, stored, cset, file)
      && r.inserts[..|s.inserts|] == s.inserts
      && forall i :: |s.inserts| <= i < |r.inserts| ==>
           r.inserts[i].tuid == s.next + (i - |s.inserts|) && r.inserts[i].key !in stored
  {
    if |cs| > 0 {
      StepsAllocate(s, cs[..|cs| - 1], stored, cset, file);
    }
  }

  /** The annotation's length after the changes, for non-negative diff
      lines: a `+` adds a line, a `-` removes one when it names an existing
      line and does nothing past the end. */
  function SizeAfter(n: nat, cs: seq<Change>): nat {
    if |cs| == 0 then n
    else
      var m := SizeAfter(n, cs[..|cs| - 1]);
      var c := cs[|cs| - 1];
      if c.action == '+' then m + 1
      else if c.action == '-' && 1 <= c.line + 1 <= m then m - 1
      else m
  }

  ghost predicate NonNegativeLines(cs: seq<Change>) {
    forall i :: 0 <= i < |cs| ==> cs[i].line >= 0
  }

  lemma {:induction false} StepsLength(s: DiffState, cs: seq<Change>, stored: map<Key, int>, cset: string, file: string)
    requires NonNegativeLines(cs)
    ensures |Steps(s, cs, stored, cset, file).ann| == SizeAfter(|s.ann|, cs)
  {
    if |cs| > 0 {
      var init := cs[..|cs| - 1];
      assert NonNegativeLines(init) by {
        assert forall i :: 0 <= i < |init| ==> init[i] == cs[i];
      }
      StepsLength(s, init, stored, cset, file);
      var c := cs[|cs| - 1];
      var t := Steps(s, init, stored, cset, file);
      if c.action == '-' && c.line + 1 > |t.ann| {
        RemoveOneBeyondEnd(c.line + 1, t.ann);
      }
    }
  }

  /** Every `+` inserts at a line that exists or just past the end, and no
      line is negative. */
  ghost predicate WellPlaced(n: nat, cs: seq<Change>) {
    forall i :: 0 <= i < |cs| ==>
      cs[i].line >= 0 && (cs[i].action == '+' ==> cs[i].line <= SizeAfter(n, cs[..i]))
  }

  /** Line numbers stay consistent: an annotation numbered 1..n is still
      numbered 1..m after well-placed changes. */
  lemma {:induction false} StepsNumbered(s: DiffState, cs: seq<Change>, stored: map<Key, int>, cset: string, file: string)
    requires Numbered(s.ann) && WellPlaced(|s.ann|, cs)
    ensures Numbered(Steps(s, cs, stored, cset, file).ann)
  {
    if |cs| > 0 {
      var init := cs[..|cs| - 1];
      assert WellPlaced(|s.ann|, init) by {
        forall i | 0 <= i < |init|
          ensures init[i].line >= 0 && (init[i].action == '+' ==> init[i].line <= SizeAfter(|s.ann|, init[..i]))
        {
          assert init[i] == cs[i] && init[..i] == cs[..i];
        }
      }
      StepsNumbered(s, init, stored, cset, file);
      StepsLength(s, init, stored, cset, file);
      assert cs[..|cs| - 1] == init;
      StepNumbered(Steps(s, init, stored, cset, file), cs[|cs| - 1], stored, cset, file);
    }
  }

  /** One well-placed change keeps an annotation numbered. */
  lemma StepNumbered(t: DiffState, c: Change, stored: map<Key, int>, cset: string, file: string)
    requires Numbered(t.ann) && c.line >= 0
    requires c.action == '+' ==> c.line <= |t.ann|
    ensures Numbered(Step(t, c, stored, cset, file).ann)
  {
    if c.action == '+' {
      var key := ChangeKey(c, cset, file);
      var tuid := if key in stored then stored[key] else t.next;
      StepAdd(t, c, stored, cset, file);
      AddOneNumbered(TuidMap(tuid, c.line + 1), t.ann);
    } else if c.action == '-' {
      assert Step(t, c, stored, cset, file).ann == RemoveOne(c.line + 1, t.ann);
      if c.line + 1 <= |t.ann| {
        RemoveOneNumbered(c.line + 1, t.ann);
      } else {
        RemoveOneBeyondEnd(c.line + 1, t.ann);
      }
    }
  }

  lemma RemoveOneTuidsFrom(p: int, xs: seq<TuidMap>)
    ensures forall t :: t in Tuids(RemoveOne(p, xs)) ==> t in Tuids(xs)
  {
    var a := Take(xs, p - 1);
    var b := Drop(xs, p);
    assert Tuids(RemoveOne(p, xs)) == Tuids(a) + Tuids(Shift(b, -1));
    assert forall t :: t in Tuids(a) ==> t in Tuids(xs) by {
      assert forall i :: 0 <= i < |a| ==> a[i] == xs[i];
    }
    assert forall t :: t in Tuids(b) ==> t in Tuids(xs) by {
      assert forall i :: 0 <= i < |b| ==> b[i] == xs[i + SliceBound(p, |xs|)];
    }
  }

  /** Identity comes from somewhere: every TUID of the result was in the
      annotation, is a stored TUID, or was freshly allocated by these
      changes. */
  lemma {:induction false} StepsProvenance(s: DiffState, cs: seq<Change>, stored: map<Key, int>, cset: string, file: string)
    ensures var r := Steps(s, cs, stored, cset, file);
      && r.next >= s.next
      && forall t :: t in Tuids(r.ann) ==>
           t in Tuids(s.ann) || t in stored.Values || s.next <= t < r.next
  {
    if |cs| > 0 {
      var init := cs[..|cs| - 1];
      StepsProvenance(s, init, stored, cset, file);
      var t := Steps(s, init, stored, cset, file);
      var c := cs[|cs| - 1];
      if c.action == '+' {
        var key := ChangeKey(c, cset, file);
        var tuid := if key in stored then stored[key] else t.next;
        AddOneTuids(TuidMap(tuid, c.line + 1), t.ann);
        var r := AddOne(TuidMap(tuid, c.line + 1), t.ann);
        assert forall x :: x in Tuids(r) ==> x in Tuids(t.ann) || x == tuid by {
          forall x | x in Tuids(r)
            ensures x in Tuids(t.ann) || x == tuid
          {
            assert x in multiset(Tuids(r));
          }
        }
      } else if c.action == '-' {
        RemoveOneTuidsFrom(c.line + 1, t.ann);
      }
    }
  }

  /** A `+` whose key is stored puts the stored TUID at its line and
      allocates nothing. */
  lemma StepReusesStored(s: DiffState, c: Change, stored: map<Key, int>, cset: string, file: string)
    requires c.action == '+' && ChangeKey(c, cset, file) in stored
    requires 0 <= c.line <= |s.ann|
    ensures var r := Step(s, c, stored, cset, file);
      && r.ann[c.line] == TuidMap(stored[ChangeKey(c, cset, file)], c.line + 1)
      && r.next == s.next && r.inserts == s.inserts
  {
    AddOneShape(TuidMap(stored[ChangeKey(c, cset, file)], c.line + 1), s.ann);
  }

  // ---------------------------------------------------------------------
  // The lookup as written

  /** What the lookup of _apply_diff actually sees: `_get_one_tuid` runs
      `select 1 from temporal ...`, so for every stored key the value read
      back as the TUID is the constant 1. */
  function SelectOneAsWritten(temporal: map<Key, int>): (r: map<Key, int>)
    ensures r.Keys == temporal.Keys
    ensures forall k :: k in r ==> r[k] == 1
  {
    map k | k in temporal :: 1
  }

  /** On an empty annotation, a diff whose entry for the file is a single
      `+` at line 0 with a stored key yields one line carrying the stored TUID. */
  lemma OneStoredAdd(diff: seq<FileDiff>, stored: map<Key, int>, cset: string, file: string, next: int)
    requires ChangesFor(diff, file) == Some([Change('+', 0)])
    requires Key(cset, file, 1) in stored
    ensures ApplyDiffSpec([], diff, stored, cset, file, next).ann == [TuidMap(stored[Key(cset, file, 1)], 1)]
  {
    var cs := [Change('+', 0)];
    var key := Key(cset, file, 1);
    var start := DiffState(SortByLine([]), next, []);
    assert ApplyDiffSpec([], diff, stored, cset, file, next) == Steps(start, cs, stored, cset, file);
    assert start.ann == [];
    assert Steps(start, cs, stored, cset, file) == Step(start, cs[0], stored, cset, file) by {
      assert cs[..0] == [];
    }
    assert ChangeKey(cs[0], cset, file) == key;
    assert Step(start, cs[0], stored, cset, file).ann == AddOne(TuidMap(stored[key], 1), start.ann);
    assert AddOne(TuidMap(stored[key], 1), []) == [TuidMap(stored[key], 1)];
  }

  /** A line whose TUID 7 is already stored comes back with TUID 1 when the
      lookup is the one as written, and with 7 when it reads the stored TUID. */
  lemma StoredTuidLostAsWritten()
    ensures var k := Key("c", "f", 1);
      var temporal := map[k := 7];
      var diff := [FileDiff("f", "f", [Change('+', 0)])];
      && ApplyDiffSpec([], diff, SelectOneAsWritten(temporal), "c", "f", 8).ann == [TuidMap(1, 1)]
      && ApplyDiffSpec([], diff, temporal, "c", "f", 8).ann == [TuidMap(7, 1)]
  {
    var k := Key("c", "f", 1);
    var temporal := map[k := 7];
    var diff := [FileDiff("f", "f", [Change('+', 0)])];
    assert LStrip("f", '/') == "f";
    assert ChangesFor(diff, "f") == Some([Change('+', 0)]);
    var asWritten := SelectOneAsWritten(temporal);
    assert k in asWritten && asWritten[k] == 1;
    OneStoredAdd(diff, asWritten, "c", "f", 8);
    OneStoredAdd(diff, temporal, "c", "f", 8);
  }
}
