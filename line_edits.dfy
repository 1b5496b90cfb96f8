/** The list edits of TUIDService._apply_diff: `add_one` inserts an entry
    and renumbers the entries after it, `remove_one` drops an entry and
    renumbers the entries after it, and the annotation is first sorted by
    line with Python's stable `list.sort`. Slices follow Python's rules,
    negative and out-of-range bounds included. */
module LineEdits {

  import opened TuidRecords

  /** The position a Python slice bound `k` denotes in a list of length `n`. */
  function SliceBound(k: int, n: nat): (b: nat)
    ensures b <= n
    ensures 0 <= k <= n ==> b == k
    ensures k > n ==> b == n
    ensures k < 0 ==> b == if k + n < 0 then 0 else k + n
  {
    if k < 0 then (if k + n < 0 then 0 else k + n)
    else if k > n then n
    else k
  }

  /** `xs[:k]` */
  function Take<T>(xs: seq<T>, k: int): seq<T> {
    xs[..SliceBound(k, |xs|)]
  }

  /** `xs[k:]` */
  function Drop<T>(xs: seq<T>, k: int): seq<T> {
    xs[SliceBound(k, |xs|)..]
  }

  /** `[TuidMap(m.tuid, m.line + delta) for m in xs]` */
  function Shift(xs: seq<TuidMap>, delta: int): (r: seq<TuidMap>)
    ensures |r| == |xs|
    ensures Tuids(r) == Tuids(xs)
  {
    seq(|xs|, i requires 0 <= i < |xs| => TuidMap(xs[i].tuid, xs[i].line + delta))
  }

  /** add_one: `lines[:p-1] + [t] + shifted(lines[p-1:], +1)` with `p = t.line`. */
  function AddOne(t: TuidMap, lines: seq<TuidMap>): seq<TuidMap> {
    Take(lines, t.line - 1) + [t] + Shift(Drop(lines, t.line - 1), 1)
  }

  /** remove_one: `lines[:p-1] + shifted(lines[p:], -1)`. */
  function RemoveOne(p: int, lines: seq<TuidMap>): seq<TuidMap> {
    Take(lines, p - 1) + Shift(Drop(lines, p), -1)
  }

  /** Inserting at line p (1 <= p <= n + 1) keeps the first p - 1 entries,
      puts the new entry at position p, and moves every later entry one line
      down with its TUID. */
  lemma AddOneShape(t: TuidMap, xs: seq<TuidMap>)
    requires 1 <= t.line <= |xs| + 1
    ensures var r := AddOne(t, xs);
      && |r| == |xs| + 1
      && r[..t.line - 1] == xs[..t.line - 1]
      && r[t.line - 1] == t
      && forall i :: t.line <= i < |r| ==> r[i] == TuidMap(xs[i - 1].tuid, xs[i - 1].line + 1)
  {
  }

  /** On an annotation numbered 1..n, inserting at 1 <= p <= n + 1 gives one
      numbered 1..n+1. */
  lemma AddOneNumbered(t: TuidMap, xs: seq<TuidMap>)
    requires Numbered(xs) && 1 <= t.line <= |xs| + 1
    ensures Numbered(AddOne(t, xs)) && |AddOne(t, xs)| == |xs| + 1
  {
    AddOneShape(t, xs);
  }

  /** Removing line p (1 <= p <= n) keeps the first p - 1 entries and moves
      every later entry one line up with its TUID. */
  lemma RemoveOneShape(p: int, xs: seq<TuidMap>)
    requires 1 <= p <= |xs|
    ensures var r := RemoveOne(p, xs);
      && |r| == |xs| - 1
      && r[..p - 1] == xs[..p - 1]
      && forall i :: p - 1 <= i < |r| ==> r[i] == TuidMap(xs[i + 1].tuid, xs[i + 1].line - 1)
  {
    assert Take(xs, p - 1) == xs[..p - 1];
    assert Drop(xs, p) == xs[p..];
  }

  /** On an annotation numbered 1..n, removing line 1 <= p <= n gives one
      numbered 1..n-1. */
  lemma RemoveOneNumbered(p: int, xs: seq<TuidMap>)
    requires Numbered(xs) && 1 <= p <= |xs|
    ensures Numbered(RemoveOne(p, xs)) && |RemoveOne(p, xs)| == |xs| - 1
  {
    RemoveOneShape(p, xs);
  }

  /** Removing a line past the end leaves the annotation as it is. */
  lemma RemoveOneBeyondEnd(p: int, xs: seq<TuidMap>)
    requires p > |xs|
    ensures RemoveOne(p, xs) == xs
  {
  }

  /** remove_one undoes add_one at the same line. */
  lemma RemoveOneUndoesAddOne(t: TuidMap, xs: seq<TuidMap>)
    requires 1 <= t.line <= |xs| + 1
    ensures RemoveOne(t.line, AddOne(t, xs)) == xs
  {
    var r := AddOne(t, xs);
    AddOneShape(t, xs);
    RemoveOneShape(t.line, r);
    assert RemoveOne(t.line, r) == xs;
  }

  lemma TuidsConcat(a: seq<TuidMap>, b: seq<TuidMap>)
    ensures Tuids(a + b) == Tuids(a) + Tuids(b)
  {
  }

  lemma MultisetInsert(a: seq<int>, x: int, b: seq<int>)
    ensures multiset(a + [x] + b) == multiset(a + b) + multiset{x}
  {
  }

  /** add_one adds exactly the new entry's TUID, whatever the line. */
  lemma AddOneTuids(t: TuidMap, xs: seq<TuidMap>)
    ensures multiset(Tuids(AddOne(t, xs))) == multiset(Tuids(xs)) + multiset{t.tuid}
  {
    var k := SliceBound(t.line - 1, |xs|);
    var front := xs[..k];
    var back := xs[k..];
    assert Tuids(xs) == Tuids(front) + Tuids(back) by {
      assert xs == front + back;
      TuidsConcat(front, back);
    }
    assert Tuids(AddOne(t, xs)) == Tuids(front) + [t.tuid] + Tuids(back) by {
      assert AddOne(t, xs) == front + [t] + Shift(back, 1);
      TuidsConcat(front + [t], Shift(back, 1));
      TuidsConcat(front, [t]);
    }
    MultisetInsert(Tuids(front), t.tuid, Tuids(back));
  }

  /** remove_one of an existing line drops exactly that line's TUID. */
  lemma RemoveOneTuids(p: int, xs: seq<TuidMap>)
    requires 1 <= p <= |xs|
    ensures multiset(Tuids(RemoveOne(p, xs))) == multiset(Tuids(xs)) - multiset{xs[p - 1].tuid}
  {
    var rest := Shift(xs[p..], -1);
    assert xs == xs[..p - 1] + [xs[p - 1]] + xs[p..];
    assert Tuids(xs) == Tuids(xs[..p - 1]) + [xs[p - 1].tuid] + Tuids(xs[p..]);
    assert Tuids(RemoveOne(p, xs)) == Tuids(xs[..p - 1]) + Tuids(rest);
  }

  // ---------------------------------------------------------------------
  // new_ann.sort(key=lambda x: x.line)

  ghost predicate SortedByLine(xs: seq<TuidMap>) {
    forall i, j :: 0 <= i < j < |xs| ==> xs[i].line <= xs[j].line
  }

  /** A bound below `x` and every entry of `s` is below every entry of a
      permutation of `s` plus `x`. */
  lemma LowerBound(r: seq<TuidMap>, s: seq<TuidMap>, x: TuidMap, b: int)
    requires multiset(r) == multiset(s) + multiset{x}
    requires b <= x.line && forall j :: 0 <= j < |s| ==> b <= s[j].line
    ensures forall k :: 0 <= k < |r| ==> b <= r[k].line
  {
    forall k | 0 <= k < |r|
      ensures b <= r[k].line
    {
      assert r[k] in multiset(r);
      if r[k] != x {
        assert r[k] in multiset(s);
        var j :| 0 <= j < |s| && s[j] == r[k];
      }
    }
  }

  /** The entries of `xs` on line `l`, in their order in `xs`. */
  function AtLine(xs: seq<TuidMap>, l: int): seq<TuidMap> {
    if |xs| == 0 then []
    else (if xs[0].line == l then [xs[0]] else []) + AtLine(xs[1..], l)
  }

  /** Inserts `x` before the first entry whose line is not smaller, so that
      `x` precedes the entries of equal line that came after it. */
  function InsertByLine(x: TuidMap, sorted: seq<TuidMap>): (r: seq<TuidMap>)
    requires SortedByLine(sorted)
    ensures SortedByLine(r)
    ensures multiset(r) == multiset(sorted) + multiset{x}
    ensures |r| == |sorted| + 1
  {
    if |sorted| == 0 || x.line <= sorted[0].line then [x] + sorted
    else
      var rest := InsertByLine(x, sorted[1..]);
      assert sorted == [sorted[0]] + sorted[1..];
      LowerBound(rest, sorted[1..], x, sorted[0].line);
      [sorted[0]] + rest
  }

  lemma AtLineCons(y: TuidMap, ys: seq<TuidMap>, l: int)
    ensures AtLine([y] + ys, l) == (if y.line == l then [y] else []) + AtLine(ys, l)
  {
    var s := [y] + ys;
    assert s[0] == y && s[1..] == ys;
  }

  /** The inserted entry goes before the entries of its line. */
  lemma {:induction false} InsertByLineAtLine(x: TuidMap, sorted: seq<TuidMap>, l: int)
    requires SortedByLine(sorted)
    ensures AtLine(InsertByLine(x, sorted), l) == (if x.line == l then [x] else []) + AtLine(sorted, l)
  {
    if |sorted| == 0 || x.line <= sorted[0].line {
      AtLineCons(x, sorted, l);
    } else {
      var s0, tail := sorted[0], sorted[1..];
      assert sorted == [s0] + tail;
      var rest := InsertByLine(x, tail);
      assert InsertByLine(x, sorted) == [s0] + rest;
      InsertByLineAtLine(x, tail, l);
      AtLineCons(s0, rest, l);
      AtLineCons(s0, tail, l);
    }
  }

  /** Python's sort of the annotation by line number. */
  function SortByLine(xs: seq<TuidMap>): (r: seq<TuidMap>)
    ensures SortedByLine(r)
    ensures multiset(r) == multiset(xs)
    ensures |r| == |xs|
  {
    if |xs| == 0 then []
    else
      assert xs == [xs[0]] + xs[1..];
      InsertByLine(xs[0], SortByLine(xs[1..]))
  }

  /** The sort is stable: the entries of each line keep their order. */
  lemma {:induction false} SortByLineStable(xs: seq<TuidMap>, l: int)
    ensures AtLine(SortByLine(xs), l) == AtLine(xs, l)
  {
    if |xs| > 0 {
      SortByLineStable(xs[1..], l);
      InsertByLineAtLine(xs[0], SortByLine(xs[1..]), l);
    }
  }

  /** An annotation already in line order is left as it is. */
  lemma {:induction false} SortByLineOfSorted(xs: seq<TuidMap>)
    requires SortedByLine(xs)
    ensures SortByLine(xs) == xs
  {
    if |xs| > 0 {
      SortByLineOfSorted(xs[1..]);
      assert xs == [xs[0]] + xs[1..];
    }
  }

  lemma NumberedIsSorted(xs: seq<TuidMap>)
    requires Numbered(xs)
    ensures SortedByLine(xs)
  {
  }
}
