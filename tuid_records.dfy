/** Records shared by the whole model of the TUID service: the (tuid, line)
    pair that an annotation is made of, the key of the `temporal` table and
    a row of it, and a few sequence helpers. */
module TuidRecords {

  datatype Option<T> = None | Some(value: T)

  /** One line of an annotation: the line's TUID and its 1-based line number. */
  datatype TuidMap = TuidMap(tuid: int, line: int)

  /** Key of the `temporal` table, unique by its index on (revision, file, line). */
  datatype Key = Key(revision: string, file: string, line: int)

  /** A row of the `temporal` table. */
  datatype Row = Row(tuid: int, key: Key)

  /** An annotation is numbered when its i-th entry carries line i + 1. */
  ghost predicate Numbered(xs: seq<TuidMap>) {
    forall i :: 0 <= i < |xs| ==> xs[i].line == i + 1
  }

  /** The TUIDs of an annotation, in order. */
  function Tuids(xs: seq<TuidMap>): (r: seq<int>)
    ensures |r| == |xs|
    ensures forall i :: 0 <= i < |xs| ==> r[i] == xs[i].tuid
  {
    seq(|xs|, i requires 0 <= i < |xs| => xs[i].tuid)
  }

  ghost predicate NoDup<T>(s: seq<T>) {
    forall i, j :: 0 <= i < j < |s| ==> s[i] != s[j]
  }

  /** Keeps the first occurrence of every element, in order. */
  function Dedup<T(==,!new)>(s: seq<T>): (r: seq<T>)
    ensures NoDup(r)
    ensures forall x :: x in r <==> x in s
    ensures |r| <= |s|
  {
    if |s| == 0 then []
    else
      var init := Dedup(s[..|s| - 1]);
      var last := s[|s| - 1];
      assert forall x :: x in s <==> x in s[..|s| - 1] || x == last by {
        assert s == s[..|s| - 1] + [last];
      }
      if last in init then init else init + [last]
  }

  /** The rows as a map from key to tuid; a later row for the same key wins. */
  function RowsToMap(rows: seq<Row>): (m: map<Key, int>)
    ensures forall k :: k in m <==> exists i :: 0 <= i < |rows| && rows[i].key == k
    ensures forall k :: k in m ==> exists i :: 0 <= i < |rows| && rows[i].key == k && rows[i].tuid == m[k]
  {
    if |rows| == 0 then map[]
    else
      var m := RowsToMap(rows[..|rows| - 1]);
      var last := rows[|rows| - 1];
      assert forall i :: 0 <= i < |rows| - 1 ==> rows[..|rows| - 1][i] == rows[i];
      m[last.key := last.tuid]
  }
}
