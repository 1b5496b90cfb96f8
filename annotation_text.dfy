/** The text form of an annotation as stored in the `annotations` table:
    one line per entry, each line the entry's TUID and line number as
    decimal integers separated by a comma (TUIDService.stringify_tuids and
    TUIDService.destringify_tuids). */
module AnnotationText {

  import opened TuidRecords
  import opened PyText

  /** `','.join([str(x.tuid), str(x.line)])` */
  function EntryText(m: TuidMap): (s: string)
    ensures |s| > 0 && HasNoNewline(s) && ',' in s
  {
    var s := IntToString(m.tuid) + "," + IntToString(m.line);
    assert s[|IntToString(m.tuid)|] == ',';
    s
  }

  /** stringify_tuids: the entries' texts joined by line breaks. */
  function Stringify(xs: seq<TuidMap>): (s: string)
    ensures s == "" <==> xs == []
  {
    var entries := seq(|xs|, i requires 0 <= i < |xs| => EntryText(xs[i]));
    assert |xs| > 0 ==> Join(entries, '\n') != "" by {
      if |xs| > 0 {
        SplitLinesOfJoin(entries);
      }
    }
    Join(entries, '\n')
  }

  /** One line of the stored text: the first two comma-separated fields,
      with every single quote removed, must each be an integer literal;
      further fields are ignored. */
  function ParseEntry(line: string): Option<TuidMap> {
    var fields := SplitOn(line, ',');
    if |fields| < 2 then None
    else
      var tuid := ParseInt(RemoveChar(fields[0], '\''));
      var line := ParseInt(RemoveChar(fields[1], '\''));
      if tuid.Some? && line.Some? then Some(TuidMap(tuid.value, line.value)) else None
  }

  /** The values of a sequence of options, or `None` as soon as one is missing. */
  function AllPresent<T>(ps: seq<Option<T>>): (r: Option<seq<T>>)
    ensures r.None? <==> exists i :: 0 <= i < |ps| && ps[i].None?
    ensures r.Some? ==> |r.value| == |ps|
    ensures r.Some? ==> forall i :: 0 <= i < |ps| ==> Some(r.value[i]) == ps[i]
  {
    if |ps| == 0 then Some([])
    else
      var init := ps[..|ps| - 1];
      assert forall i :: 0 <= i < |init| ==> init[i] == ps[i];
      var values := AllPresent(init);
      var last := ps[|ps| - 1];
      if values.None? || last.None? then None
      else Some(values.value + [last.value])
  }

  /** Each line's own parse. */
  function ParsedLines(lines: seq<string>): (ps: seq<Option<TuidMap>>)
    ensures |ps| == |lines|
    ensures forall i :: 0 <= i < |lines| ==> ps[i] == ParseEntry(lines[i])
  {
    seq(|lines|, i requires 0 <= i < |lines| => ParseEntry(lines[i]))
  }

  /** All lines parsed in order; one line that does not parse spoils the lot. */
  function ParseLines(lines: seq<string>): (r: Option<seq<TuidMap>>)
    ensures r.None? <==> exists i :: 0 <= i < |lines| && ParseEntry(lines[i]).None?
    ensures r.Some? ==> |r.value| == |lines|
    ensures r.Some? ==> forall i :: 0 <= i < |lines| ==> Some(r.value[i]) == ParseEntry(lines[i])
  {
    AllPresent(ParsedLines(lines))
  }

  /** What destringify_tuids returns for the stored text. */
  function ParseAnnotation(text: string): Option<seq<TuidMap>> {
    ParseLines(SplitLines(text))
  }

  /** AllPresent of one more present value extends the values found so far. */
  lemma AllPresentExtend<T>(ps: seq<Option<T>>, i: int, prefix: seq<T>)
    requires 0 <= i < |ps| && ps[i].Some?
    requires AllPresent(ps[..i]) == Some(prefix)
    ensures AllPresent(ps[..i + 1]) == Some(prefix + [ps[i].value])
  {
    assert ps[..i + 1][..i] == ps[..i];
  }

  /** destringify_tuids: parse the stored text line by line, giving up with
      `None` at the first line that does not parse. */
  method Destringify(text: string) returns (r: Option<seq<TuidMap>>)
    ensures r == ParseAnnotation(text)
    ensures r.Some? ==> |r.value| == |SplitLines(text)|
  {
    var lines := SplitLines(text);
    ghost var parsed := ParsedLines(lines);
    var origins: seq<TuidMap> := [];
    var i := 0;
    while i < |lines|
      invariant 0 <= i <= |lines|
      invariant AllPresent(parsed[..i]) == Some(origins)
    {
      var entry := ParseEntry(lines[i]);
      if entry.None? {
        ParseLinesRejects(lines, i);
        return None;
      }
      AllPresentExtend(parsed, i, origins);
      origins := origins + [entry.value];
      i := i + 1;
    }
    assert parsed[..i] == parsed;
    return Some(origins);
  }

  /** One line that does not parse spoils the whole text. */
  lemma ParseLinesRejects(lines: seq<string>, i: int)
    requires 0 <= i < |lines| && ParseEntry(lines[i]).None?
    ensures ParseLines(lines) == None
  {
  }

  lemma ParseEntryText(m: TuidMap)
    ensures ParseEntry(EntryText(m)) == Some(m)
  {
    var a := IntToString(m.tuid);
    var b := IntToString(m.line);
    assert ',' !in a && ',' !in b by {
      assert forall i :: 0 <= i < |a| ==> a[i] != ',';
      assert forall i :: 0 <= i < |b| ==> b[i] != ',';
    }
    SplitOnTwoFields(a, b, ',');
    assert '\'' !in a && '\'' !in b by {
      assert forall i :: 0 <= i < |a| ==> a[i] != '\'';
      assert forall i :: 0 <= i < |b| ==> b[i] != '\'';
    }
    ParseIntOfIntToString(m.tuid);
    ParseIntOfIntToString(m.line);
  }

  /** Round trip: parsing what stringify_tuids stored gives back the list,
      the empty list included (it is stored as the empty text). */
  lemma StringifyRoundTrip(xs: seq<TuidMap>)
    ensures ParseAnnotation(Stringify(xs)) == Some(xs)
  {
    var entries := seq(|xs|, i requires 0 <= i < |xs| => EntryText(xs[i]));
    SplitLinesOfJoin(entries);
    assert SplitLines(Stringify(xs)) == entries;
    forall i | 0 <= i < |xs|
      ensures ParseEntry(entries[i]) == Some(xs[i])
    {
      ParseEntryText(xs[i]);
    }
    var r := ParseLines(entries);
    assert r.Some?;
    assert r.value == xs;
  }

  /** The stored text has one line per entry. */
  lemma StringifyLineCount(xs: seq<TuidMap>)
    ensures |SplitLines(Stringify(xs))| == |xs|
  {
    var entries := seq(|xs|, i requires 0 <= i < |xs| => EntryText(xs[i]));
    SplitLinesOfJoin(entries);
  }

  /** A line with fewer than two comma-separated fields spoils the text. */
  lemma MissingCommaRejected(text: string, i: int)
    requires 0 <= i < |SplitLines(text)| && ',' !in SplitLines(text)[i]
    ensures ParseAnnotation(text) == None
  {
    var line := SplitLines(text)[i];
    assert SplitOn(line, ',') == [line];
  }
}
