/** The handful of Python string operations the service relies on, written
    out with Python's semantics: `str(n)` for an integer, `int(s)` for a
    decimal literal, `s.split(',')`, `s.splitlines()`, `sep.join(parts)`,
    `s.lstrip('/')`, `s.replace(c, '')` and the 12-character revision prefix
    `s[:12]`. */
module PyText {

  import opened TuidRecords

  // ---------------------------------------------------------------------
  // Decimal digits

  predicate IsDigit(c: char) {
    '0' <= c <= '9'
  }

  predicate AllDigits(s: string) {
    forall i :: 0 <= i < |s| ==> IsDigit(s[i])
  }

  function DigitChar(d: nat): (c: char)
    requires d < 10
    ensures IsDigit(c)
  {
    "0123456789"[d]
  }

  function DigitValue(c: char): (d: nat)
    requires IsDigit(c)
    ensures d < 10
  {
    (c as int - '0' as int) as nat
  }

  lemma DigitRoundTrip(d: nat)
    requires d < 10
    ensures DigitValue(DigitChar(d)) == d
  {
    var digits := "0123456789";
    assert digits[d] as int == '0' as int + d by {
      assert digits[0] == '0' && digits[1] == '1' && digits[2] == '2' && digits[3] == '3';
      assert digits[4] == '4' && digits[5] == '5' && digits[6] == '6';
      assert digits[7] == '7' && digits[8] == '8' && digits[9] == '9';
    }
  }

  /** The value of a string of decimal digits, most significant first. */
  function DigitsValue(s: string): nat
    requires AllDigits(s)
  {
    if |s| == 0 then 0
    else DigitsValue(s[..|s| - 1]) * 10 + DigitValue(s[|s| - 1])
  }

  /** `str(n)` for n >= 0: no sign, no leading zeros. */
  function NatToString(n: nat): (s: string)
    ensures |s| > 0 && AllDigits(s)
  {
    if n < 10 then [DigitChar(n)]
    else NatToString(n / 10) + [DigitChar(n % 10)]
  }

  /** `str(n)` for any integer: a minus sign in front of a negative value. */
  function IntToString(n: int): (s: string)
    ensures |s| > 0
    ensures forall i :: 0 <= i < |s| ==> IsDigit(s[i]) || (i == 0 && s[i] == '-')
  {
    if n < 0 then "-" + NatToString(-n) else NatToString(n)
  }

  lemma {:induction false} NatToStringValue(n: nat)
    ensures DigitsValue(NatToString(n)) == n
  {
    var s := NatToString(n);
    if n < 10 {
      DigitRoundTrip(n);
    } else {
      NatToStringValue(n / 10);
      DigitRoundTrip(n % 10);
      assert s[..|s| - 1] == NatToString(n / 10);
    }
  }

  // ---------------------------------------------------------------------
  // int(s)

  /** The characters Python's `int()` ignores around a literal. */
  predicate IsSpace(c: char) {
    c == ' ' || c == '\t' || c == '\n' || c == '\r' || c == '\U{000B}' || c == '\U{000C}'
  }

  function StripLeft(s: string): (r: string)
    ensures |r| <= |s|
  {
    if |s| > 0 && IsSpace(s[0]) then StripLeft(s[1..]) else s
  }

  function StripRight(s: string): (r: string)
    ensures |r| <= |s|
  {
    if |s| > 0 && IsSpace(s[|s| - 1]) then StripRight(s[..|s| - 1]) else s
  }

  /** `s.strip()` */
  function Strip(s: string): string {
    StripRight(StripLeft(s))
  }

  /** `int(s)` in base 10: optional surrounding white space, an optional
      sign, then at least one digit; anything else is a ValueError, here
      `None`. */
  function ParseInt(s: string): Option<int> {
    var t := Strip(s);
    var negative := |t| > 0 && t[0] == '-';
    var body := if |t| > 0 && (t[0] == '-' || t[0] == '+') then t[1..] else t;
    if |body| > 0 && AllDigits(body) then
      Some(if negative then -(DigitsValue(body) as int) else DigitsValue(body) as int)
    else None
  }

  lemma StripUnpadded(s: string)
    requires |s| > 0 && !IsSpace(s[0]) && !IsSpace(s[|s| - 1])
    ensures Strip(s) == s
  {
  }

  lemma ParseIntOfDigits(s: string)
    requires |s| > 0 && AllDigits(s)
    ensures ParseInt(s) == Some(DigitsValue(s) as int)
  {
    StripUnpadded(s);
  }

  lemma ParseIntOfNegatedDigits(s: string)
    requires |s| > 0 && AllDigits(s)
    ensures ParseInt("-" + s) == Some(-(DigitsValue(s) as int))
  {
    var t := "-" + s;
    assert t[0] == '-' && t[1..] == s;
    assert t[|t| - 1] == s[|s| - 1] && IsDigit(s[|s| - 1]);
    StripUnpadded(t);
    assert Strip(t) == t;
  }

  /** `int(str(n)) == n` */
  lemma ParseIntOfIntToString(n: int)
    ensures ParseInt(IntToString(n)) == Some(n)
  {
    var m: nat := if n < 0 then -n else n;
    var s := NatToString(m);
    NatToStringValue(m);
    if n < 0 {
      ParseIntOfNegatedDigits(s);
    } else {
      ParseIntOfDigits(s);
    }
    assert IntToString(n) == if n < 0 then "-" + s else s;
  }

  // ---------------------------------------------------------------------
  // replace, split, splitlines, join, lstrip, [:12]

  /** `s.replace(c, '')` */
  function RemoveChar(s: string, c: char): (r: string)
    ensures c !in r
    ensures c !in s ==> r == s
  {
    if |s| == 0 then ""
    else (if s[0] == c then "" else [s[0]]) + RemoveChar(s[1..], c)
  }

  /** `replace(c, '')` works character by character: over a concatenation
      it is the concatenation of the parts, a single `c` is dropped and any
      other character is kept. */
  lemma {:induction false} RemoveCharConcat(a: string, b: string, c: char)
    ensures RemoveChar(a + b, c) == RemoveChar(a, c) + RemoveChar(b, c)
    ensures forall x :: RemoveChar([x], c) == if x == c then "" else [x]
  {
    if |a| > 0 {
      assert (a + b)[1..] == a[1..] + b;
      RemoveCharConcat(a[1..], b, c);
    } else {
      assert a + b == b;
    }
    forall x
      ensures RemoveChar([x], c) == if x == c then "" else [x]
    {
      assert [x][1..] == "";
    }
  }

  function FirstIndex(s: string, c: char): (i: nat)
    requires c in s
    ensures i < |s| && s[i] == c && c !in s[..i]
  {
    if s[0] == c then 0
    else
      var j := FirstIndex(s[1..], c);
      assert s[1..][..j] == s[1..j + 1];
      1 + j
  }

  /** `s.split(sep)`: always at least one field; an empty string gives `[""]`. */
  function SplitOn(s: string, sep: char): (r: seq<string>)
    ensures |r| >= 1
    ensures forall i :: 0 <= i < |r| ==> sep !in r[i]
    decreases |s|
  {
    if sep in s then
      var i := FirstIndex(s, sep);
      [s[..i]] + SplitOn(s[i + 1..], sep)
    else [s]
  }

  lemma SplitOnTwoFields(a: string, b: string, sep: char)
    requires sep !in a && sep !in b
    ensures SplitOn(a + [sep] + b, sep) == [a, b]
  {
    var s := a + [sep] + b;
    assert s[|a|] == sep;
    assert s[..|a|] == a;
    assert forall j :: 0 <= j < |a| ==> s[j] == a[j];
    var i := FirstIndex(s, sep);
    assert i == |a|;
    assert s[i + 1..] == b;
  }

  /** The line breaks `str.splitlines()` recognises in this model. */
  predicate IsNewline(c: char) {
    c == '\n' || c == '\r'
  }

  function FirstNewline(s: string): (i: nat)
    ensures i <= |s|
    ensures forall j :: 0 <= j < i ==> !IsNewline(s[j])
    ensures i < |s| ==> IsNewline(s[i])
  {
    if |s| == 0 || IsNewline(s[0]) then 0
    else 1 + FirstNewline(s[1..])
  }

  /** `s.splitlines()`: "\n", "\r" and "\r\n" end a line; a final line break
      does not start a new (empty) line, and the empty string has no lines. */
  function SplitLines(s: string): (r: seq<string>)
    ensures |s| > 0 ==> |r| > 0
    decreases |s|
  {
    if |s| == 0 then []
    else
      var i := FirstNewline(s);
      if i == |s| then [s]
      else
        var width := if s[i] == '\r' && i + 1 < |s| && s[i + 1] == '\n' then 2 else 1;
        [s[..i]] + SplitLines(s[i + width..])
  }

  /** `sep.join(parts)` */
  function Join(parts: seq<string>, sep: char): string {
    if |parts| == 0 then ""
    else if |parts| == 1 then parts[0]
    else parts[0] + [sep] + Join(parts[1..], sep)
  }

  predicate HasNoNewline(s: string) {
    forall i :: 0 <= i < |s| ==> !IsNewline(s[i])
  }

  lemma {:induction false} SplitLinesOfJoin(parts: seq<string>)
    requires forall i :: 0 <= i < |parts| ==> |parts[i]| > 0 && HasNoNewline(parts[i])
    ensures SplitLines(Join(parts, '\n')) == parts
  {
    if |parts| == 0 {
    } else if |parts| == 1 {
      assert FirstNewline(parts[0]) == |parts[0]|;
    } else {
      var p := parts[0];
      var rest := Join(parts[1..], '\n');
      var s := p + ['\n'] + rest;
      assert forall j :: 0 <= j < |p| ==> s[j] == p[j];
      assert s[|p|] == '\n';
      assert FirstNewline(s) == |p|;
      assert s[..|p|] == p;
      assert s[|p| + 1..] == rest;
      SplitLinesOfJoin(parts[1..]);
    }
  }

  /** `s.lstrip(c)` */
  function LStrip(s: string, c: char): (r: string)
    ensures |r| == 0 || r[0] != c
    ensures |r| <= |s|
  {
    if |s| > 0 && s[0] == c then LStrip(s[1..], c) else s
  }

  /** `lstrip` removes exactly the leading run of `c`: what is left is a
      suffix of `s`, and everything before it is `c`. */
  lemma {:induction false} LStripDropsLeading(s: string, c: char)
    ensures var r := LStrip(s, c);
      && r == s[|s| - |r|..]
      && forall i :: 0 <= i < |s| - |r| ==> s[i] == c
  {
    if |s| > 0 && s[0] == c {
      LStripDropsLeading(s[1..], c);
      var r := LStrip(s, c);
      assert s[1..][|s| - 1 - |r|..] == s[|s| - |r|..];
      forall i | 0 <= i < |s| - |r|
        ensures s[i] == c
      {
        if i > 0 {
          assert s[1..][i - 1] == s[i];
        }
      }
    }
  }

  /** `s[:12]`, the short form of a revision hash. */
  function Short(s: string): (r: string)
    ensures |r| == if |s| < 12 then |s| else 12
    ensures r == s[..|r|]
  {
    if |s| <= 12 then s else s[..12]
  }
}
