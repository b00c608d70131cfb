/**
 * The string primitives the extractor and decoder lean on: Python's notion of
 * whitespace, `str.replace`, `str.strip`, `int()` on decimal text, and
 * `str.join`.  Strings are sequences of Unicode code points.
 */
module Text {
  import opened Wrappers

  /** The non-breaking space, U+00A0 (`'\xa0'` in the program). */
  const Nbsp: char := '\U{A0}'

  /** The characters for which Python's `str.isspace()` holds. */
  predicate IsSpace(c: char) {
    || ('\t' <= c <= '\r')
    || ('\U{1C}' <= c <= '\U{1F}')
    || c == ' '
    || c == '\U{85}'
    || c == Nbsp
    || c == '\U{1680}'
    || ('\U{2000}' <= c <= '\U{200A}')
    || c == '\U{2028}'
    || c == '\U{2029}'
    || c == '\U{202F}'
    || c == '\U{205F}'
    || c == '\U{3000}'
  }

  predicate AllSpace(s: string) {
    forall i :: 0 <= i < |s| ==> IsSpace(s[i])
  }

  /** Drops the leading whitespace: what remains is a suffix that does not start with whitespace. */
  function TrimStart(s: string): (r: string)
    ensures |r| <= |s| && r == s[|s| - |r|..]
    ensures AllSpace(s[..|s| - |r|])
    ensures |r| > 0 ==> !IsSpace(r[0])
  {
    if |s| > 0 && IsSpace(s[0]) then TrimStart(s[1..]) else s
  }

  /** Drops the trailing whitespace: what remains is a prefix that does not end with whitespace. */
  function TrimEnd(s: string): (r: string)
    ensures |r| <= |s| && r == s[..|r|]
    ensures AllSpace(s[|r|..])
    ensures |r| > 0 ==> !IsSpace(r[|r| - 1])
  {
    if |s| > 0 && IsSpace(s[|s| - 1]) then TrimEnd(s[..|s| - 1]) else s
  }

  /**
   * `r` is `s` with its whitespace margins removed: `r` sits at offset `i` of
   * `s`, everything around it is whitespace, and `r` itself has no whitespace
   * at either end.
   */
  predicate IsStripOf(s: string, r: string, i: int) {
    && 0 <= i <= i + |r| <= |s|
    && r == s[i..i + |r|]
    && (forall k :: 0 <= k < i ==> IsSpace(s[k]))
    && (forall k :: i + |r| <= k < |s| ==> IsSpace(s[k]))
    && (|r| > 0 ==> !IsSpace(r[0]) && !IsSpace(r[|r| - 1]))
  }

  /** Python's `str.strip()` with no argument. */
  function Strip(s: string): (r: string)
    ensures exists i :: IsStripOf(s, r, i)
  {
    var t := TrimStart(s);
    var r := TrimEnd(t);
    TrimmedIsStrip(s, t, r);
    r
  }

  /** Trimming the start and then the end of `s` leaves its strip. */
  lemma TrimmedIsStrip(s: string, t: string, r: string)
    requires |t| <= |s| && t == s[|s| - |t|..] && AllSpace(s[..|s| - |t|])
    requires |t| > 0 ==> !IsSpace(t[0])
    requires |r| <= |t| && r == t[..|r|] && AllSpace(t[|r|..])
    requires |r| > 0 ==> !IsSpace(r[|r| - 1])
    ensures IsStripOf(s, r, |s| - |t|)
  {
    var i := |s| - |t|;
    assert s[i..i + |r|] == t[..|r|];
    assert forall k :: 0 <= k < i ==> s[k] == s[..i][k];
    assert forall k :: i + |r| <= k < |s| ==> s[k] == t[|r|..][k - i - |r|];
  }

  /** There is only one way to strip a string, so `Strip` is the unique strip. */
  lemma StripUnique(s: string, r1: string, i1: int, r2: string, i2: int)
    requires IsStripOf(s, r1, i1) && IsStripOf(s, r2, i2)
    ensures r1 == r2
  {
    if |r1| > 0 && |r2| > 0 {
      assert s[i1] == r1[0] && s[i2] == r2[0];
      assert s[i1 + |r1| - 1] == r1[|r1| - 1] && s[i2 + |r2| - 1] == r2[|r2| - 1];
    }
  }

  /** A string with no whitespace at its ends strips to itself. */
  lemma StripKeepsTrimmed(s: string)
    requires |s| > 0 ==> !IsSpace(s[0]) && !IsSpace(s[|s| - 1])
    ensures Strip(s) == s
  {
    var i :| IsStripOf(s, Strip(s), i);
    assert IsStripOf(s, s, 0);
    StripUnique(s, Strip(s), i, s, 0);
  }

  /** Python's `str.replace(from, to)` for single characters. */
  function ReplaceChar(s: string, from: char, to: char): (r: string)
    ensures |r| == |s|
    ensures forall i :: 0 <= i < |s| ==> r[i] == (if s[i] == from then to else s[i])
  {
    if |s| == 0 then "" else [if s[0] == from then to else s[0]] + ReplaceChar(s[1..], from, to)
  }

  /** Replacing a character that does not occur changes nothing. */
  lemma ReplaceAbsentChar(s: string, from: char, to: char)
    requires forall k :: 0 <= k < |s| ==> s[k] != from
    ensures ReplaceChar(s, from, to) == s
  {
    var r := ReplaceChar(s, from, to);
    assert forall k :: 0 <= k < |s| ==> r[k] == s[k];
  }

  /** A finished cell: no non-breaking space anywhere, no whitespace at either end. */
  predicate IsCleanCell(c: string) {
    && (forall i :: 0 <= i < |c| ==> c[i] != Nbsp)
    && (|c| > 0 ==> !IsSpace(c[0]) && !IsSpace(c[|c| - 1]))
  }

  /** The text a table cell contributes: `buffer.replace('\xa0', ' ').strip()`. */
  function CellText(buffer: string): (r: string)
    ensures IsCleanCell(r)
  {
    var spaced := ReplaceChar(buffer, Nbsp, ' ');
    var r := Strip(spaced);
    StripKeepsNoNbsp(spaced, r);
    r
  }

  /** A strip is a slice, so it has no non-breaking space when the stripped text has none. */
  lemma StripKeepsNoNbsp(s: string, r: string)
    requires forall k :: 0 <= k < |s| ==> s[k] != Nbsp
    requires exists i :: IsStripOf(s, r, i)
    ensures forall k :: 0 <= k < |r| ==> r[k] != Nbsp
  {
    var i :| IsStripOf(s, r, i);
    assert forall k :: 0 <= k < |r| ==> r[k] == s[i + k];
  }

  /** A cell is the buffer, non-breaking spaces made plain, with its whitespace margins cut off. */
  lemma CellTextIsStrip(buffer: string)
    ensures exists i :: IsStripOf(ReplaceChar(buffer, Nbsp, ' '), CellText(buffer), i)
  {
    var spaced := ReplaceChar(buffer, Nbsp, ' ');
    assert CellText(buffer) == Strip(spaced);
  }

  /** Normalising a finished cell again changes nothing. */
  lemma CellTextIdempotent(buffer: string)
    ensures CellText(CellText(buffer)) == CellText(buffer)
  {
    CleanCellIsFixed(CellText(buffer));
  }

  /** A finished cell is its own normal form. */
  lemma CleanCellIsFixed(c: string)
    requires IsCleanCell(c)
    ensures CellText(c) == c
  {
    ReplaceAbsentChar(c, Nbsp, ' ');
    StripKeepsTrimmed(c);
  }

  // ---------------------------------------------------------------- integers

  predicate IsDigit(c: char) {
    '0' <= c <= '9'
  }

  predicate AllDigits(s: string) {
    forall i :: 0 <= i < |s| ==> IsDigit(s[i])
  }

  function DigitValue(c: char): nat
    requires IsDigit(c)
  {
    c as int - '0' as int
  }

  /** The value of a run of decimal digits, most significant first. */
  function DigitsValue(s: string): nat
    requires AllDigits(s)
  {
    if |s| == 0 then 0 else DigitsValue(s[..|s| - 1]) * 10 + DigitValue(s[|s| - 1])
  }

  /** The integer literals the model accepts: an optional sign and at least one ASCII digit. */
  predicate IsIntLiteral(t: string) {
    && |t| > 0
    && if t[0] == '+' || t[0] == '-' then |t| > 1 && AllDigits(t[1..]) else AllDigits(t)
  }

  /**
   * The information separators U+001C to U+001F.  `str.isspace()` holds for
   * them, but `int()` trims only ASCII whitespace among the characters below
   * U+007F, so around a number they are not trimmed and spoil it.
   */
  predicate IsSeparator(c: char) {
    '\U{1C}' <= c <= '\U{1F}'
  }

  predicate HasSeparator(s: string) {
    exists k :: 0 <= k < |s| && IsSeparator(s[k])
  }

  /** The whitespace `int()` trims: that of `str.isspace()` without the separators. */
  predicate AllIntSpace(s: string) {
    forall i :: 0 <= i < |s| ==> IsSpace(s[i]) && !IsSeparator(s[i])
  }

  /**
   * Python's `int(s)`: surrounding whitespace is ignored, and text that is not
   * an integer literal is the `ValueError` case, here `None`.  A literal holds
   * no separator, so a separator anywhere, in the margins included, is that
   * case too.
   */
  function ParseInt(s: string): (r: Option<int>)
    ensures r.Some? <==> IsIntLiteral(Strip(s)) && !HasSeparator(s)
  {
    if HasSeparator(s) then None else LiteralValue(Strip(s))
  }

  /** An integer literal with nothing around it, read with its sign; anything else is `None`. */
  function LiteralValue(t: string): (r: Option<int>)
    ensures r.Some? <==> IsIntLiteral(t)
  {
    if |t| == 0 then None
    else if t[0] == '+' || t[0] == '-' then
      if |t| > 1 && AllDigits(t[1..]) then
        var v: int := DigitsValue(t[1..]);
        Some(if t[0] == '-' then -v else v)
      else None
    else if AllDigits(t) then Some(DigitsValue(t))
    else None
  }

  function DigitChar(d: nat): (c: char)
    requires d < 10
    ensures IsDigit(c) && DigitValue(c) == d
  {
    ('0' as int + d) as char
  }

  /** Decimal text of a natural number. */
  function NatToString(n: nat): (r: string)
    ensures |r| > 0 && AllDigits(r) && DigitsValue(r) == n
  {
    if n < 10 then [DigitChar(n)]
    else
      var r := NatToString(n / 10) + [DigitChar(n % 10)];
      assert r[..|r| - 1] == NatToString(n / 10);
      r
  }

  /** Python's `str(n)` for an integer: a minus sign for negatives, then the digits. */
  function IntToString(n: int): (r: string)
    ensures IsIntLiteral(r) && r[0] != '+'
  {
    if n < 0 then "-" + NatToString(-n) else NatToString(n)
  }

  /** Whitespace padding around text with no whitespace at its ends is exactly what a strip removes. */
  lemma StripPadded(before: string, t: string, after: string)
    requires AllSpace(before) && AllSpace(after)
    requires |t| > 0 ==> !IsSpace(t[0]) && !IsSpace(t[|t| - 1])
    ensures Strip(before + t + after) == t
  {
    var s := before + t + after;
    assert s[..|before|] == before;
    assert s[|before|..|before| + |t|] == t;
    assert s[|before| + |t|..] == after;
    assert IsStripOf(s, t, |before|);
    var i :| IsStripOf(s, Strip(s), i);
    StripUnique(s, Strip(s), i, t, |before|);
  }

  /** Reading back the text of an integer, padded with whitespace `int()` trims, gives the integer. */
  lemma ParseIntRoundTrip(n: int, before: string, after: string)
    requires AllIntSpace(before) && AllIntSpace(after)
    ensures ParseInt(before + IntToString(n) + after) == Some(n)
  {
    var lit := IntToString(n);
    assert !HasSeparator(before + lit + after) by {
      LiteralHasNoSeparator(lit);
      PaddedHasNoSeparator(before, lit, after);
    }
    StripPadded(before, lit, after);
    if n < 0 {
      assert lit[1..] == NatToString(-n);
    }
  }

  /** Text without separators, padded with whitespace `int()` trims, has no separator. */
  lemma PaddedHasNoSeparator(before: string, t: string, after: string)
    requires AllIntSpace(before) && AllIntSpace(after) && !HasSeparator(t)
    ensures !HasSeparator(before + t + after)
  {
    var s := before + t + after;
    forall k | 0 <= k < |s|
      ensures !IsSeparator(s[k])
    {
      if k < |before| {
        assert s[k] == before[k];
      } else if k < |before| + |t| {
        assert s[k] == t[k - |before|];
      } else {
        assert s[k] == after[k - |before| - |t|];
      }
    }
  }

  /** An integer literal is made of a sign and digits, so it holds no separator. */
  lemma LiteralHasNoSeparator(t: string)
    requires IsIntLiteral(t)
    ensures !HasSeparator(t)
  {
    forall k | 0 <= k < |t|
      ensures !IsSeparator(t[k])
    {
      if k > 0 && (t[0] == '+' || t[0] == '-') {
        assert t[k] == t[1..][k - 1];
      }
    }
  }

  /** A separator before the text of an integer makes `int()` fail, although `str.isspace()` holds for it. */
  lemma SeparatorPaddingFails(n: int, before: string, after: string)
    requires HasSeparator(before)
    ensures ParseInt(before + IntToString(n) + after) == None
  {
    var k :| 0 <= k < |before| && IsSeparator(before[k]);
    assert (before + IntToString(n) + after)[k] == before[k];
  }

  /** `k` zero digits. */
  function Zeros(k: nat): (z: string)
    ensures |z| == k && AllDigits(z)
  {
    seq(k, _ => '0')
  }

  /** Leading zeros do not change the value of a run of digits. */
  lemma {:induction false} LeadingZerosValue(k: nat, d: string)
    requires AllDigits(d)
    ensures AllDigits(Zeros(k) + d) && DigitsValue(Zeros(k) + d) == DigitsValue(d)
  {
    var z := Zeros(k) + d;
    assert AllDigits(z) by {
      forall i | 0 <= i < |z|
        ensures IsDigit(z[i])
      {
        if i >= k {
          assert z[i] == d[i - k];
        }
      }
    }
    if |d| == 0 {
      assert z == Zeros(k);
      ZerosValue(k);
    } else {
      var front := d[..|d| - 1];
      assert z[..|z| - 1] == Zeros(k) + front;
      LeadingZerosValue(k, front);
    }
  }

  lemma {:induction false} ZerosValue(k: nat)
    ensures DigitsValue(Zeros(k)) == 0
  {
    if k > 0 {
      assert Zeros(k)[..k - 1] == Zeros(k - 1);
      ZerosValue(k - 1);
    }
  }

  /**
   * Every spelling `int()` accepts has the value it spells: an optional sign,
   * any number of leading zeros and the digits of `n`, padded with whitespace
   * `int()` trims, read as `n`, or `-n` after a minus sign.
   */
  lemma ParseIntOfLiteral(before: string, sign: string, k: nat, n: nat, after: string)
    requires sign == "" || sign == "+" || sign == "-"
    requires AllIntSpace(before) && AllIntSpace(after)
    ensures ParseInt(before + sign + Zeros(k) + NatToString(n) + after) == Some(if sign == "-" then -(n as int) else n)
  {
    PaddedLiteral(before, sign, k, n, after);
    ParseIntOfSigned(before + sign + Zeros(k) + NatToString(n) + after, sign, Zeros(k) + NatToString(n), n);
  }

  /** The padded literal strips to its sign and digits, holds no separator, and its digits are worth `n`. */
  lemma PaddedLiteral(before: string, sign: string, k: nat, n: nat, after: string)
    requires sign == "" || sign == "+" || sign == "-"
    requires AllIntSpace(before) && AllIntSpace(after)
    ensures var digits := Zeros(k) + NatToString(n);
      && AllDigits(digits) && |digits| > 0 && DigitsValue(digits) == n
      && !HasSeparator(before + sign + Zeros(k) + NatToString(n) + after)
      && Strip(before + sign + Zeros(k) + NatToString(n) + after) == sign + digits
  {
    var digits := Zeros(k) + NatToString(n);
    assert AllDigits(digits) && |digits| > 0 && DigitsValue(digits) == n by {
      LeadingZerosValue(k, NatToString(n));
    }
    var lit := sign + digits;
    Regroup(before, sign, Zeros(k), NatToString(n), after);
    assert IsIntLiteral(lit) && IsDigit(lit[|lit| - 1]) by {
      assert lit[|lit| - 1] == digits[|digits| - 1];
      if sign != "" {
        assert lit[1..] == digits;
      }
    }
    assert !HasSeparator(before + lit + after) by {
      LiteralHasNoSeparator(lit);
      PaddedHasNoSeparator(before, lit, after);
    }
    StripPadded(before, lit, after);
  }

  lemma Regroup(a: string, b: string, c: string, d: string, e: string)
    ensures a + b + c + d + e == a + (b + (c + d)) + e
  {
  }

  /** Text that strips to a sign and digits worth `n` parses to `n` with that sign. */
  lemma ParseIntOfSigned(s: string, sign: string, digits: string, n: nat)
    requires sign == "" || sign == "+" || sign == "-"
    requires AllDigits(digits) && |digits| > 0 && DigitsValue(digits) == n
    requires !HasSeparator(s) && Strip(s) == sign + digits
    ensures ParseInt(s) == Some(if sign == "-" then -(n as int) else n)
  {
    SignedLiteralValue(sign, digits);
  }

  lemma SignedLiteralValue(sign: string, digits: string)
    requires sign == "" || sign == "+" || sign == "-"
    requires AllDigits(digits) && |digits| > 0
    ensures LiteralValue(sign + digits) == Some(if sign == "-" then -(DigitsValue(digits) as int) else DigitsValue(digits))
  {
    var t := sign + digits;
    if sign == "" {
      assert t == digits && IsDigit(t[0]);
    } else {
      assert t[0] == sign[0] && t[1..] == digits;
    }
  }

  /** The text of an integer reads back as that integer. */
  lemma ParseIntOfIntToString(n: int)
    ensures ParseInt(IntToString(n)) == Some(n)
  {
    var m: nat := if n < 0 then -n else n;
    var sign := if n < 0 then "-" else "";
    assert IntToString(n) == "" + sign + Zeros(0) + NatToString(m) + "" by {
      Unpadded(sign, Zeros(0), NatToString(m));
    }
    ParseIntOfLiteral("", sign, 0, m, "");
  }

  lemma Unpadded(sign: string, zeros: string, digits: string)
    requires zeros == []
    ensures "" + sign + zeros + digits + "" == sign + digits
  {
  }

  // ---------------------------------------------------------------- joining

  /** Python's `''.join(parts)`: every part fits in the result, which starts with the first part. */
  function Concat(parts: seq<string>): (r: string)
    ensures |parts| > 0 ==> parts[0] <= r
    ensures forall i :: 0 <= i < |parts| ==> |parts[i]| <= |r|
  {
    if |parts| == 0 then "" else Concat(parts[..|parts| - 1]) + parts[|parts| - 1]
  }

  /** Joining one-character strings gives one character per part, in order. */
  lemma {:induction false} ConcatOfSingles(parts: seq<string>)
    requires forall i :: 0 <= i < |parts| ==> |parts[i]| == 1
    ensures |Concat(parts)| == |parts|
    ensures forall i :: 0 <= i < |parts| ==> Concat(parts)[i] == parts[i][0]
  {
    if |parts| > 0 {
      var front := parts[..|parts| - 1];
      assert forall i :: 0 <= i < |front| ==> front[i] == parts[i];
      ConcatOfSingles(front);
    }
  }

  /** Python's `'\n'.join(lines)`: separators between lines, none after the last. */
  function JoinLines(lines: seq<string>): (r: string)
    ensures |lines| == 0 ==> r == ""
    ensures |lines| > 0 ==> |r| >= |lines| - 1
  {
    if |lines| == 0 then ""
    else if |lines| == 1 then lines[0]
    else lines[0] + "\n" + JoinLines(lines[1..])
  }

  /** The joined text starts with the first line. */
  lemma JoinLinesStartsWithFirst(lines: seq<string>)
    requires |lines| > 0
    ensures lines[0] <= JoinLines(lines)
  {
  }

  /** Where column `c` of line `k` lands when every line is `w` characters wide. */
  function Offset(k: int, c: int, w: int): int {
    k * (w + 1) + c
  }

  /** Every line is exactly `w` characters wide. */
  predicate SameWidth(lines: seq<string>, w: nat) {
    forall k :: 0 <= k < |lines| ==> |lines[k]| == w
  }

  lemma {:induction false} JoinLinesLength(lines: seq<string>, w: nat)
    requires |lines| > 0 && SameWidth(lines, w)
    ensures |JoinLines(lines)| == Offset(|lines| - 1, w, w)
  {
    if |lines| > 1 {
      JoinLinesLength(lines[1..], w);
      OffsetStep(|lines| - 1, w, w);
    }
  }

  lemma {:induction false} JoinLinesCell(lines: seq<string>, w: nat, k: int, c: int)
    requires |lines| > 0 && SameWidth(lines, w)
    requires 0 <= k < |lines| && 0 <= c < w
    ensures Offset(k, c, w) < |JoinLines(lines)|
    ensures JoinLines(lines)[Offset(k, c, w)] == lines[k][c]
  {
    JoinLinesLength(lines, w);
    if k > 0 {
      JoinLinesCell(lines[1..], w, k - 1, c);
      OffsetStep(k, c, w);
    }
  }

  lemma {:induction false} JoinLinesBreak(lines: seq<string>, w: nat, k: int)
    requires |lines| > 0 && SameWidth(lines, w)
    requires 0 <= k < |lines| - 1
    ensures Offset(k, w, w) < |JoinLines(lines)|
    ensures JoinLines(lines)[Offset(k, w, w)] == '\n'
  {
    JoinLinesLength(lines, w);
    if k > 0 {
      JoinLinesBreak(lines[1..], w, k - 1);
      OffsetStep(k, w, w);
    }
  }

  /**
   * When every line has the same width `w`, line `k` starts at `k * (w + 1)`
   * of the joined text and a newline follows each line but the last.
   */
  lemma JoinLinesLayout(lines: seq<string>, w: nat)
    requires |lines| > 0 && SameWidth(lines, w)
    ensures |JoinLines(lines)| == Offset(|lines| - 1, w, w)
    ensures forall k, c :: 0 <= k < |lines| && 0 <= c < w ==>
              Offset(k, c, w) < |JoinLines(lines)| && JoinLines(lines)[Offset(k, c, w)] == lines[k][c]
    ensures forall k :: 0 <= k < |lines| - 1 ==>
              Offset(k, w, w) < |JoinLines(lines)| && JoinLines(lines)[Offset(k, w, w)] == '\n'
  {
    JoinLinesLength(lines, w);
    forall k, c | 0 <= k < |lines| && 0 <= c < w
      ensures Offset(k, c, w) < |JoinLines(lines)| && JoinLines(lines)[Offset(k, c, w)] == lines[k][c]
    {
      JoinLinesCell(lines, w, k, c);
    }
    forall k | 0 <= k < |lines| - 1
      ensures Offset(k, w, w) < |JoinLines(lines)| && JoinLines(lines)[Offset(k, w, w)] == '\n'
    {
      JoinLinesBreak(lines, w, k);
    }
  }

  lemma OffsetStep(k: int, c: int, w: int)
    ensures Offset(k, c, w) == (w + 1) + Offset(k - 1, c, w)
  {
  }
}
