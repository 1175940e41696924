/**
 * The few Python string and integer built-ins the pipeline relies on:
 * str.isspace / str.strip, str(int), format(n, "05d"), int(str) and the
 * ordering of str values used by sorted().
 */
module Text {
  import opened Wrappers

  /** A character Python's str.isspace() accepts: what str.strip() removes. */
  predicate IsSpace(c: char) {
    ('\t' <= c <= '\r') || ('\U{1C}' <= c <= ' ') || c == '\U{85}' || c == '\U{A0}'
    || c == '\U{1680}' || ('\U{2000}' <= c <= '\U{200A}') || c == '\U{2028}' || c == '\U{2029}'
    || c == '\U{202F}' || c == '\U{205F}' || c == '\U{3000}'
  }

  /**
   * A character int() skips around its digits. Below U+007F these are only
   * \t, \n, \v, \f, \r and the space; beyond it, every str.isspace()
   * character.
   */
  predicate IntSpace(c: char) {
    if c < '\U{7F}' then ('\t' <= c <= '\r') || c == ' ' else IsSpace(c)
  }

  /** The information separators U+001C..U+001F: str.isspace() accepts them, int() does not skip them. */
  predicate IsSeparator(c: char) {
    '\U{1C}' <= c <= '\U{1F}'
  }

  predicate NoSeparators(s: string) {
    forall i :: 0 <= i < |s| ==> !IsSeparator(s[i])
  }

  /** The characters a trim removes: those of str.strip(), or those int() skips. */
  datatype Blanks = StrBlanks | IntBlanks

  predicate Blank(b: Blanks, c: char) {
    match b
    case StrBlanks => IsSpace(c)
    case IntBlanks => IntSpace(c)
  }

  predicate AllBlank(b: Blanks, s: string) {
    forall i :: 0 <= i < |s| ==> Blank(b, s[i])
  }

  predicate AllSpace(s: string) {
    AllBlank(StrBlanks, s)
  }

  /** The skipped characters are whitespace, and whitespace other than a separator is skipped. */
  lemma IntSpaceIsSpace(c: char)
    ensures IntSpace(c) ==> IsSpace(c)
    ensures IsSpace(c) && !IsSeparator(c) ==> IntSpace(c)
  {
  }

  /**
   * The suffix left after the leading characters of class b; for StrBlanks
   * this is str.lstrip().
   */
  function TrimStart(s: string, b: Blanks): (r: string)
    ensures |r| <= |s| && r == s[|s| - |r|..]
    ensures AllBlank(b, s[..|s| - |r|])
    ensures r == [] || !Blank(b, r[0])
  {
    if |s| > 0 && Blank(b, s[0]) then
      var r := TrimStart(s[1..], b);
      assert s[..|s| - |r|] == [s[0]] + s[1..][..|s| - 1 - |r|];
      r
    else s
  }

  /**
   * The prefix left before the trailing characters of class b; for
   * StrBlanks this is str.rstrip().
   */
  function TrimEnd(s: string, b: Blanks): (r: string)
    ensures |r| <= |s| && r == s[..|r|]
    ensures AllBlank(b, s[|r|..])
    ensures r == [] || !Blank(b, r[|r| - 1])
  {
    if |s| > 0 && Blank(b, s[|s| - 1]) then
      var r := TrimEnd(s[..|s| - 1], b);
      assert s[|r|..] == s[..|s| - 1][|r|..] + [s[|s| - 1]];
      r
    else s
  }

  /** str.strip() with no argument: neither end of the result is whitespace. */
  function Strip(s: string): (r: string)
    ensures |r| <= |s|
    ensures r == [] || (!IsSpace(r[0]) && !IsSpace(r[|r| - 1]))
  {
    TrimEnd(TrimStart(s, StrBlanks), StrBlanks)
  }

  /** The text int() reads once the whitespace it skips is gone from both ends. */
  function IntStrip(s: string): (r: string)
    ensures |r| <= |s|
    ensures r == [] || (!IntSpace(r[0]) && !IntSpace(r[|r| - 1]))
  {
    TrimEnd(TrimStart(s, IntBlanks), IntBlanks)
  }

  /**
   * A text is the characters trimmed in front, what the trim keeps, and the
   * characters trimmed behind.
   */
  lemma TrimSplit(s: string, b: Blanks) returns (w1: string, t: string, w2: string)
    ensures t == TrimEnd(TrimStart(s, b), b) && s == w1 + t + w2
    ensures AllBlank(b, w1) && AllBlank(b, w2)
    ensures w1 == s[..|w1|] && w2 == s[|w1| + |t|..]
  {
    var u := TrimStart(s, b);
    w1 := TrimStartSplit(s, b);
    t := TrimEnd(u, b);
    w2 := TrimEndSplit(u, b);
    JoinParts(s, w1, u, t, w2);
  }

  lemma TrimStartSplit(s: string, b: Blanks) returns (w: string)
    ensures AllBlank(b, w) && s == w + TrimStart(s, b)
  {
    var u := TrimStart(s, b);
    var k := |s| - |u|;
    w := s[..k];
    assert AllBlank(b, w);
    assert s == s[..k] + s[k..];
  }

  lemma TrimEndSplit(u: string, b: Blanks) returns (w: string)
    ensures AllBlank(b, w) && u == TrimEnd(u, b) + w
  {
    var t := TrimEnd(u, b);
    w := u[|t|..];
    assert u == u[..|t|] + w;
  }

  lemma JoinParts(s: string, w1: string, u: string, t: string, w2: string)
    requires s == w1 + u && u == t + w2
    ensures s == w1 + t + w2 && w1 == s[..|w1|] && w2 == s[|w1| + |t|..]
  {
    assert w1 + t + w2 == w1 + (t + w2);
  }

  lemma {:induction false} TrimStartAllBlank(s: string, b: Blanks)
    ensures TrimStart(s, b) == [] <==> AllBlank(b, s)
  {
    if |s| > 0 && Blank(b, s[0]) {
      TrimStartAllBlank(s[1..], b);
      assert AllBlank(b, s) <==> AllBlank(b, s[1..]) by {
        assert forall i :: 0 < i < |s| ==> s[i] == s[1..][i - 1];
      }
    }
  }

  lemma {:induction false} TrimEndAllBlank(s: string, b: Blanks)
    ensures TrimEnd(s, b) == [] <==> AllBlank(b, s)
  {
    if |s| > 0 && Blank(b, s[|s| - 1]) {
      TrimEndAllBlank(s[..|s| - 1], b);
      assert AllBlank(b, s) <==> AllBlank(b, s[..|s| - 1]) by {
        assert forall i :: 0 <= i < |s| - 1 ==> s[i] == s[..|s| - 1][i];
      }
    }
  }

  /** A value is blank, in the sense of str.strip() == "", exactly when it is all whitespace. */
  lemma StripEmptyIffAllSpace(s: string)
    ensures Strip(s) == [] <==> AllSpace(s)
  {
    TrimStartAllBlank(s, StrBlanks);
    TrimEndAllBlank(TrimStart(s, StrBlanks), StrBlanks);
  }

  lemma {:induction false} TrimStartPrefix(w: string, s: string, b: Blanks)
    requires AllBlank(b, w)
    ensures TrimStart(w + s, b) == TrimStart(s, b)
  {
    if w != [] {
      assert (w + s)[1..] == w[1..] + s;
      TrimStartPrefix(w[1..], s, b);
    } else {
      assert w + s == s;
    }
  }

  lemma {:induction false} TrimEndSuffix(s: string, w: string, b: Blanks)
    requires AllBlank(b, w)
    ensures TrimEnd(s + w, b) == TrimEnd(s, b)
  {
    if w != [] {
      assert (s + w)[..|s + w| - 1] == s + w[..|w| - 1];
      TrimEndSuffix(s, w[..|w| - 1], b);
    } else {
      assert s + w == s;
    }
  }

  lemma {:induction false} TrimStartSuffix(s: string, w: string, b: Blanks)
    requires !AllBlank(b, s)
    ensures TrimStart(s + w, b) == TrimStart(s, b) + w
  {
    if Blank(b, s[0]) {
      assert (s + w)[1..] == s[1..] + w;
      assert !AllBlank(b, s[1..]) by {
        var i :| 0 <= i < |s| && !Blank(b, s[i]);
        assert s[1..][i - 1] == s[i];
      }
      TrimStartSuffix(s[1..], w, b);
    }
  }

  /** Characters of class b around a value never change what the two-sided trim returns. */
  lemma TrimPadding(w1: string, s: string, w2: string, b: Blanks)
    requires AllBlank(b, w1) && AllBlank(b, w2)
    ensures TrimEnd(TrimStart(w1 + s + w2, b), b) == TrimEnd(TrimStart(s, b), b)
  {
    assert w1 + s + w2 == w1 + (s + w2);
    TrimStartPrefix(w1, s + w2, b);
    if AllBlank(b, s) {
      assert AllBlank(b, s + w2);
      TrimStartAllBlank(s + w2, b);
      TrimStartAllBlank(s, b);
    } else {
      TrimStartSuffix(s, w2, b);
      TrimEndSuffix(TrimStart(s, b), w2, b);
    }
  }

  /** Whitespace around a value never changes what str.strip() returns. */
  lemma StripPadding(w1: string, s: string, w2: string)
    requires AllSpace(w1) && AllSpace(w2)
    ensures Strip(w1 + s + w2) == Strip(s)
  {
    TrimPadding(w1, s, w2, StrBlanks);
  }

  /** A value without characters of class b at either end is its own trim. */
  lemma TrimmedText(s: string, b: Blanks)
    requires s == [] || (!Blank(b, s[0]) && !Blank(b, s[|s| - 1]))
    ensures TrimEnd(TrimStart(s, b), b) == s
  {
  }
  // ---------------------------------------------------------------- digits

  predicate IsDigit(c: char) {
    '0' <= c <= '9'
  }

  predicate AllDigits(s: string) {
    forall i :: 0 <= i < |s| ==> IsDigit(s[i])
  }

  function DigitValue(c: char): nat
    requires IsDigit(c)
  {
    c as int - '0' as int
  }

  function DigitChar(d: nat): (c: char)
    requires d < 10
    ensures IsDigit(c) && DigitValue(c) == d
  {
    ('0' as int + d) as char
  }

  function Pow10(k: nat): nat {
    if k == 0 then 1 else 10 * Pow10(k - 1)
  }

  /** The number a run of ASCII digits denotes, leading zeros allowed. */
  function DigitsValue(s: string): nat
    requires AllDigits(s)
  {
    if s == [] then 0 else 10 * DigitsValue(s[..|s| - 1]) + DigitValue(s[|s| - 1])
  }

  /** str(n) for a non-negative int: shortest decimal text, no leading zero. */
  function NatToString(n: nat): (r: string)
    ensures 1 <= |r| && AllDigits(r)
    ensures r[0] == '0' <==> n == 0
  {
    if n < 10 then [DigitChar(n)] else NatToString(n / 10) + [DigitChar(n % 10)]
  }

  /** str(i) for any int. */
  function IntToString(i: int): (r: string)
    ensures i >= 0 ==> r == NatToString(i)
    ensures i < 0 ==> r == "-" + NatToString(-i)
  {
    if i < 0 then "-" + NatToString(-i) else NatToString(i)
  }

  /** format(n, "0{w}d") for n >= 0: the decimal text of n, zero-padded on the left to width w. */
  function ZeroPad(n: nat, width: nat): (r: string)
    ensures AllDigits(r)
    ensures |r| == if |NatToString(n)| < width then width else |NatToString(n)|
    ensures r[|r| - |NatToString(n)|..] == NatToString(n)
    ensures forall i :: 0 <= i < |r| - |NatToString(n)| ==> r[i] == '0'
  {
    var s := NatToString(n);
    if |s| < width then seq(width - |s|, _ => '0') + s else s
  }

  lemma {:induction false} NatToStringValue(n: nat)
    ensures DigitsValue(NatToString(n)) == n
  {
    if n >= 10 {
      var s := NatToString(n);
      assert s[..|s| - 1] == NatToString(n / 10);
      NatToStringValue(n / 10);
    }
  }

  lemma {:induction false} NatToStringLength(n: nat, k: nat)
    requires 1 <= k && n < Pow10(k)
    ensures |NatToString(n)| <= k
  {
    if n >= 10 {
      NatToStringLength(n / 10, k - 1);
    }
  }

  /** Numbers below 10^12, such as every timestamp datetime accepts, have far fewer digits than the limit. */
  lemma ShortDecimal(n: nat)
    requires n < 1000000000000
    ensures |NatToString(n)| <= MaxStrDigits
  {
    assert Pow10(12) == 1000000000000;
    NatToStringLength(n, 12);
  }

  /** int(str(i)) == i for every i of fewer than 13 digits. */
  lemma ShortRoundTrip(i: int)
    requires -1000000000000 < i < 1000000000000
    ensures ParseInt(IntToString(i)) == Some(i)
  {
    ShortDecimal(if i < 0 then -i else i);
    IntToStringRoundTrip(i);
  }

  lemma {:induction false} LeadingZerosValue(z: nat, s: string)
    requires AllDigits(s)
    ensures AllDigits(seq(z, _ => '0') + s)
    ensures DigitsValue(seq(z, _ => '0') + s) == DigitsValue(s)
  {
    var t := seq(z, _ => '0') + s;
    if s == [] {
      assert t == seq(z, _ => '0');
      if z > 0 {
        assert t[..|t| - 1] == seq(z - 1, _ => '0') + [];
        LeadingZerosValue(z - 1, []);
      }
    } else {
      assert t[..|t| - 1] == seq(z, _ => '0') + s[..|s| - 1];
      LeadingZerosValue(z, s[..|s| - 1]);
    }
  }

  /** Reading back format(n, "0{w}d") gives n, whatever the padding. */
  lemma ZeroPadValue(n: nat, width: nat)
    ensures DigitsValue(ZeroPad(n, width)) == n
  {
    var s := NatToString(n);
    NatToStringValue(n);
    if |s| < width {
      assert ZeroPad(n, width) == seq(width - |s|, _ => '0') + s;
      LeadingZerosValue(width - |s|, s);
    } else {
      assert ZeroPad(n, width) == s;
    }
  }

  /** A value below 10^w is zero-padded to exactly w digits. */
  lemma ZeroPadWidth(n: nat, width: nat)
    requires 1 <= width && n < Pow10(width)
    ensures |ZeroPad(n, width)| == width
  {
    NatToStringLength(n, width);
  }

  // ---------------------------------------------------------------- int()

  /** CPython's default limit on the decimal digits int() reads and str() writes. */
  const MaxStrDigits := 4300

  predicate IsUnsignedText(t: string) {
    |t| >= 1 && AllDigits(t)
  }

  /** A run of digits int() converts: at least one ASCII digit, at most MaxStrDigits of them. */
  predicate Convertible(t: string) {
    IsUnsignedText(t) && |t| <= MaxStrDigits
  }

  /**
   * int(s) in Python for ASCII digits. The whitespace int() skips (IntSpace)
   * goes from both ends; then comes an optional '+' or '-' and 1 to
   * MaxStrDigits ASCII digits. Anything else is a ValueError, here None.
   */
  function ParseInt(s: string): (r: Option<int>)
    ensures AllSpace(s) ==> r == None
  {
    IntStripOfSpace(s);
    ParseTrimmed(IntStrip(s))
  }

  /** What is left of all-whitespace text once int()'s whitespace is gone is whitespace too. */
  lemma IntStripOfSpace(s: string)
    ensures AllSpace(s) && IntStrip(s) != [] ==> IsSpace(IntStrip(s)[0])
  {
    var u := TrimStart(s, IntBlanks);
    var t := TrimEnd(u, IntBlanks);
    if AllSpace(s) && t != [] {
      assert t[0] == s[|s| - |u|];
    }
  }

  /** The sign-and-digits part of int(), applied once the whitespace is gone. */
  function ParseTrimmed(t: string): Option<int> {
    if Convertible(t) then Some(DigitsValue(t))
    else if |t| >= 2 && t[0] == '-' && Convertible(t[1..]) then Some(0 - DigitsValue(t[1..]) as int)
    else if |t| >= 2 && t[0] == '+' && Convertible(t[1..]) then Some(DigitsValue(t[1..]))
    else None
  }

  /** Text int() accepts, once its whitespace is gone, starts with a sign or digit and ends in a digit. */
  lemma ParsedEnds(t: string)
    requires ParseTrimmed(t).Some?
    ensures |t| >= 1 && !IsSpace(t[0]) && !IsSpace(t[|t| - 1])
  {
    if !Convertible(t) {
      assert t[|t| - 1] == t[1..][|t| - 2];
    }
    DigitNotSpace(t[|t| - 1]);
  }

  /** int(str(i)) == i, for every i that str() writes within the digit limit. */
  lemma IntToStringRoundTrip(i: int)
    requires |NatToString(if i < 0 then -i else i)| <= MaxStrDigits
    ensures ParseInt(IntToString(i)) == Some(i)
  {
    if i < 0 {
      NegativeRoundTrip(-i);
    } else {
      NatToStringValue(i);
      DigitsParse(NatToString(i));
    }
  }

  lemma NegativeRoundTrip(n: nat)
    requires n > 0 && |NatToString(n)| <= MaxStrDigits
    ensures ParseInt("-" + NatToString(n)) == Some(-(n as int))
  {
    NatToStringValue(n);
    NegatedDigits(NatToString(n), n);
  }

  lemma NegatedDigits(d: string, n: nat)
    requires Convertible(d) && DigitsValue(d) == n
    ensures ParseInt("-" + d) == Some(-(n as int))
  {
    var s := "-" + d;
    assert s[|s| - 1] == d[|d| - 1];
    DigitNotSpace(d[|d| - 1]);
    IntStripFixed(s);
    MinusTrimmed(d, n);
  }

  lemma MinusTrimmed(d: string, n: nat)
    requires Convertible(d) && DigitsValue(d) == n
    ensures ParseTrimmed("-" + d) == Some(-(n as int))
  {
    var s := "-" + d;
    assert s[1..] == d;
    assert !IsDigit(s[0]) && !Convertible(s);
  }

  /** A minus sign before a run of digits parses as the negated value. */
  lemma NegativeParse(s: string)
    requires |s| >= 2 && s[0] == '-' && Convertible(s[1..])
    ensures ParseInt(s) == Some(0 - DigitsValue(s[1..]) as int)
  {
    assert s[|s| - 1] == s[1..][|s| - 2];
    DigitNotSpace(s[|s| - 1]);
    IntStripFixed(s);
    NegativeTrimmed(s);
  }

  lemma NegativeTrimmed(t: string)
    requires |t| >= 2 && t[0] == '-' && Convertible(t[1..])
    ensures ParseTrimmed(t) == Some(0 - DigitsValue(t[1..]) as int)
  {
    assert !IsDigit(t[0]);
  }

  /** More digits than the limit: int() raises ValueError. */
  lemma TooManyDigits(s: string)
    requires IsUnsignedText(s) && |s| > MaxStrDigits
    ensures ParseInt(s) == None
  {
    DigitNotSpace(s[0]);
    DigitNotSpace(s[|s| - 1]);
    IntStripFixed(s);
    assert s[0] != '-' && s[0] != '+';
  }

  /** Text with no int() whitespace at either end is what int() reads. */
  lemma IntStripFixed(s: string)
    requires s == [] || (!IntSpace(s[0]) && !IntSpace(s[|s| - 1]))
    ensures ParseInt(s) == ParseTrimmed(s)
  {
    TrimmedText(s, IntBlanks);
  }

  /**
   * int(s.strip()) against int(s), as the validator and the processing
   * stage read the same cell. What int() accepts it also accepts stripped,
   * with the same value. Without separator characters the two agree
   * everywhere, refusals included.
   */
  lemma ParseIntStripped(s: string)
    ensures ParseInt(s).Some? ==> ParseInt(Strip(s)) == ParseInt(s)
    ensures NoSeparators(s) ==> ParseInt(Strip(s)) == ParseInt(s)
  {
    if ParseInt(s).Some? {
      IntAcceptedStrips(s);
    }
    if NoSeparators(s) && ParseInt(Strip(s)).Some? {
      StripAcceptedParses(s);
    }
  }

  lemma IntAcceptedStrips(s: string)
    requires ParseInt(s).Some?
    ensures ParseInt(Strip(s)) == ParseInt(s)
  {
    var w1, t, w2 := TrimSplit(s, IntBlanks);
    IntBlanksAreSpace(w1);
    IntBlanksAreSpace(w2);
    StripPadding(w1, t, w2);
    ParsedEnds(t);
    DigitNotIntSpace(t);
    TrimmedText(t, StrBlanks);
    IntStripFixed(t);
  }

  lemma StripAcceptedParses(s: string)
    requires NoSeparators(s) && ParseInt(Strip(s)).Some?
    ensures ParseInt(s) == ParseInt(Strip(s))
  {
    var w1, t, w2 := TrimSplit(s, StrBlanks);
    SeparatorFreeParts(w1, t, w2);
    SpacesAreIntBlanks(w1);
    SpacesAreIntBlanks(w2);
    ParseIntPadding(w1, t, w2);
  }

  lemma IntBlanksAreSpace(w: string)
    requires AllBlank(IntBlanks, w)
    ensures AllSpace(w)
  {
    forall i | 0 <= i < |w| ensures IsSpace(w[i]) {
      IntSpaceIsSpace(w[i]);
    }
  }

  lemma SpacesAreIntBlanks(w: string)
    requires NoSeparators(w) && AllSpace(w)
    ensures AllBlank(IntBlanks, w)
  {
    forall k | 0 <= k < |w| ensures IntSpace(w[k]) {
      IntSpaceIsSpace(w[k]);
    }
  }

  lemma SeparatorFreeParts(w1: string, t: string, w2: string)
    requires NoSeparators(w1 + t + w2)
    ensures NoSeparators(w1) && NoSeparators(w2)
  {
    var s := w1 + t + w2;
    assert forall k :: 0 <= k < |w1| ==> w1[k] == s[k];
    assert forall k :: 0 <= k < |w2| ==> w2[k] == s[|w1| + |t| + k];
  }

  lemma DigitNotIntSpace(t: string)
    requires |t| >= 1 && !IsSpace(t[0]) && !IsSpace(t[|t| - 1])
    ensures !IntSpace(t[0]) && !IntSpace(t[|t| - 1])
  {
    IntSpaceIsSpace(t[0]);
    IntSpaceIsSpace(t[|t| - 1]);
  }

  /** int() ignores the whitespace it skips around its argument. */
  lemma ParseIntPadding(w1: string, s: string, w2: string)
    requires AllBlank(IntBlanks, w1) && AllBlank(IntBlanks, w2)
    ensures ParseInt(w1 + s + w2) == ParseInt(s)
  {
    TrimPadding(w1, s, w2, IntBlanks);
  }

  /**
   * A separator before digits, as in "\x1c5": str.strip() removes it and
   * int() then reads the digits, but int() on the raw text does not skip it
   * and raises.
   */
  lemma SeparatorNotSkipped(c: char, d: string)
    requires IsSeparator(c) && Convertible(d)
    ensures ParseInt([c] + d) == None
    ensures Strip([c] + d) == d && ParseInt(Strip([c] + d)) == Some(DigitsValue(d))
  {
    SeparatorRefused(c, d);
    SeparatorStripped(c, d);
  }

  lemma SeparatorRefused(c: char, d: string)
    requires IsSeparator(c) && Convertible(d)
    ensures ParseInt([c] + d) == None
  {
    var s := [c] + d;
    assert s[0] == c && s[|s| - 1] == d[|d| - 1];
    SeparatorFirst(s);
  }

  lemma SeparatorFirst(s: string)
    requires |s| >= 1 && IsSeparator(s[0]) && IsDigit(s[|s| - 1])
    ensures ParseInt(s) == None
  {
    DigitNotSpace(s[|s| - 1]);
    IntStripFixed(s);
    NoSignNoDigit(s);
  }

  lemma SeparatorStripped(c: char, d: string)
    requires IsSeparator(c) && Convertible(d)
    ensures Strip([c] + d) == d && ParseInt(Strip([c] + d)) == Some(DigitsValue(d))
  {
    DigitNotSpace(d[0]);
    DigitNotSpace(d[|d| - 1]);
    StripPadding([c], d, []);
    assert [c] + d + [] == [c] + d;
    TrimmedText(d, StrBlanks);
    DigitsParse(d);
  }

  lemma NoSignNoDigit(t: string)
    requires |t| >= 1 && !IsDigit(t[0]) && t[0] != '-' && t[0] != '+'
    ensures ParseTrimmed(t) == None
  {
    assert !AllDigits(t);
  }

  /** Zero-padded decimal text within the digit limit reads back as the number it pads. */
  lemma ParseIntZeroPad(n: nat, width: nat)
    requires |ZeroPad(n, width)| <= MaxStrDigits
    ensures ParseInt(ZeroPad(n, width)) == Some(n)
  {
    ZeroPadValue(n, width);
    DigitsParse(ZeroPad(n, width));
  }

  /** A run of ASCII digits within the limit reads back as the number it denotes. */
  lemma DigitsParse(s: string)
    requires Convertible(s)
    ensures ParseInt(s) == Some(DigitsValue(s))
  {
    DigitNotSpace(s[0]);
    DigitNotSpace(s[|s| - 1]);
    IntStripFixed(s);
  }

  lemma DigitNotSpace(c: char)
    requires IsDigit(c)
    ensures !IsSpace(c) && !IntSpace(c)
  {
  }

  lemma {:induction false} LeadingDigitPositive(s: string)
    requires IsUnsignedText(s) && s[0] != '0'
    ensures DigitsValue(s) >= Pow10(|s| - 1)
  {
    if |s| > 1 {
      LeadingDigitPositive(s[..|s| - 1]);
    }
  }

  /**
   * str(int(s)) == s for canonical decimal text (no leading zero): str() and
   * int() are inverse on it, so str(int(s)) is the canonical form of s.
   */
  lemma {:induction false} CanonicalDigits(s: string)
    requires IsUnsignedText(s) && (s[0] != '0' || |s| == 1)
    ensures NatToString(DigitsValue(s)) == s
  {
    if |s| > 1 {
      var p := s[..|s| - 1];
      assert p[0] == s[0];
      LeadingDigitPositive(p);
      CanonicalDigits(p);
      assert s == p + [s[|s| - 1]];
    }
  }

  /** The text str() writes for an int: no '+', no leading zero, no "-0". */
  predicate CanonicalInt(d: string) {
    (IsUnsignedText(d) && (d[0] != '0' || |d| == 1))
    || (|d| >= 2 && d[0] == '-' && IsUnsignedText(d[1..]) && d[1] != '0')
  }

  /** str(i) is canonical text. */
  lemma IntToStringCanonical(i: int)
    ensures CanonicalInt(IntToString(i))
  {
    if i < 0 {
      assert IntToString(i)[1..] == NatToString(-i);
    } else if i < 10 {
      assert |NatToString(i)| == 1;
    }
  }

  /**
   * Canonical text within the digit limit is str() of the integer int()
   * reads from it, so two canonical texts of one integer are the same text.
   */
  lemma CanonicalIsStr(d: string)
    requires CanonicalInt(d) && |d| <= MaxStrDigits
    ensures ParseInt(d).Some? && IntToString(ParseInt(d).value) == d
  {
    if IsUnsignedText(d) && (d[0] != '0' || |d| == 1) {
      DigitsParse(d);
      CanonicalDigits(d);
    } else {
      CanonicalNegative(d);
    }
  }

  lemma CanonicalNegative(d: string)
    requires |d| >= 2 && d[0] == '-' && IsUnsignedText(d[1..]) && d[1] != '0' && |d| <= MaxStrDigits
    ensures ParseInt(d).Some? && IntToString(ParseInt(d).value) == d
  {
    var e := d[1..];
    assert e[0] == d[1];
    NegativeParse(d);
    CanonicalDigits(e);
    NegatedText(d, DigitsValue(e));
  }

  lemma NegatedText(d: string, n: nat)
    requires |d| >= 2 && d[0] == '-' && IsUnsignedText(d[1..]) && d[1] != '0' && n == DigitsValue(d[1..]) && n > 0
    ensures IntToString(-(n as int)) == d
  {
    var e := d[1..];
    assert e[0] == d[1];
    CanonicalDigits(e);
    assert d == "-" + e;
  }

  // ---------------------------------------------------------------- str.split

  /** s.split(sep) for a one-character separator: the pieces between separators, empty ones kept. */
  function Split(s: string, sep: char): (r: seq<string>)
    ensures |r| >= 1
    ensures forall i :: 0 <= i < |r| ==> sep !in r[i]
  {
    if s == [] then [""]
    else
      var rest := Split(s[1..], sep);
      if s[0] == sep then [""] + rest else [[s[0]] + rest[0]] + rest[1..]
  }

  /** sep.join(parts). */
  function JoinWith(parts: seq<string>, sep: char): string
    requires |parts| >= 1
  {
    if |parts| == 1 then parts[0] else parts[0] + [sep] + JoinWith(parts[1..], sep)
  }

  /** Joining the pieces with the separator gives back the text split. */
  lemma {:induction false} SplitJoin(s: string, sep: char)
    ensures JoinWith(Split(s, sep), sep) == s
  {
    if s != [] {
      var rest := Split(s[1..], sep);
      SplitJoin(s[1..], sep);
      if s[0] != sep && |rest| > 1 {
        assert Split(s, sep)[1..] == rest[1..];
        assert s == [s[0]] + rest[0] + [sep] + JoinWith(rest[1..], sep);
      } else if s[0] != sep {
        assert s == [s[0]] + rest[0];
      } else {
        assert s == [sep] + s[1..];
      }
    }
  }

  /** A piece free of separators, followed by the separator, splits off as the first piece. */
  lemma {:induction false} SplitAt(x: string, sep: char, y: string)
    requires sep !in x
    ensures Split(x + [sep] + y, sep) == [x] + Split(y, sep)
  {
    if x == [] {
      assert x + [sep] + y == [sep] + y;
      assert ([sep] + y)[1..] == y;
    } else {
      var s := x + [sep] + y;
      assert s[0] == x[0] && s[1..] == x[1..] + [sep] + y;
      SplitAt(x[1..], sep, y);
      assert [x[0]] + x[1..] == x;
    }
  }

  /** Text without the separator is a single piece. */
  lemma {:induction false} SplitNone(s: string, sep: char)
    requires sep !in s
    ensures Split(s, sep) == [s]
  {
    if s != [] {
      SplitNone(s[1..], sep);
      assert [s[0]] + s[1..] == s;
    }
  }

  // ---------------------------------------------------------------- str ordering

  /** Python's `<` on str: lexicographic by code point, a proper prefix first. */
  predicate LexLess(a: string, b: string)
    decreases |a|
  {
    if a == [] then b != []
    else if b == [] then false
    else if a[0] != b[0] then a[0] < b[0]
    else LexLess(a[1..], b[1..])
  }

  lemma {:induction false} LexIrreflexive(a: string)
    ensures !LexLess(a, a)
  {
    if a != [] {
      LexIrreflexive(a[1..]);
    }
  }

  lemma {:induction false} LexAsymmetric(a: string, b: string)
    ensures !(LexLess(a, b) && LexLess(b, a))
  {
    if a != [] && b != [] && a[0] == b[0] {
      LexAsymmetric(a[1..], b[1..]);
    }
  }

  lemma {:induction false} LexTransitive(a: string, b: string, c: string)
    requires LexLess(a, b) && LexLess(b, c)
    ensures LexLess(a, c)
    decreases |a|
  {
    if a != [] && a[0] == b[0] && b[0] == c[0] {
      LexTransitive(a[1..], b[1..], c[1..]);
    }
  }

  lemma {:induction false} LexTotal(a: string, b: string)
    requires a != b
    ensures LexLess(a, b) || LexLess(b, a)
    decreases |a|
  {
    if a != [] && b != [] && a[0] == b[0] {
      assert a == [a[0]] + a[1..] && b == [b[0]] + b[1..];
      LexTotal(a[1..], b[1..]);
    }
  }

  /** Comparing x + s with y + t, |x| == |y|, decides on x and y first. */
  lemma {:induction false} LexAppend(x: string, s: string, y: string, t: string)
    requires |x| == |y|
    ensures LexLess(x + s, y + t) <==> LexLess(x, y) || (x == y && LexLess(s, t))
    decreases |x|
  {
    if x == [] {
      assert x + s == s && y + t == t;
    } else {
      assert (x + s)[0] == x[0] && (y + t)[0] == y[0];
      assert (x + s)[1..] == x[1..] + s && (y + t)[1..] == y[1..] + t;
      LexAppend(x[1..], s, y[1..], t);
      if x[0] == y[0] {
        assert x == [x[0]] + x[1..] && y == [y[0]] + y[1..];
      }
    }
  }

  /** On digit runs of one length, str order is numeric order. */
  lemma {:induction false} LexDigits(a: string, b: string)
    requires |a| == |b| && AllDigits(a) && AllDigits(b)
    ensures LexLess(a, b) <==> DigitsValue(a) < DigitsValue(b)
    ensures a == b <==> DigitsValue(a) == DigitsValue(b)
  {
    if a != [] {
      var n := |a| - 1;
      var a', b' := a[..n], b[..n];
      LexDigits(a', b');
      assert a == a' + [a[n]] && b == b' + [b[n]];
      LexAppend(a', [a[n]], b', [b[n]]);
      if a' == b' && a[n] != b[n] {
        assert a != b by { assert a[n] != b[n]; }
      }
    }
  }
}
