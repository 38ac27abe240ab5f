/**
  The few Python string built-ins the pixel pipeline relies on:
  `str()` of an int, `int()` of a string, `str.split(sep)`
  and `str.strip(chars)`.
 */
module PyText {
  import opened Wrappers

  predicate IsDigit(c: char) {
    '0' <= c <= '9'
  }

  predicate AllDigits(s: string) {
    forall i :: 0 <= i < |s| ==> IsDigit(s[i])
  }

  function DigitChar(d: nat): (c: char)
    requires d < 10
    ensures IsDigit(c)
  {
    ('0' as int + d) as char
  }

  function DigitValue(c: char): (d: nat)
    requires IsDigit(c)
    ensures d < 10 && DigitChar(d) == c
  {
    c as int - '0' as int
  }

  /** The decimal text Python writes for a non-negative int (`str(n)`, `f"{n}"`). */
  function FormatNat(n: nat): (s: string)
    ensures |s| >= 1 && AllDigits(s)
  {
    if n < 10 then [DigitChar(n)] else FormatNat(n / 10) + [DigitChar(n % 10)]
  }

  /** The value of a string of decimal digits, read most significant digit first. */
  function DigitsValue(s: string): nat
    requires AllDigits(s)
  {
    if |s| == 0 then 0 else 10 * DigitsValue(s[..|s| - 1]) + DigitValue(s[|s| - 1])
  }

  lemma {:induction false} DigitsValueOfFormatNat(n: nat)
    ensures DigitsValue(FormatNat(n)) == n
  {
    if n >= 10 {
      var s := FormatNat(n);
      assert s[..|s| - 1] == FormatNat(n / 10);
      DigitsValueOfFormatNat(n / 10);
    }
  }

  /** `str()` is injective on non-negative ints. */
  lemma FormatNatInjective(m: nat, n: nat)
    requires FormatNat(m) == FormatNat(n)
    ensures m == n
  {
    DigitsValueOfFormatNat(m);
    DigitsValueOfFormatNat(n);
  }

  /**
    The characters `int()` strips from both ends of its argument: the ASCII
    tab to carriage return and space, and the non-ASCII characters
    `str.isspace` accepts (Unicode spaces and line separators). The ASCII
    information separators 0x1C-0x1F satisfy `str.isspace` but are not
    stripped by `int()`.
   */
  const Whitespace: set<char> := {
    9 as char, 10 as char, 11 as char, 12 as char, 13 as char, ' ',
    0x85 as char, 0xA0 as char, 0x1680 as char,
    0x2000 as char, 0x2001 as char, 0x2002 as char, 0x2003 as char, 0x2004 as char, 0x2005 as char,
    0x2006 as char, 0x2007 as char, 0x2008 as char, 0x2009 as char, 0x200A as char,
    0x2028 as char, 0x2029 as char, 0x202F as char, 0x205F as char, 0x3000 as char}

  /** `s.lstrip(chars)`: drops the leading characters that are in `cs`. */
  function LStrip(s: string, cs: set<char>): (r: string)
    ensures |r| <= |s| && r == s[|s| - |r|..]
    ensures |r| == 0 || r[0] !in cs
  {
    if |s| > 0 && s[0] in cs then LStrip(s[1..], cs) else s
  }

  /** `s.rstrip(chars)`: drops the trailing characters that are in `cs`. */
  function RStrip(s: string, cs: set<char>): (r: string)
    ensures |r| <= |s| && r == s[..|r|]
    ensures |r| == 0 || r[|r| - 1] !in cs
  {
    if |s| > 0 && s[|s| - 1] in cs then RStrip(s[..|s| - 1], cs) else s
  }

  /** `s.strip(chars)`: both ends. */
  function Strip(s: string, cs: set<char>): string {
    RStrip(LStrip(s, cs), cs)
  }

  lemma {:induction false} LStripPrefix(p: string, t: string, cs: set<char>)
    requires forall i :: 0 <= i < |p| ==> p[i] in cs
    ensures LStrip(p + t, cs) == LStrip(t, cs)
  {
    if |p| > 0 {
      assert (p + t)[0] == p[0];
      assert (p + t)[1..] == p[1..] + t;
      LStripPrefix(p[1..], t, cs);
    } else {
      assert p + t == t;
    }
  }

  lemma {:induction false} RStripSuffix(t: string, q: string, cs: set<char>)
    requires forall i :: 0 <= i < |q| ==> q[i] in cs
    ensures RStrip(t + q, cs) == RStrip(t, cs)
  {
    if |q| > 0 {
      assert (t + q)[|t + q| - 1] == q[|q| - 1];
      assert (t + q)[..|t + q| - 1] == t + q[..|q| - 1];
      RStripSuffix(t, q[..|q| - 1], cs);
    } else {
      assert t + q == t;
    }
  }

  /** `s.split(sep)`: every piece between separators, empty pieces included. */
  function Split(s: string, sep: char): (parts: seq<string>)
    ensures |parts| >= 1
    ensures forall k, i :: 0 <= k < |parts| && 0 <= i < |parts[k]| ==> parts[k][i] != sep
  {
    if |s| == 0 then [""]
    else if s[0] == sep then [""] + Split(s[1..], sep)
    else
      var rest := Split(s[1..], sep);
      [[s[0]] + rest[0]] + rest[1..]
  }

  lemma {:induction false} SplitNoSep(s: string, sep: char)
    requires forall i :: 0 <= i < |s| ==> s[i] != sep
    ensures Split(s, sep) == [s]
  {
    if |s| > 0 {
      SplitNoSep(s[1..], sep);
      assert [s[0]] + s[1..] == s;
    }
  }

  lemma {:induction false} SplitAt(a: string, sep: char, b: string)
    requires forall i :: 0 <= i < |a| ==> a[i] != sep
    ensures Split(a + [sep] + b, sep) == [a] + Split(b, sep)
  {
    if |a| > 0 {
      assert (a + [sep] + b)[1..] == a[1..] + [sep] + b;
      SplitAt(a[1..], sep, b);
      assert [a[0]] + a[1..] == a;
    } else {
      assert a + [sep] + b == [sep] + b;
    }
  }

  /** Python's `int(s)` on text: surrounding whitespace, an optional sign, decimal digits. */
  function PyInt(s: string): Option<int> {
    SignedDigits(Strip(s, Whitespace))
  }

  /** An optional sign followed by at least one decimal digit. */
  function SignedDigits(t: string): Option<int> {
    if |t| >= 2 && (t[0] == '+' || t[0] == '-') && AllDigits(t[1..]) then
      var v: int := DigitsValue(t[1..]);
      Some(if t[0] == '-' then -v else v)
    else if |t| >= 1 && AllDigits(t) then
      Some(DigitsValue(t))
    else None
  }

  /** Stripping leaves text that starts and ends with a digit unchanged. */
  lemma StripDigitsEnds(d: string, cs: set<char>)
    requires |d| >= 1 && IsDigit(d[0]) && IsDigit(d[|d| - 1])
    requires forall c :: c in cs ==> !IsDigit(c)
    ensures Strip(d, cs) == d
  {
    assert LStrip(d, cs) == d;
  }

  /** Text whose two ends are not in `cs` is left alone by `strip(cs)`. */
  lemma StripKeeps(t: string, cs: set<char>)
    requires |t| >= 1 && t[0] !in cs && t[|t| - 1] !in cs
    ensures Strip(t, cs) == t
  {
    assert LStrip(t, cs) == t;
  }

  /** `int()` of a string of digits with nothing to strip is its decimal value. */
  lemma SignedDigitsOfDigits(d: string)
    requires |d| >= 1 && AllDigits(d)
    ensures SignedDigits(d) == Some(DigitsValue(d))
  {
    assert IsDigit(d[0]);
  }

  /** `int(str(n)) == n`. */
  lemma PyIntOfFormatNatBare(n: nat)
    ensures PyInt(FormatNat(n)) == Some(n)
  {
    PyIntOfFormatNat("", n);
    assert "" + FormatNat(n) == FormatNat(n);
  }

  /** `int(pad + str(n)) == n` for any leading whitespace `pad`. */
  lemma PyIntOfFormatNat(pad: string, n: nat)
    requires forall i :: 0 <= i < |pad| ==> pad[i] in Whitespace
    ensures PyInt(pad + FormatNat(n)) == Some(n)
  {
    var d := FormatNat(n);
    LStripPrefix(pad, d, Whitespace);
    assert Strip(pad + d, Whitespace) == Strip(d, Whitespace);
    WhitespaceNotDigit();
    StripDigitsEnds(d, Whitespace);
    SignedDigitsOfDigits(d);
    DigitsValueOfFormatNat(n);
  }

  /**
    `int()` does not strip the ASCII information separators: `int("\x1c1")`
    is a ValueError, although `"\x1c".isspace()` holds.
   */
  lemma SeparatorNotStripped()
    ensures 28 as char !in Whitespace
    ensures PyInt([28 as char, '1']) == None
  {
    StripKeeps([28 as char, '1'], Whitespace);
  }

  lemma WhitespaceNotDigit()
    ensures forall c :: c in Whitespace ==> !IsDigit(c)
  {
  }

  /** The decimal text Python writes for any int: a minus sign before a negative one. */
  function FormatInt(i: int): (s: string)
    ensures |s| >= 1
  {
    if i < 0 then "-" + FormatNat(-i) else FormatNat(i)
  }

  /** `int(str(i)) == i`, negative numbers included. */
  lemma PyIntOfFormatInt(i: int)
    ensures PyInt(FormatInt(i)) == Some(i)
  {
    if i >= 0 {
      PyIntOfFormatNatBare(i);
    } else {
      MinusNothingToStrip(-i);
      DigitsValueOfFormatNat(-i);
      SignedDigitsOfNegative(FormatNat(-i), i);
    }
  }

  lemma MinusNothingToStrip(n: nat)
    ensures PyInt("-" + FormatNat(n)) == SignedDigits("-" + FormatNat(n))
  {
    var d := FormatNat(n);
    var t := "-" + d;
    assert t[0] == '-' && t[|t| - 1] == d[|d| - 1];
    WhitespaceNotDigit();
    StripKeeps(t, Whitespace);
  }

  lemma SignedDigitsOfNegative(d: string, i: int)
    requires |d| >= 1 && AllDigits(d) && DigitsValue(d) == -i
    ensures SignedDigits("-" + d) == Some(i)
  {
    assert ("-" + d)[1..] == d;
  }

  /** `str()` is injective on ints. */
  lemma FormatIntInjective(i: int, j: int)
    requires FormatInt(i) == FormatInt(j)
    ensures i == j
  {
    PyIntOfFormatInt(i);
    PyIntOfFormatInt(j);
  }
}
