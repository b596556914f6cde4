/** String helpers the three scripts rely on through JavaScript built-ins:
    the white-space class of `\s` and `trim`, `replace(/\s/g, '')`, the
    decimal rendering of numbers (`String(n)`, template literals),
    `padStart` and `parseInt`. */
module Text {
  import opened Wrappers

  /** JavaScript white space: the WhiteSpace and LineTerminator characters of
      ECMA-262, which is the set matched by `\s` and removed by `trim`. */
  predicate IsWhitespace(c: char) {
    || c == '\t' || c == '\n' || c == '\U{000B}' || c == '\U{000C}' || c == '\r' || c == ' '
    || c == '\U{00A0}' || c == '\U{1680}' || ('\U{2000}' <= c <= '\U{200A}')
    || c == '\U{2028}' || c == '\U{2029}' || c == '\U{202F}' || c == '\U{205F}'
    || c == '\U{3000}' || c == '\U{FEFF}'
  }

  predicate AllWhitespace(s: string) {
    forall i | 0 <= i < |s| :: IsWhitespace(s[i])
  }

  predicate NoWhitespace(s: string) {
    forall i | 0 <= i < |s| :: !IsWhitespace(s[i])
  }

  /** `trimStart`: the suffix left after dropping leading white space. */
  function TrimStart(s: string): (r: string)
    ensures |r| <= |s| && r == s[|s| - |r|..]
    ensures AllWhitespace(s[..|s| - |r|])
    ensures r != [] ==> !IsWhitespace(r[0])
  {
    if s != [] && IsWhitespace(s[0]) then
      var r := TrimStart(s[1..]);
      LeadingWhitespaceStep(s, |r|);
      r
    else
      s
  }

  /** One more white-space character in front of a white-space prefix. */
  lemma {:induction false} LeadingWhitespaceStep(s: string, n: nat)
    requires s != [] && IsWhitespace(s[0]) && n < |s|
    requires AllWhitespace(s[1..][..|s| - 1 - n])
    ensures AllWhitespace(s[..|s| - n]) && s[1..][|s| - 1 - n..] == s[|s| - n..]
  {
    assert s[..|s| - n] == [s[0]] + s[1..][..|s| - 1 - n];
  }

  /** `trimEnd`: the prefix left after dropping trailing white space. */
  function TrimEnd(s: string): (r: string)
    ensures |r| <= |s| && r == s[..|r|]
    ensures AllWhitespace(s[|r|..])
    ensures r != [] ==> !IsWhitespace(r[|r| - 1])
  {
    if s != [] && IsWhitespace(s[|s| - 1]) then
      var r := TrimEnd(s[..|s| - 1]);
      TrailingWhitespaceStep(s, |r|);
      r
    else
      s
  }

  /** One more white-space character after a white-space suffix. */
  lemma {:induction false} TrailingWhitespaceStep(s: string, n: nat)
    requires s != [] && IsWhitespace(s[|s| - 1]) && n < |s|
    requires AllWhitespace(s[..|s| - 1][n..])
    ensures AllWhitespace(s[n..]) && s[..|s| - 1][..n] == s[..n]
  {
    assert s[n..] == s[..|s| - 1][n..] + [s[|s| - 1]];
  }

  /** White space on both sides of a concatenation is white space of the
      whole. */
  lemma {:induction false} AllWhitespaceConcat(a: string, b: string)
    ensures AllWhitespace(a + b) <==> AllWhitespace(a) && AllWhitespace(b)
  {
    assert forall k | 0 <= k < |a| :: (a + b)[k] == a[k];
    assert forall k | 0 <= k < |b| :: (a + b)[|a| + k] == b[k];
  }

  /** Dropping leading white space leaves white space only if all of it
      was. */
  lemma {:induction false} TrimStartAllWhitespace(s: string)
    ensures AllWhitespace(TrimStart(s)) <==> AllWhitespace(s)
  {
    var t := TrimStart(s);
    assert s == s[..|s| - |t|] + t;
    AllWhitespaceConcat(s[..|s| - |t|], t);
  }

  /** Dropping trailing white space leaves nothing exactly when all of it
      was white space. */
  lemma {:induction false} TrimEndEmpty(t: string)
    ensures TrimEnd(t) == [] <==> AllWhitespace(t)
  {
    var r := TrimEnd(t);
    if r == [] {
      assert t[|r|..] == t;
    } else {
      assert t[|r| - 1] == r[|r| - 1];
    }
  }

  /** `trim`: leading and trailing white space removed; what is left starts
      and ends with a character that is not white space, and it is empty
      exactly when `s` is all white space. */
  function Trim(s: string): (r: string)
    ensures r != [] ==> !IsWhitespace(r[0]) && !IsWhitespace(r[|r| - 1])
    ensures r == [] <==> AllWhitespace(s)
  {
    var t := TrimStart(s);
    var r := TrimEnd(t);
    assert r != [] ==> r[0] == t[0];
    TrimStartAllWhitespace(s);
    TrimEndEmpty(t);
    r
  }

  /** `r` sits at offset `i` of `s` with only white space before and after
      it. */
  predicate TrimmedAt(s: string, r: string, i: nat)
    requires i + |r| <= |s|
  {
    r == s[i..i + |r|] && AllWhitespace(s[..i]) && AllWhitespace(s[i + |r|..])
  }

  /** What `trim` keeps is the contiguous slice of `s` between the leading
      and the trailing run of white space. */
  lemma {:induction false} TrimIsSlice(s: string)
    ensures exists i: nat | i + |Trim(s)| <= |s| :: TrimmedAt(s, Trim(s), i)
  {
    var t := TrimStart(s);
    var r := TrimEnd(t);
    var i := |s| - |t|;
    assert r == Trim(s);
    assert t == s[i..] && r == t[..|r|];
    assert AllWhitespace(s[..i]) && AllWhitespace(t[|r|..]);
    assert s[i..i + |r|] == r;
    assert s[i + |r|..] == t[|r|..];
    assert TrimmedAt(s, r, i);
  }

  /** `replace(/\s/g, '')`: every white-space character removed. */
  function StripWhitespace(s: string): (r: string)
    ensures NoWhitespace(r) && |r| <= |s|
  {
    if s == [] then []
    else if IsWhitespace(s[0]) then StripWhitespace(s[1..])
    else [s[0]] + StripWhitespace(s[1..])
  }

  /** Stripping works character by character: it distributes over
      concatenation, so white space anywhere in the input is irrelevant. */
  lemma {:induction false} StripWhitespaceConcat(a: string, b: string)
    ensures StripWhitespace(a + b) == StripWhitespace(a) + StripWhitespace(b)
  {
    if a == [] {
      assert a + b == b;
    } else {
      assert (a + b)[0] == a[0] && (a + b)[1..] == a[1..] + b;
      StripWhitespaceConcat(a[1..], b);
    }
  }

  /** A string without white space is left as it is. */
  lemma {:induction false} StripWhitespaceKeeps(s: string)
    requires NoWhitespace(s)
    ensures StripWhitespace(s) == s
  {
    if s != [] {
      StripWhitespaceKeeps(s[1..]);
    }
  }

  predicate IsDigit(c: char) {
    '0' <= c <= '9'
  }

  predicate AllDigits(s: string) {
    forall i | 0 <= i < |s| :: IsDigit(s[i])
  }

  /** A digit of base `radix` (10, or 16 after a `0x` prefix) as `parseInt`
      reads it. */
  predicate IsDigitIn(c: char, radix: nat)
    requires radix == 10 || radix == 16
  {
    IsDigit(c) || (radix == 16 && ('a' <= c <= 'f' || 'A' <= c <= 'F'))
  }

  function DigitValueIn(c: char, radix: nat): (v: nat)
    requires radix == 10 || radix == 16
    requires IsDigitIn(c, radix)
    ensures v < radix
  {
    if IsDigit(c) then c as int - '0' as int
    else if 'a' <= c <= 'f' then c as int - 'a' as int + 10
    else c as int - 'A' as int + 10
  }

  predicate AllDigitsIn(s: string, radix: nat)
    requires radix == 10 || radix == 16
  {
    forall i | 0 <= i < |s| :: IsDigitIn(s[i], radix)
  }

  /** The number a digit string denotes, most significant digit first. */
  function ValueIn(s: string, radix: nat): nat
    requires radix == 10 || radix == 16
    requires AllDigitsIn(s, radix)
  {
    if s == [] then 0
    else radix * ValueIn(s[..|s| - 1], radix) + DigitValueIn(s[|s| - 1], radix)
  }

  function DigitChar(d: nat): (c: char)
    requires d < 10
    ensures IsDigit(c) && DigitValueIn(c, 10) == d
  {
    ('0' as int + d) as char
  }

  /** `String(n)` for a non-negative integer: decimal digits without leading
      zeros. */
  function NatToString(n: nat): (r: string)
    ensures r != [] && AllDigits(r) && AllDigitsIn(r, 10)
    ensures r[0] == '0' ==> n == 0
    ensures n < 10 <==> |r| == 1
  {
    if n < 10 then [DigitChar(n)]
    else NatToString(n / 10) + [DigitChar(n % 10)]
  }

  /** Reading the rendered digits back gives the number. */
  lemma {:induction false} NatToStringValue(n: nat)
    ensures ValueIn(NatToString(n), 10) == n
  {
    if n >= 10 {
      var s := NatToString(n);
      assert s[..|s| - 1] == NatToString(n / 10);
      NatToStringValue(n / 10);
    }
  }

  /** Conversely, a digit string without a leading zero is what `String`
      writes for its value, and it has as many digits as that value needs. */
  lemma {:induction false} NatToStringOfDigits(s: string)
    requires s != [] && AllDigitsIn(s, 10) && (|s| == 1 || s[0] != '0')
    ensures NatToString(ValueIn(s, 10)) == s
    ensures s[0] != '0' ==> Pow10(|s|) <= ValueIn(s, 10) * 10 && ValueIn(s, 10) < Pow10(|s|)
  {
    var c := s[|s| - 1];
    assert IsDigit(c);
    if |s| == 1 {
      assert s[..0] == [];
      assert DigitChar(DigitValueIn(c, 10)) == c;
    } else {
      var p := s[..|s| - 1];
      assert p[0] == s[0];
      NatToStringOfDigits(p);
      var v := ValueIn(p, 10);
      var n := ValueIn(s, 10);
      assert v != 0 by {
        assert NatToString(0) == "0";
      }
      assert n == 10 * v + DigitValueIn(c, 10);
      assert n / 10 == v && n % 10 == DigitValueIn(c, 10);
      assert DigitChar(DigitValueIn(c, 10)) == c;
      assert NatToString(n) == NatToString(v) + [c];
      assert s == p + [c];
    }
  }

  /** A number of k decimal digits renders as k characters. */
  lemma {:induction false} NatToStringLength(n: nat, k: nat)
    requires Pow10(k) <= n * 10 && n < Pow10(k)
    ensures |NatToString(n)| == k
    decreases k
  {
    if n >= 10 {
      Pow10Beyond10(k);
      var p := Pow10(k - 1);
      var q := Pow10(k - 2);
      assert Pow10(k) == 10 * p && p == 10 * q;
      assert q <= n / 10 && n / 10 < p;
      NatToStringLength(n / 10, k - 1);
    }
  }

  /** Only from two digits on does a power of ten exceed 10. */
  lemma {:induction false} Pow10Beyond10(k: nat)
    ensures Pow10(k) > 10 ==> k >= 2
  {
  }

  function Pow10(k: nat): (p: nat)
    ensures p >= 1
  {
    if k == 0 then 1 else 10 * Pow10(k - 1)
  }

  /** `String(i)` for any integer: a minus sign before the digits of `-i`. */
  function IntToString(i: int): (r: string)
    ensures r != [] && (r[0] == '-' <==> i < 0)
    ensures i >= 0 ==> r == NatToString(i)
    ensures i < 0 ==> r[1..] == NatToString(-i)
  {
    if i < 0 then "-" + NatToString(-i) else NatToString(i)
  }

  /** `s.padStart(width, fill)`: `fill` repeated in front of `s` up to
      `width` characters; a string already that long is unchanged. */
  function PadStart(s: string, width: nat, fill: char): (r: string)
    ensures |r| == if |s| >= width then |s| else width
    ensures r[|r| - |s|..] == s
    ensures forall i | 0 <= i < |r| - |s| :: r[i] == fill
    decreases width - |s|
  {
    if |s| >= width then s else PadStart([fill] + s, width, fill)
  }

  /** The longest prefix of `s` made of digits of the radix. */
  function DigitRun(s: string, radix: nat): (r: string)
    requires radix == 10 || radix == 16
    ensures |r| <= |s| && r == s[..|r|] && AllDigitsIn(r, radix)
    ensures |r| < |s| ==> !IsDigitIn(s[|r|], radix)
  {
    if s != [] && IsDigitIn(s[0], radix) then [s[0]] + DigitRun(s[1..], radix) else []
  }

  /** `parseInt(s)` with no radix (section 19.2.5 of ECMA-262): leading
      white space is skipped, one sign is read, a `0x`/`0X` prefix selects
      base 16, and the longest run of digits that follows is the value;
      anything after it is ignored. No digits at all gives NaN, here `None`. */
  function ParseInt(s: string): Option<int> {
    var t := TrimStart(s);
    if t != [] && t[0] == '-' then
      match ParseMagnitude(t[1..])
      case Some(m) => Some(-(m as int))
      case None => None
    else if t != [] && t[0] == '+' then ParseMagnitude(t[1..])
    else ParseMagnitude(t)
  }

  /** The unsigned part of `parseInt`: hexadecimal after `0x`/`0X`, decimal
      otherwise. */
  function ParseMagnitude(u: string): Option<nat> {
    if |u| >= 2 && u[0] == '0' && (u[1] == 'x' || u[1] == 'X') then LeadingValue(u[2..], 16)
    else LeadingValue(u, 10)
  }

  /** The value of the run of digits `u` starts with, `None` when there is
      none. */
  function LeadingValue(u: string, radix: nat): (r: Option<nat>)
    requires radix == 10 || radix == 16
    ensures r.None? <==> u == [] || !IsDigitIn(u[0], radix)
  {
    var digits := DigitRun(u, radix);
    if digits == [] then None else Some(ValueIn(digits, radix))
  }

  /** The digits of a whole digit string are that string. */
  lemma {:induction false} DigitRunOfDigits(s: string)
    requires AllDigitsIn(s, 10)
    ensures DigitRun(s, 10) == s
  {
    if s != [] {
      DigitRunOfDigits(s[1..]);
    }
  }

  /** A string that starts with a character other than white space has no
      white space to skip. */
  lemma {:induction false} TrimStartKeeps(s: string)
    requires s != [] && !IsWhitespace(s[0])
    ensures TrimStart(s) == s
  {
  }

  /** A whole decimal digit string is read as its value. */
  lemma {:induction false} ParseMagnitudeOfDigits(d: string)
    requires d != [] && AllDigitsIn(d, 10)
    ensures ParseMagnitude(d) == Some(ValueIn(d, 10))
  {
    assert !(|d| >= 2 && d[0] == '0' && (d[1] == 'x' || d[1] == 'X')) by {
      if |d| >= 2 {
        assert IsDigitIn(d[1], 10);
      }
    }
    DigitRunOfDigits(d);
  }

  /** Without a sign, `parseInt` of a digit string is its magnitude. */
  lemma {:induction false} ParseUnsignedDigits(d: string)
    requires d != [] && AllDigitsIn(d, 10)
    ensures ParseInt(d) == Some(ValueIn(d, 10))
  {
    assert IsDigitIn(d[0], 10);
    TrimStartKeeps(d);
    ParseMagnitudeOfDigits(d);
  }

  /** After a minus sign, `parseInt` of a digit string is its negated
      magnitude. */
  lemma {:induction false} ParseNegatedDigits(d: string)
    requires d != [] && AllDigitsIn(d, 10)
    ensures ParseInt(['-'] + d) == Some(-(ValueIn(d, 10) as int))
  {
    var s := ['-'] + d;
    TrimStartKeeps(s);
    assert TrimStart(s)[1..] == d;
    ParseMagnitudeOfDigits(d);
  }

  /** `parseInt(String(i)) == i`: rendering an integer and parsing it back
      is the identity, so a number typed as its decimal text is read as
      that number. */
  lemma {:induction false} IntToStringParses(i: int)
    ensures ParseInt(IntToString(i)) == Some(i)
  {
    var n: nat := if i < 0 then -i else i;
    NatToStringValue(n);
    if i < 0 {
      ParseNegatedDigits(NatToString(n));
      assert IntToString(i) == ['-'] + NatToString(n);
    } else {
      ParseUnsignedDigits(NatToString(n));
    }
  }

  /** The digit run stops where the digits stop. */
  lemma {:induction false} DigitRunOfPrefix(d: string, rest: string)
    requires AllDigitsIn(d, 10)
    requires rest == [] || !IsDigitIn(rest[0], 10)
    ensures DigitRun(d + rest, 10) == d
  {
    if d == [] {
      assert d + rest == rest;
    } else {
      assert (d + rest)[1..] == d[1..] + rest;
      DigitRunOfPrefix(d[1..], rest);
    }
  }

  /** A text that starts with a decimal digit has no white space, sign or
      prefix for `parseInt` to skip before its magnitude. */
  lemma {:induction false} ParseIntOfDigitStart(s: string)
    requires s != [] && IsDigitIn(s[0], 10)
    ensures ParseInt(s) == ParseMagnitude(s)
  {
    TrimStartKeeps(s);
  }

  /** `parseInt` of a decimal digit string followed by text that does not
      start with a digit reads the digit string and ignores the rest; only
      "0" followed by `x` or `X` would switch to base 16 instead. */
  lemma {:induction false} ParseDigitsThenText(d: string, rest: string)
    requires d != [] && AllDigitsIn(d, 10)
    requires rest != [] && !IsDigitIn(rest[0], 10)
    requires d == "0" ==> rest[0] != 'x' && rest[0] != 'X'
    ensures ParseInt(d + rest) == Some(ValueIn(d, 10))
  {
    var s := d + rest;
    assert s[0] == d[0] && IsDigitIn(d[0], 10);
    ParseIntOfDigitStart(s);
    assert s[1] == (if |d| >= 2 then d[1] else rest[0]);
    assert |d| >= 2 ==> IsDigitIn(d[1], 10);
    assert |d| == 1 ==> d == [d[0]];
    assert ParseMagnitude(s) == LeadingValue(s, 10);
    DigitRunOfPrefix(d, rest);
  }

  /** A leading zero does not change the value of a digit string. */
  lemma {:induction false} LeadingZeroValue(s: string)
    requires AllDigitsIn(s, 10)
    ensures AllDigitsIn(['0'] + s, 10)
    ensures ValueIn(['0'] + s, 10) == ValueIn(s, 10)
  {
    var z := ['0'] + s;
    assert forall i | 0 < i < |z| :: z[i] == s[i - 1];
    if s != [] {
      assert z[..|z| - 1] == ['0'] + s[..|s| - 1];
      LeadingZeroValue(s[..|s| - 1]);
    }
  }

  /** Padding a digit string with zeros keeps it a digit string of the
      same value. */
  lemma {:induction false} PadStartValue(s: string, width: nat)
    requires AllDigitsIn(s, 10)
    ensures AllDigitsIn(PadStart(s, width, '0'), 10)
    ensures ValueIn(PadStart(s, width, '0'), 10) == ValueIn(s, 10)
    decreases width - |s|
  {
    if |s| < width {
      LeadingZeroValue(s);
      PadStartValue(['0'] + s, width);
    }
  }
}
