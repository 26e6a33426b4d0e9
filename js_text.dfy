/** The JavaScript string and number built-ins that the scripts rely on, written out as explicit
    functions: trim, the decimal and hexadecimal digit grammar of parseInt, the decimal grammar of
    parseFloat, number-to-string, and split and join on one character. */
module JsText {
  import opened Types

  /** JavaScript WhiteSpace and LineTerminator code points: what String.prototype.trim removes and
      what the regular-expression class \s matches. */
  predicate IsWhiteSpace(c: char)
  {
    var n := c as int;
    n == 0x09 || n == 0x0A || n == 0x0B || n == 0x0C || n == 0x0D || n == 0x20 || n == 0xA0 ||
    n == 0x1680 || (0x2000 <= n <= 0x200A) || n == 0x2028 || n == 0x2029 || n == 0x202F ||
    n == 0x205F || n == 0x3000 || n == 0xFEFF
  }

  predicate AllWhiteSpace(s: string)
  {
    forall i :: 0 <= i < |s| ==> IsWhiteSpace(s[i])
  }

  /** String.prototype.trimStart: the suffix left after dropping leading white space. */
  function TrimStart(s: string): string
  {
    if s != [] && IsWhiteSpace(s[0]) then TrimStart(s[1..]) else s
  }

  /** trimStart drops exactly the leading run of white space. */
  lemma {:induction false} TrimStartSpec(s: string)
    ensures |TrimStart(s)| <= |s| && TrimStart(s) == s[|s| - |TrimStart(s)|..]
    ensures AllWhiteSpace(s[..|s| - |TrimStart(s)|])
    ensures TrimStart(s) != [] ==> !IsWhiteSpace(TrimStart(s)[0])
  {
    if s != [] && IsWhiteSpace(s[0]) {
      var r := TrimStart(s[1..]);
      TrimStartSpec(s[1..]);
      assert s[..|s| - |r|] == [s[0]] + s[1..][..|s| - 1 - |r|];
    }
  }

  /** String.prototype.trimEnd: the prefix left after dropping trailing white space. */
  function TrimEnd(s: string): string
  {
    if s != [] && IsWhiteSpace(s[|s| - 1]) then TrimEnd(s[..|s| - 1]) else s
  }

  /** trimEnd drops exactly the trailing run of white space. */
  lemma {:induction false} TrimEndSpec(s: string)
    ensures |TrimEnd(s)| <= |s| && TrimEnd(s) == s[..|TrimEnd(s)|]
    ensures AllWhiteSpace(s[|TrimEnd(s)|..])
    ensures TrimEnd(s) != [] ==> !IsWhiteSpace(TrimEnd(s)[|TrimEnd(s)| - 1])
  {
    if s != [] && IsWhiteSpace(s[|s| - 1]) {
      var r := TrimEnd(s[..|s| - 1]);
      TrimEndSpec(s[..|s| - 1]);
      assert s[|r|..] == s[..|s| - 1][|r|..] + [s[|s| - 1]];
    }
  }

  /** String.prototype.trim. */
  function Trim(s: string): string
  {
    TrimEnd(TrimStart(s))
  }

  /** trim keeps the middle of the string between a leading and a trailing run of white space,
      and what it keeps neither starts nor ends with white space. */
  lemma TrimSpec(s: string)
    ensures exists k :: 0 <= k <= |s| - |Trim(s)| && Trim(s) == s[k..k + |Trim(s)|]
                        && AllWhiteSpace(s[..k]) && AllWhiteSpace(s[k + |Trim(s)|..])
    ensures Trim(s) != [] ==> !IsWhiteSpace(Trim(s)[0]) && !IsWhiteSpace(Trim(s)[|Trim(s)| - 1])
  {
    var t := TrimStart(s);
    var r := TrimEnd(t);
    TrimStartSpec(s);
    TrimEndSpec(t);
    assert Trim(s) == r;
    var k := |s| - |t|;
    assert s[k + |r|..] == t[|r|..];
    assert r == s[k..k + |r|];
    assert 0 <= k <= |s| - |r| && AllWhiteSpace(s[..k]) && AllWhiteSpace(s[k + |r|..]);
    if r != [] {
      assert r[0] == t[0];
      assert r[|r| - 1] == t[|r| - 1];
    }
  }

  /** A string with no white space at either end is left alone by trim. */
  lemma TrimNoEdges(s: string)
    requires s != [] && !IsWhiteSpace(s[0]) && !IsWhiteSpace(s[|s| - 1])
    ensures Trim(s) == s
  {
    TrimSpec(s);
    var r := Trim(s);
    var k :| 0 <= k <= |s| - |r| && r == s[k..k + |r|] && AllWhiteSpace(s[..k]) && AllWhiteSpace(s[k + |r|..]);
  }

  predicate IsDigit(c: char)
  {
    '0' <= c <= '9'
  }

  predicate AllDigits(s: string)
  {
    forall i :: 0 <= i < |s| ==> IsDigit(s[i])
  }

  /** The longest prefix of s made of decimal digits. */
  function DigitPrefix(s: string): (r: string)
    ensures |r| <= |s|
  {
    if s != [] && IsDigit(s[0]) then [s[0]] + DigitPrefix(s[1..]) else []
  }

  lemma {:induction false} DigitPrefixSpec(s: string)
    ensures |DigitPrefix(s)| <= |s| && DigitPrefix(s) == s[..|DigitPrefix(s)|] && AllDigits(DigitPrefix(s))
    ensures |DigitPrefix(s)| < |s| ==> !IsDigit(s[|DigitPrefix(s)|])
  {
    if s != [] && IsDigit(s[0]) {
      var t := s[1..];
      var d := DigitPrefix(t);
      DigitPrefixSpec(t);
      assert s[..1 + |d|] == [s[0]] + t[..|d|];
    }
  }

  /** The value of a string of decimal digits, most significant first (it is only applied to
      digit strings). */
  function DecValue(d: string): int
  {
    if d == [] then 0 else 10 * DecValue(d[..|d| - 1]) + (d[|d| - 1] as int - '0' as int)
  }

  lemma {:induction false} DecValueBound(d: string)
    requires AllDigits(d)
    ensures 0 <= DecValue(d) < Pow10(|d|)
  {
    if d != [] {
      DecValueBound(d[..|d| - 1]);
    }
  }

  function Pow10(n: nat): (r: nat)
    ensures r >= 1
  {
    if n == 0 then 1 else 10 * Pow10(n - 1)
  }

  predicate IsHexDigit(c: char)
  {
    IsDigit(c) || 'a' <= c <= 'f' || 'A' <= c <= 'F'
  }

  function HexDigitValue(c: char): int
  {
    if IsDigit(c) then c as int - '0' as int
    else if 'a' <= c <= 'f' then c as int - 'a' as int + 10
    else c as int - 'A' as int + 10
  }

  /** The longest prefix of s made of hexadecimal digits. */
  function HexPrefix(s: string): string
  {
    if s != [] && IsHexDigit(s[0]) then [s[0]] + HexPrefix(s[1..]) else []
  }

  /** The value of a string of hexadecimal digits (it is only applied to such strings). */
  function HexValue(h: string): int
  {
    if h == [] then 0 else 16 * HexValue(h[..|h| - 1]) + HexDigitValue(h[|h| - 1])
  }

  /** The digit prefix stops at the first non-digit. */
  lemma {:induction false} DigitPrefixAppend(d: string, rest: string)
    requires AllDigits(d)
    requires rest != [] && !IsDigit(rest[0])
    ensures DigitPrefix(d + rest) == d
  {
    if d != [] {
      assert (d + rest)[1..] == d[1..] + rest;
      DigitPrefixAppend(d[1..], rest);
    } else {
      assert d + rest == rest;
    }
  }

  /** The decimal rendering of a natural number, as String(n) gives it. */
  function NatToString(n: nat): string
  {
    var d := ['0' + (n % 10) as char];
    if n < 10 then d else NatToString(n / 10) + d
  }

  /** The rendering is a non-empty digit string without a leading zero, except for "0" itself. */
  lemma {:induction false} NatToStringDigits(n: nat)
    ensures |NatToString(n)| >= 1 && AllDigits(NatToString(n))
    ensures NatToString(n)[0] == '0' ==> n == 0 && NatToString(n) == "0"
  {
    if n >= 10 {
      NatToStringDigits(n / 10);
      assert NatToString(n)[0] == NatToString(n / 10)[0];
    }
  }

  /** String(i) for an integer. */
  function IntToString(i: int): string
  {
    if i < 0 then "-" + NatToString(-i) else NatToString(i)
  }

  /** Reading the rendering of n back as decimal digits gives n. */
  lemma {:induction false} NatToStringValue(n: nat)
    ensures DecValue(NatToString(n)) == n
  {
    var d := ['0' + (n % 10) as char];
    if n >= 10 {
      var p := NatToString(n / 10);
      NatToStringValue(n / 10);
      assert (p + d)[..|p + d| - 1] == p;
    }
  }

  /** Splits an optional leading sign off, as parseInt and parseFloat do. */
  function SignOf(t: string): (bool, string)
  {
    if t != [] && t[0] == '-' then (true, t[1..])
    else if t != [] && t[0] == '+' then (false, t[1..])
    else (false, t)
  }

  /** parseInt(s) with no radix: leading white space, an optional sign, then either "0x"/"0X" and
      hexadecimal digits or decimal digits; None stands for NaN (no digit at all). */
  function ParseInt(s: string): Option<int>
  {
    var (negative, u) := SignOf(TrimStart(s));
    var magnitude: Option<int> :=
      if |u| >= 2 && u[0] == '0' && (u[1] == 'x' || u[1] == 'X') then
        var h := HexPrefix(u[2..]);
        if h == [] then None else Some(HexValue(h))
      else
        var d := DigitPrefix(u);
        if d == [] then None else Some(DecValue(d));
    match magnitude
    case None => None
    case Some(m) => Some(if negative then -m else m)
  }

  /** parseInt reads a non-empty run of decimal digits as its decimal value. */
  lemma ParseIntDigits(d: string)
    requires d != [] && AllDigits(d)
    ensures ParseInt(d) == Some(DecValue(d))
  {
    assert IsDigit(d[0]);
    assert TrimStart(d) == d;
    assert SignOf(d) == (false, d);
    assert !(|d| >= 2 && d[1] == 'x') && !(|d| >= 2 && d[1] == 'X') by {
      if |d| >= 2 { assert IsDigit(d[1]); }
    }
    DigitPrefixAll(d);
  }

  /** The rendering of every positive integer parses back to that integer. */
  lemma ParseIntNatToString(n: nat)
    ensures ParseInt(NatToString(n)) == Some(n)
  {
    var s := NatToString(n);
    NatToStringDigits(n);
    assert !IsWhiteSpace(s[0]);
    assert TrimStart(s) == s;
    assert SignOf(s) == (false, s);
    assert !(|s| >= 2 && s[1] == 'x') && !(|s| >= 2 && s[1] == 'X') by {
      if |s| >= 2 { assert IsDigit(s[1]); }
    }
    DigitPrefixAll(s);
    NatToStringValue(n);
  }

  /** String(i) parses back to i for every integer, negative ones included. */
  lemma ParseIntIntToString(i: int)
    ensures ParseInt(IntToString(i)) == Some(i)
  {
    if i >= 0 {
      ParseIntNatToString(i);
    } else {
      var t := NatToString(-i);
      var s := "-" + t;
      NatToStringDigits(-i);
      assert TrimStart(s) == s;
      assert s[1..] == t;
      assert SignOf(s) == (true, t);
      assert !(|t| >= 2 && t[1] == 'x') && !(|t| >= 2 && t[1] == 'X') by {
        if |t| >= 2 { assert IsDigit(t[1]); }
      }
      DigitPrefixAll(t);
      NatToStringValue(-i);
    }
  }

  lemma {:induction false} DigitPrefixAll(s: string)
    requires AllDigits(s)
    ensures DigitPrefix(s) == s
  {
    if s != [] {
      DigitPrefixAll(s[1..]);
    }
  }

  /** The JavaScript numbers parseFloat can produce. A finite value is kept exactly, as a sign and
      the decimal digits before and after the point in canonical form (no leading zero in `whole`,
      no trailing zero in `frac`). */
  datatype JsNumber = NaN | Infinity(negative: bool) | Finite(negative: bool, whole: string, frac: string)
  {
    /** The test `x > 0`. */
    predicate IsPositive()
    {
      (Infinity? && !negative) || (Finite? && !negative && (whole != [] || frac != []))
    }
  }

  /** Drops leading '0' characters. */
  function StripLeadingZeros(d: string): string
  {
    if d != [] && d[0] == '0' then StripLeadingZeros(d[1..]) else d
  }

  /** Drops trailing '0' characters. */
  function StripTrailingZeros(d: string): string
  {
    if d != [] && d[|d| - 1] == '0' then StripTrailingZeros(d[..|d| - 1]) else d
  }

  /** Stripping leading zeros only cuts at the front, up to a non-zero digit. */
  lemma {:induction false} StripLeadingZerosSpec(d: string)
    ensures |StripLeadingZeros(d)| <= |d| && StripLeadingZeros(d) == d[|d| - |StripLeadingZeros(d)|..]
    ensures StripLeadingZeros(d) != [] ==> StripLeadingZeros(d)[0] != '0'
  {
    if d != [] && d[0] == '0' {
      StripLeadingZerosSpec(d[1..]);
    }
  }

  /** Stripping trailing zeros only cuts at the back, down to a non-zero digit. */
  lemma {:induction false} StripTrailingZerosSpec(d: string)
    ensures |StripTrailingZeros(d)| <= |d| && StripTrailingZeros(d) == d[..|StripTrailingZeros(d)|]
    ensures StripTrailingZeros(d) != [] ==> StripTrailingZeros(d)[|StripTrailingZeros(d)| - 1] != '0'
  {
    if d != [] && d[|d| - 1] == '0' {
      var p := d[..|d| - 1];
      StripTrailingZerosSpec(p);
      assert p[..|StripTrailingZeros(p)|] == d[..|StripTrailingZeros(p)|];
    }
  }

  predicate StartsWith(s: string, prefix: string)
  {
    |prefix| <= |s| && s[..|prefix|] == prefix
  }

  /** Leading zeros stripped from a digit string leave a digit string that does not start with '0'. */
  lemma StripLeadingZerosDigits(w: string)
    requires AllDigits(w)
    ensures AllDigits(StripLeadingZeros(w))
    ensures StripLeadingZeros(w) != [] ==> StripLeadingZeros(w)[0] != '0'
  {
    StripLeadingZerosSpec(w);
    var w' := StripLeadingZeros(w);
    assert forall i :: 0 <= i < |w'| ==> w'[i] == w[|w| - |w'| + i];
  }

  /** Trailing zeros stripped from a digit string leave a digit string that does not end with '0'. */
  lemma StripTrailingZerosDigits(f: string)
    requires AllDigits(f)
    ensures AllDigits(StripTrailingZeros(f))
    ensures StripTrailingZeros(f) != [] ==> StripTrailingZeros(f)[|StripTrailingZeros(f)| - 1] != '0'
  {
    StripTrailingZerosSpec(f);
    var f' := StripTrailingZeros(f);
    assert forall i :: 0 <= i < |f'| ==> f'[i] == f[i];
  }

  /** The digits after a decimal point at the start of rest, if there is one. */
  function FractionDigits(rest: string): string
  {
    if rest != [] && rest[0] == '.' then DigitPrefix(rest[1..]) else []
  }

  lemma FractionDigitsAreDigits(rest: string)
    ensures AllDigits(FractionDigits(rest))
  {
    if rest != [] && rest[0] == '.' {
      DigitPrefixSpec(rest[1..]);
    }
  }

  /** The decimal part of parseFloat after the sign: the longest prefix of u of the form
      digits[.digits] or .digits, NaN when there is none. */
  function ParseDecimal(negative: bool, u: string): JsNumber
  {
    var w := DigitPrefix(u);
    var f := FractionDigits(u[|w|..]);
    if w == [] && f == [] then NaN
    else Finite(negative, StripLeadingZeros(w), StripTrailingZeros(f))
  }

  lemma ParseDecimalDigits(negative: bool, u: string)
    ensures ParseDecimal(negative, u).Finite? ==>
              AllDigits(ParseDecimal(negative, u).whole) && AllDigits(ParseDecimal(negative, u).frac)
    ensures ParseDecimal(negative, u).Finite? && ParseDecimal(negative, u).whole != [] ==>
              ParseDecimal(negative, u).whole[0] != '0'
    ensures ParseDecimal(negative, u).Finite? && ParseDecimal(negative, u).frac != [] ==>
              ParseDecimal(negative, u).frac[|ParseDecimal(negative, u).frac| - 1] != '0'
  {
    var w := DigitPrefix(u);
    DigitPrefixSpec(u);
    var f := FractionDigits(u[|w|..]);
    FractionDigitsAreDigits(u[|w|..]);
    StripLeadingZerosDigits(w);
    StripTrailingZerosDigits(f);
  }

  /** A finite result of parseFloat is held in canonical digit strings. */
  lemma ParseFloatDigits(s: string)
    ensures ParseFloat(s).Finite? ==> AllDigits(ParseFloat(s).whole) && AllDigits(ParseFloat(s).frac)
    ensures ParseFloat(s).Finite? && ParseFloat(s).whole != [] ==> ParseFloat(s).whole[0] != '0'
    ensures ParseFloat(s).Finite? && ParseFloat(s).frac != [] ==> ParseFloat(s).frac[|ParseFloat(s).frac| - 1] != '0'
  {
    var (negative, u) := SignOf(TrimStart(s));
    ParseDecimalDigits(negative, u);
  }

  /** parseFloat(s): leading white space, an optional sign, then "Infinity" or a decimal number;
      None of these is NaN. */
  function ParseFloat(s: string): JsNumber
  {
    var (negative, u) := SignOf(TrimStart(s));
    if StartsWith(u, "Infinity") then Infinity(negative) else ParseDecimal(negative, u)
  }

  /** String(x) for a number in the range the model covers (no exponent notation). */
  function NumberToString(x: JsNumber): string
  {
    match x
    case NaN => "NaN"
    case Infinity(negative) => if negative then "-Infinity" else "Infinity"
    case Finite(negative, whole, frac) =>
      (if negative && (whole != [] || frac != []) then "-" else "")
      + (if whole == [] then "0" else whole)
      + (if frac == [] then "" else "." + frac)
  }

  /** A non-negative number whose whole digits are t, or nothing when t is "0", prints as t
      followed by its fraction. */
  lemma NumberToStringWhole(t: string, w: string, f: string)
    requires t != [] && (w == t || (w == [] && t == "0"))
    ensures NumberToString(Finite(false, w, f)) == t + (if f == [] then "" else "." + f)
  {
    var x := Finite(false, w, f);
    var fr := if f == [] then "" else "." + f;
    var sign: string := "";
    assert NumberToString(x) == sign + (if w == [] then "0" else w) + fr;
    assert sign + (if w == [] then "0" else w) == t;
  }

  /** The value of a finite number: the whole digits plus the fraction digits over the matching
      power of ten, with the sign applied. */
  function Value(x: JsNumber): real
    requires x.Finite?
  {
    var m := DecValue(x.whole) as real + DecValue(x.frac) as real / Pow10(|x.frac|) as real;
    if x.negative then -m else m
  }

  /** A text starting with a digit has no white space, sign or "Infinity" in front for parseFloat
      to consume. */
  lemma ParseFloatDigitStart(s: string)
    requires s != [] && IsDigit(s[0])
    ensures ParseFloat(s) == ParseDecimal(false, s)
  {
    assert TrimStart(s) == s;
    assert SignOf(s) == (false, s);
    assert |s| < 8 || s[..8][0] == s[0];
  }

  lemma ParseDecimalWhole(t: string)
    requires AllDigits(t)
    ensures ParseDecimal(false, t) == if t == [] then NaN else Finite(false, StripLeadingZeros(t), "")
  {
    DigitPrefixAll(t);
    assert t[|t|..] == [];
  }

  lemma ParseDecimalFraction(t: string, f: string)
    requires AllDigits(t) && AllDigits(f)
    requires f != [] && f[|f| - 1] != '0'
    ensures ParseDecimal(false, t + ("." + f)) == Finite(false, StripLeadingZeros(t), f)
  {
    var s := t + ("." + f);
    DigitPrefixAppend(t, "." + f);
    assert s[|t|..] == "." + f;
    assert ("." + f)[1..] == f;
    DigitPrefixAll(f);
    assert StripTrailingZeros(f) == f;
  }

  /** parseFloat of digits, optionally followed by a point and digits that do not end in '0',
      keeps the fraction and drops the leading zeros of the whole part. */
  lemma ParseFloatDecimal(t: string, f: string)
    requires t != [] && AllDigits(t) && AllDigits(f)
    requires f == [] || f[|f| - 1] != '0'
    ensures ParseFloat(t + (if f == [] then "" else "." + f)) == Finite(false, StripLeadingZeros(t), f)
  {
    var s := t + (if f == [] then "" else "." + f);
    assert s[0] == t[0];
    ParseFloatDigitStart(s);
    if f == [] {
      assert s == t;
      ParseDecimalWhole(t);
    } else {
      assert s == t + ("." + f);
      ParseDecimalFraction(t, f);
    }
  }

  /** The rendering of n has no leading zero to strip, except "0", which strips to nothing; either
      way the digits left have the value n. */
  lemma StripNatToString(n: nat)
    ensures StripLeadingZeros(NatToString(n)) == if n == 0 then "" else NatToString(n)
    ensures DecValue(StripLeadingZeros(NatToString(n))) == n
  {
    var t := NatToString(n);
    NatToStringDigits(n);
    NatToStringValue(n);
    if t[0] == '0' {
      assert t == "0";
      assert t[1..] == "";
    }
  }

  /** The renderings of numbers hold no quote and no comma, so they are plain CSV fields. */
  lemma {:induction false} IntToStringPlain(i: int)
    ensures '"' !in IntToString(i) && ',' !in IntToString(i)
  {
    var d := NatToString(if i < 0 then -i else i);
    NatToStringDigits(if i < 0 then -i else i);
    assert forall k :: 0 <= k < |d| ==> IsDigit(d[k]);
  }

  lemma NumberToStringPlain(x: JsNumber)
    requires x.Finite? ==> AllDigits(x.whole) && AllDigits(x.frac)
    ensures '"' !in NumberToString(x) && ',' !in NumberToString(x)
  {
    if x.Finite? {
      DigitsPlain(x.whole);
      DigitsPlain(x.frac);
      var sign := if x.negative && (x.whole != [] || x.frac != []) then "-" else "";
      var whole := if x.whole == [] then "0" else x.whole;
      var frac := if x.frac == [] then "" else "." + x.frac;
      assert NumberToString(x) == sign + whole + frac;
    }
  }

  lemma DigitsPlain(s: string)
    requires AllDigits(s)
    ensures '"' !in s && ',' !in s
  {
    forall i | 0 <= i < |s|
      ensures s[i] != '"' && s[i] != ','
    {
      assert IsDigit(s[i]);
    }
  }

  /** Array.prototype.join(sep) on strings. */
  function JoinWith(parts: seq<string>, sep: char): string
  {
    if |parts| == 0 then ""
    else if |parts| == 1 then parts[0]
    else JoinWith(parts[..|parts| - 1], sep) + [sep] + parts[|parts| - 1]
  }

  /** String.prototype.split(sep) for a one-character separator, by prefix: the fields of s + [c]
      are the fields of s with c either starting a new field or extending the last one. */
  function SplitOn(s: string, sep: char): (r: seq<string>)
    ensures |r| >= 1
  {
    if s == [] then [""]
    else
      var ps := SplitOn(s[..|s| - 1], sep);
      var c := s[|s| - 1];
      if c == sep then ps + [""] else ps[..|ps| - 1] + [ps[|ps| - 1] + [c]]
  }

  lemma JoinWithSnoc(ps: seq<string>, x: string, sep: char)
    requires |ps| >= 1
    ensures JoinWith(ps + [x], sep) == JoinWith(ps, sep) + [sep] + x
  {
    assert (ps + [x])[..|ps|] == ps;
  }

  lemma JoinWithExtendLast(ps: seq<string>, c: char, sep: char)
    requires |ps| >= 1
    ensures JoinWith(ps[..|ps| - 1] + [ps[|ps| - 1] + [c]], sep) == JoinWith(ps, sep) + [c]
  {
    if |ps| > 1 {
      JoinWithSnoc(ps[..|ps| - 1], ps[|ps| - 1] + [c], sep);
      assert ps[..|ps| - 1] + [ps[|ps| - 1]] == ps;
      JoinWithSnoc(ps[..|ps| - 1], ps[|ps| - 1], sep);
    }
  }

  /** Joining the pieces of a split with the same separator gives back the string. */
  lemma {:induction false} JoinSplitOn(s: string, sep: char)
    ensures JoinWith(SplitOn(s, sep), sep) == s
  {
    if s != [] {
      var p := s[..|s| - 1];
      var c := s[|s| - 1];
      var ps := SplitOn(p, sep);
      JoinSplitOn(p, sep);
      assert s == p + [c];
      if c == sep {
        assert SplitOn(s, sep) == ps + [""];
        JoinWithSnoc(ps, "", sep);
      } else {
        assert SplitOn(s, sep) == ps[..|ps| - 1] + [ps[|ps| - 1] + [c]];
        JoinWithExtendLast(ps, c, sep);
      }
    }
  }

  /** A join starts with its first part. */
  lemma {:induction false} JoinWithFirst(ps: seq<string>, sep: char)
    requires |ps| >= 1
    ensures |JoinWith(ps, sep)| >= |ps[0]| && JoinWith(ps, sep)[..|ps[0]|] == ps[0]
  {
    if |ps| > 1 {
      JoinWithFirst(ps[..|ps| - 1], sep);
    }
  }
}
