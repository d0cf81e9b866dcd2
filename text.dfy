/** The string primitives the intake path relies on: Python's `str.strip()`,
    `str.lower()`, `int(str)`, `str(int)` and the acceptance test of
    `float(str)`, written out over `seq<char>`. */
module Text {

  import opened Wrappers

  // ---------------------------------------------------------------------
  // Whitespace and strip()
  // ---------------------------------------------------------------------

  /** The characters for which Python's `str.isspace()` holds. */
  predicate IsSpace(c: char)
  {
    || ('\t' <= c <= '\r')
    || ('\U{1C}' <= c <= ' ')
    || c == '\U{85}' || c == '\U{A0}' || c == '\U{1680}'
    || ('\U{2000}' <= c <= '\U{200A}')
    || c == '\U{2028}' || c == '\U{2029}' || c == '\U{202F}'
    || c == '\U{205F}' || c == '\U{3000}'
  }

  /** The number of leading whitespace characters of `s`. */
  function Leading(s: string): (n: nat)
    ensures n <= |s|
    ensures forall i :: 0 <= i < n ==> IsSpace(s[i])
    ensures n < |s| ==> !IsSpace(s[n])
  {
    if |s| > 0 && IsSpace(s[0]) then
      var n := 1 + Leading(s[1..]);
      assert forall i :: 1 <= i < |s| ==> s[i] == s[1..][i - 1];
      n
    else 0
  }

  /** The length of `s` without its trailing whitespace. */
  function TrailingStart(s: string): (e: nat)
    ensures e <= |s|
    ensures forall i :: e <= i < |s| ==> IsSpace(s[i])
    ensures e > 0 ==> !IsSpace(s[e - 1])
  {
    if |s| > 0 && IsSpace(s[|s| - 1]) then
      var e := TrailingStart(s[..|s| - 1]);
      assert forall i :: 0 <= i < |s| - 1 ==> s[i] == s[..|s| - 1][i];
      e
    else |s|
  }

  /** Python's `s.strip()`: the infix of `s` left once the leading and the
      trailing whitespace are removed; it neither starts nor ends with
      whitespace. */
  function Strip(s: string): (r: string)
    ensures r == [] || (!IsSpace(r[0]) && !IsSpace(r[|r| - 1]))
    ensures Leading(s) + |r| <= |s| && r == s[Leading(s)..Leading(s) + |r|]
    ensures forall i :: 0 <= i < Leading(s) ==> IsSpace(s[i])
    ensures forall i :: Leading(s) + |r| <= i < |s| ==> IsSpace(s[i])
  {
    var a := Leading(s);
    if a == |s| then
      assert s[a..a] == [];
      []
    else
      var e := TrailingStart(s);
      assert a < e;
      var r := s[a..e];
      assert |r| == e - a && a + |r| == e;
      assert r == s[a..a + |r|];
      assert r[0] == s[a] && r[|r| - 1] == s[e - 1];
      r
  }

  /** A string without whitespace at either end is its own strip. */
  lemma StripNoEdges(s: string)
    requires s == [] || (!IsSpace(s[0]) && !IsSpace(s[|s| - 1]))
    ensures Strip(s) == s && Leading(s) == 0
  {
    if s != [] {
      assert Leading(s) == 0 && TrailingStart(s) == |s|;
      assert s[0..|s|] == s;
    }
  }

  /** strip() is idempotent. */
  lemma StripIdempotent(s: string)
    ensures Strip(Strip(s)) == Strip(s)
  {
    StripNoEdges(Strip(s));
  }

  /** Python's `not s.strip()`. */
  predicate IsBlank(s: string)
  {
    Strip(s) == []
  }

  /** A string is blank exactly when every character of it is whitespace. */
  lemma BlankIffAllSpace(s: string)
    ensures IsBlank(s) <==> forall i :: 0 <= i < |s| ==> IsSpace(s[i])
  {
    if forall i :: 0 <= i < |s| ==> IsSpace(s[i]) {
      assert Leading(s) == |s|;
    }
  }

  // ---------------------------------------------------------------------
  // lower()
  // ---------------------------------------------------------------------

  /** An ASCII capital letter, the only characters the model lowers. */
  predicate IsUpper(c: char)
  {
    'A' <= c <= 'Z'
  }

  function LowerChar(c: char): char
  {
    if IsUpper(c) then (c as int + 32) as char else c
  }

  /** `s.lower()`, restricted to the ASCII letters: every capital becomes its
      small letter, every other character is kept, and no capital remains. */
  function Lower(s: string): (r: string)
    ensures |r| == |s|
    ensures forall i :: 0 <= i < |s| && !IsUpper(s[i]) ==> r[i] == s[i]
    ensures forall i :: 0 <= i < |s| && IsUpper(s[i]) ==> 'a' <= r[i] <= 'z' && r[i] as int - s[i] as int == 32
    ensures forall i :: 0 <= i < |r| ==> !IsUpper(r[i])
  {
    seq(|s|, i requires 0 <= i < |s| => LowerChar(s[i]))
  }

  /** Lower-casing twice is lower-casing once. */
  lemma LowerIdempotent(s: string)
    ensures Lower(Lower(s)) == Lower(s)
  {
  }

  /** Two characters that are equal up to ASCII letter case. */
  predicate SameIgnoringCase(a: char, b: char)
  {
    || a == b
    || ('a' <= a <= 'z' && b as int == a as int - 32)
    || ('a' <= b <= 'z' && a as int == b as int - 32)
  }

  /** Two strings of one length that agree position by position up to case. */
  predicate CaseInsensitiveEqual(s: string, t: string)
  {
    |s| == |t| && forall i :: 0 <= i < |s| ==> SameIgnoringCase(s[i], t[i])
  }

  /** `lower()` identifies exactly the strings that differ only in the case
      of their ASCII letters. */
  lemma LowerEqualIff(s: string, t: string)
    ensures Lower(s) == Lower(t) <==> CaseInsensitiveEqual(s, t)
  {
    if Lower(s) == Lower(t) {
      forall i | 0 <= i < |s| ensures SameIgnoringCase(s[i], t[i]) {
        assert Lower(s)[i] == Lower(t)[i];
      }
    }
    if CaseInsensitiveEqual(s, t) {
      forall i | 0 <= i < |s| ensures Lower(s)[i] == Lower(t)[i] {
        assert SameIgnoringCase(s[i], t[i]);
      }
    }
  }

  // ---------------------------------------------------------------------
  // Whitespace around a number
  // ---------------------------------------------------------------------

  /** The whitespace `int()` and `float()` skip around a number: the ASCII
      characters tab to carriage return and space, and every non-ASCII
      character `str.isspace()` accepts. The separators U+001C to U+001F
      count for `strip()` but not here. */
  predicate IsNumericSpace(c: char)
  {
    IsSpace(c) && !('\U{1C}' <= c <= '\U{1F}')
  }

  /** Whatever `strip()` removes from `s` is whitespace `int()` and
      `float()` skip as well. */
  predicate NumericPadding(s: string)
  {
    && (forall i :: 0 <= i < Leading(s) ==> IsNumericSpace(s[i]))
    && (forall i :: Leading(s) + |Strip(s)| <= i < |s| ==> IsNumericSpace(s[i]))
  }

  /** A string with no whitespace at either end has no padding to check. */
  lemma NoEdgesPadding(s: string)
    requires s == [] || (!IsSpace(s[0]) && !IsSpace(s[|s| - 1]))
    ensures NumericPadding(s)
  {
    StripNoEdges(s);
  }

  /** An information separator (U+001C to U+001F) at the end of a string
      leaves padding `int()` and `float()` do not skip, so both raise,
      although `strip()` removes the separator. */
  lemma SeparatorPaddingRejected(s: string, c: char)
    requires '\U{1C}' <= c <= '\U{1F}'
    ensures !NumericPadding(s + [c])
    ensures ParseInt(s + [c]) == None && !IsFloatLiteral(s + [c])
  {
    var u := s + [c];
    var n := |u| - 1;
    assert u[n] == c && IsSpace(c) && !IsNumericSpace(c);
    var r, a := Strip(u), Leading(u);
    if r != [] {
      assert r[|r| - 1] == u[a + |r| - 1];
      assert a + |r| <= n;
    }
  }

  // ---------------------------------------------------------------------
  // int() and str()
  // ---------------------------------------------------------------------

  predicate IsDigit(c: char)
  {
    '0' <= c <= '9'
  }

  /** Position `i` of `d` holds a digit, or an underscore between two
      digits. */
  predicate DigitRunChar(d: string, i: nat)
    requires i < |d|
  {
    IsDigit(d[i]) || (d[i] == '_' && 0 < i < |d| - 1 && IsDigit(d[i - 1]) && IsDigit(d[i + 1]))
  }

  /** A run of decimal digits in which single underscores may separate two
      digits, as `int()` and `float()` accept it. */
  predicate IsDigitRun(d: string)
  {
    |d| > 0 && forall i :: 0 <= i < |d| ==> DigitRunChar(d, i)
  }

  /** The value of a digit run, underscores skipped. */
  function DigitsValue(d: string): nat
  {
    if |d| == 0 then 0
    else if IsDigit(d[|d| - 1]) then DigitsValue(d[..|d| - 1]) * 10 + (d[|d| - 1] as int - '0' as int)
    else DigitsValue(d[..|d| - 1])
  }

  function IsSign(c: char): bool
  {
    c == '+' || c == '-'
  }

  /** Python's `int(s)` on a string: surrounding whitespace, an optional sign
      and a digit run; `None` where Python raises `ValueError`. */
  function ParseInt(s: string): (r: Option<int>)
    ensures r.Some? <==> NumericPadding(s) && (var t := Strip(s); IsDigitRun(if |t| > 0 && IsSign(t[0]) then t[1..] else t))
  {
    var t := Strip(s);
    if !NumericPadding(s) then None
    else if |t| > 0 && IsSign(t[0]) then
      if IsDigitRun(t[1..]) then
        var v: int := DigitsValue(t[1..]);
        Some(if t[0] == '-' then -v else v)
      else None
    else if IsDigitRun(t) then Some(DigitsValue(t))
    else None
  }

  function DigitChar(d: nat): (c: char)
    requires d < 10
    ensures IsDigit(c) && c as int - '0' as int == d
  {
    ('0' as int + d) as char
  }

  /** `str(n)` for a natural number: decimal digits, no leading zero. */
  function NatToString(n: nat): (r: string)
    ensures |r| > 0
    ensures forall i :: 0 <= i < |r| ==> IsDigit(r[i])
  {
    if n < 10 then [DigitChar(n)] else NatToString(n / 10) + [DigitChar(n % 10)]
  }

  /** `str(n)` for an integer. */
  function IntToString(n: int): (r: string)
    ensures |r| > 0 && !IsSpace(r[0]) && !IsSpace(r[|r| - 1])
    ensures forall i :: 0 <= i < |r| ==> r[i] != '_'
  {
    if n < 0 then "-" + NatToString(-n) else NatToString(n)
  }

  lemma {:induction false} NatToStringValue(n: nat)
    ensures DigitsValue(NatToString(n)) == n
  {
    if n >= 10 {
      var p := NatToString(n / 10);
      var s := p + [DigitChar(n % 10)];
      assert s[..|s| - 1] == p;
      NatToStringValue(n / 10);
    }
  }

  /** `int(str(n)) == n`. */
  lemma ParseIntToString(n: int)
    ensures ParseInt(IntToString(n)) == Some(n)
  {
    var s := IntToString(n);
    StripNoEdges(s);
    NoEdgesPadding(s);
    if n < 0 {
      assert s[1..] == NatToString(-n);
      NatToStringValue(-n);
    } else {
      NatToStringValue(n);
    }
  }

  /** `str` is injective on integers. */
  lemma IntToStringInjective(m: int, n: int)
    requires IntToString(m) == IntToString(n)
    ensures m == n
  {
    ParseIntToString(m);
    ParseIntToString(n);
  }

  // ---------------------------------------------------------------------
  // float() acceptance
  // ---------------------------------------------------------------------

  /** The first index of `c` in `s`, or `|s|`. */
  function IndexOf(s: string, c: char): (k: nat)
    ensures k <= |s|
    ensures forall i :: 0 <= i < k ==> s[i] != c
    ensures k < |s| ==> s[k] == c
  {
    if |s| == 0 then 0 else if s[0] == c then 0 else 1 + IndexOf(s[1..], c)
  }

  /** A mantissa: digits, digits '.', digits '.' digits, or '.' digits. */
  predicate IsMantissa(m: string)
  {
    var j := IndexOf(m, '.');
    if j == |m| then IsDigitRun(m)
    else
      && (j == 0 || IsDigitRun(m[..j]))
      && (j + 1 == |m| || IsDigitRun(m[j + 1..]))
      && !(j == 0 && j + 1 == |m|)
  }

  predicate IsExponent(e: string)
  {
    IsDigitRun(if |e| > 0 && IsSign(e[0]) then e[1..] else e)
  }

  predicate IsDecimalFloat(u: string)
  {
    var k := IndexOf(Lower(u), 'e');
    IsMantissa(u[..k]) && (k == |u| || IsExponent(u[k + 1..]))
  }

  /** Whether Python's `float(s)` returns rather than raising: surrounding
      whitespace, an optional sign, then a decimal literal or one of `inf`,
      `infinity`, `nan` in any letter case. The value is not modelled. */
  predicate IsFloatLiteral(s: string)
  {
    NumericPadding(s) && (IsNonFiniteLiteral(s) || IsDecimalFloat(Unsigned(s)))
  }

  /** `s` stripped, without its leading sign if it has one. */
  function Unsigned(s: string): string
  {
    var t := Strip(s);
    if |t| > 0 && IsSign(t[0]) then t[1..] else t
  }

  /** The inf/nan spellings: `inf`, `infinity` or `nan` in any letter case,
      signed or not, with surrounding whitespace. `float()` reads them as an
      infinity or a NaN, and `int()` of such a value times 1000 raises. They
      are never decimal literals; a decimal literal too large for a double,
      such as `1e999`, also becomes an infinity but is not one of them. */
  predicate IsNonFiniteLiteral(s: string): (spelled: bool)
    ensures spelled ==> !IsDecimalFloat(Unsigned(s))
  {
    var u := Unsigned(s);
    var l := Lower(u);
    if l == "inf" || l == "infinity" || l == "nan" then
      assert l[0] == 'i' || l[0] == 'n';
      LetterStartNotDecimal(u);
      true
    else false
  }

  /** A literal that starts with neither a digit nor a point has no
      mantissa, so it is not a decimal literal. */
  lemma LetterStartNotDecimal(u: string)
    requires |u| > 0 && !IsDigit(u[0]) && u[0] != '.'
    ensures !IsDecimalFloat(u)
  {
    var k := IndexOf(Lower(u), 'e');
    var m := u[..k];
    var j := IndexOf(m, '.');
    if j == |m| {
      if k > 0 {
        assert !DigitRunChar(m, 0);
      }
    } else if j > 0 {
      assert !DigitRunChar(m[..j], 0);
    }
  }

  /** Characters of an unsigned decimal literal without exponent. */
  predicate IsPlainDecimalChar(c: char)
  {
    IsDigit(c) || c == '_' || c == '.'
  }

  /** A string that starts with a digit and has no whitespace at either end
      is its own stripped, unsigned form. */
  lemma UnsignedOfDigitStart(u: string)
    requires |u| > 0 && IsDigit(u[0]) && !IsSpace(u[|u| - 1])
    ensures Unsigned(u) == u
  {
    StripNoEdges(u);
  }

  /** A string that starts with a digit is not an inf/nan spelling. */
  lemma DigitStartNotInfNanSpelling(u: string)
    requires |u| > 0 && IsDigit(u[0]) && !IsSpace(u[|u| - 1])
    ensures !IsNonFiniteLiteral(u)
  {
    UnsignedOfDigitStart(u);
    assert Lower(u)[0] == u[0];
  }

  /** Without an `e` or `E`, a decimal literal is just a mantissa. */
  lemma NoExponentDecimal(u: string)
    requires forall i :: 0 <= i < |u| ==> IsPlainDecimalChar(u[i])
    ensures IsDecimalFloat(u) <==> IsMantissa(u)
  {
    var l := Lower(u);
    assert forall i :: 0 <= i < |u| ==> l[i] == u[i];
    assert IndexOf(l, 'e') == |u|;
    assert u[..|u|] == u;
  }

  /** A string of such characters that starts and ends with a digit is
      accepted by `float()` exactly when it is a mantissa. */
  lemma PlainDecimalAccepted(u: string)
    requires |u| > 0 && IsDigit(u[0]) && IsDigit(u[|u| - 1])
    requires forall i :: 0 <= i < |u| ==> IsPlainDecimalChar(u[i])
    ensures IsFloatLiteral(u) <==> IsMantissa(u)
  {
    DigitStartNotInfNanSpelling(u);
    UnsignedOfDigitStart(u);
    NoExponentDecimal(u);
  }

  /** A digit run starts and ends with a digit and holds no point. */
  lemma DigitRunShape(a: string)
    requires IsDigitRun(a)
    ensures IsDigit(a[0]) && IsDigit(a[|a| - 1])
    ensures forall i :: 0 <= i < |a| ==> IsPlainDecimalChar(a[i]) && a[i] != '.'
  {
    assert DigitRunChar(a, 0) && DigitRunChar(a, |a| - 1);
    forall i | 0 <= i < |a| ensures IsPlainDecimalChar(a[i]) && a[i] != '.' {
      assert DigitRunChar(a, i);
    }
  }

  /** `float()` accepts a digit run, and it is not an inf/nan spelling
      (its value may still exceed the largest double, as for 309 nines). */
  lemma IntegerLiteralAccepted(a: string)
    requires IsDigitRun(a)
    ensures IsFloatLiteral(a) && !IsNonFiniteLiteral(a)
  {
    DigitRunShape(a);
    DigitStartNotInfNanSpelling(a);
    PlainDecimalAccepted(a);
    assert IndexOf(a, '.') == |a|;
  }

  /** Two digit runs around a point form a mantissa. */
  lemma PointMantissa(a: string, b: string)
    requires IsDigitRun(a) && IsDigitRun(b)
    ensures IsMantissa(a + "." + b)
  {
    var u := a + "." + b;
    DigitRunShape(a);
    assert u[|a|] == '.';
    forall i | 0 <= i < |a| ensures u[i] != '.' {
      assert u[i] == a[i];
    }
    assert u[..|a|] == a && u[|a| + 1..] == b;
  }

  /** `float()` accepts two digit runs around a point, such as the default
      `1.0`, and the result is not an inf/nan spelling. */
  lemma PointLiteralAccepted(a: string, b: string)
    requires IsDigitRun(a) && IsDigitRun(b)
    ensures IsFloatLiteral(a + "." + b) && !IsNonFiniteLiteral(a + "." + b)
  {
    var u := a + "." + b;
    DigitRunShape(a);
    DigitRunShape(b);
    assert u[0] == a[0] && u[|u| - 1] == b[|b| - 1];
    forall i | 0 <= i < |u| ensures IsPlainDecimalChar(u[i]) {
      if i < |a| {
        assert u[i] == a[i];
      } else if i > |a| {
        assert u[i] == b[i - |a| - 1];
      }
    }
    DigitStartNotInfNanSpelling(u);
    PlainDecimalAccepted(u);
    PointMantissa(a, b);
  }

  /** The bridge's default speed passes `float()`. */
  lemma DefaultSpeedAccepted()
    ensures IsFloatLiteral("1.0") && !IsNonFiniteLiteral("1.0")
  {
    assert DigitRunChar("1", 0) && DigitRunChar("0", 0);
    PointLiteralAccepted("1", "0");
    assert "1" + "." + "0" == "1.0";
  }

  /** A blank speed is refused by `float()`. */
  lemma BlankIsNotFloatLiteral(s: string)
    requires IsBlank(s)
    ensures !IsFloatLiteral(s)
  {
  }
}
