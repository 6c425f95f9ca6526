/** strconv.ParseFloat(s, 64) as `Transfer.validate` calls it, for the
    decimal syntax: an optional sign, digits with at most one '.', at least
    one digit, and an optional exponent `e`/`E` with optional sign and at
    least one digit; or, in any letter case, "inf" / "infinity" with an
    optional sign, or an unsigned "nan". An underscore may separate two
    digits anywhere and is then ignored; an underscore anywhere else is a
    syntax error. Exponent digits stop counting once the exponent has
    reached 10000. Anything else, including trailing characters, is a
    syntax error (`None`). A finite magnitude that rounds beyond the largest
    float64 is a range error, also `None`. Finite results are the exact
    decimal value; binary rounding is not modelled. */
module Strconv {
  import opened Results
  import opened Floats

  /** 2^1024 - 2^970: the smallest magnitude that rounds to infinity
      under round-half-to-even into binary64. */
  const OverflowThreshold: real := 179769313486231580793728971405303415079934132710037826936173778980444968292764750946649017977587207096330286416692887910946555547851940402630657488671505820681908902000708383676273854845817711531764475730270069855571366959622842914819860834936475292719074168444365510704342711559699508093042880177904174497792.0

  predicate IsDigit(c: char) { '0' <= c <= '9' }

  predicate AllDigits(s: string)
  {
    forall i :: 0 <= i < |s| ==> IsDigit(s[i])
  }

  function DigitValue(c: char): (d: nat)
    requires IsDigit(c)
  {
    c as int - '0' as int
  }

  function DigitChar(d: nat): (c: char)
    requires d < 10
    ensures IsDigit(c) && DigitValue(c) == d
  {
    ('0' as int + d) as char
  }

  /** Value of a run of decimal digits, most significant first. */
  function DigitsValue(s: string): (v: nat)
    requires AllDigits(s)
    decreases |s|
  {
    if |s| == 0 then 0 else 10 * DigitsValue(s[..|s| - 1]) + DigitValue(s[|s| - 1])
  }

  function Pow10(n: nat): (p: nat)
    ensures p >= 1
  {
    if n == 0 then 1 else 10 * Pow10(n - 1)
  }

  /** 10 raised to an integer exponent. */
  function Scale(e: int): (r: real)
    ensures r > 0.0
  {
    if e >= 0 then Pow10(e) as real else 1.0 / Pow10(-e) as real
  }

  /** ASCII lower-casing, as strconv uses to match letters case-insensitively. */
  function Lower(c: char): (l: char)
  {
    if 'A' <= c <= 'Z' then (c as int + 32) as char else c
  }

  /** `s` spells the lower-case `word` in any letter case. */
  predicate FoldsTo(s: string, word: string)
  {
    |s| == |word| && forall i :: 0 <= i < |s| ==> Lower(s[i]) == word[i]
  }

  /** An optional leading '+' or '-': whether it was '-', and the rest. */
  function SplitSign(s: string): (split: (bool, string))
  {
    if |s| > 0 && (s[0] == '+' || s[0] == '-') then (s[0] == '-', s[1..]) else (false, s)
  }

  /** A body with a minus in front when `negative`; `SplitSign` reads the
      pair back as long as the body does not start with a sign itself. */
  function Signed(negative: bool, body: string): (s: string)
    ensures |body| == 0 || (body[0] != '+' && body[0] != '-') ==> SplitSign(s) == (negative, body)
  {
    if negative then
      var s := "-" + body;
      assert s[1..] == body;
      s
    else body
  }

  /** The first index at or after `i` that does not hold a digit. */
  function SkipDigits(s: string, i: nat): (j: nat)
    requires i <= |s|
    ensures i <= j <= |s|
    ensures AllDigits(s[i..j])
    ensures j < |s| ==> !IsDigit(s[j])
    decreases |s| - i
  {
    if i < |s| && IsDigit(s[i]) then
      SkipDigits(s, i + 1)
    else i
  }

  /** strconv's special(): infinities and NaN, matched against the whole string. */
  function Special(s: string): (r: Option<Float>)
    ensures r.Some? ==> !r.value.Finite?
  {
    var (negative, body) := SplitSign(s);
    if FoldsTo(body, "inf") || FoldsTo(body, "infinity") then Some(Infinity(negative))
    else if FoldsTo(s, "nan") then Some(NaN)
    else None
  }

  /** strconv's exponent accumulator: each digit is appended while the value
      is still below 10000, and later digits are dropped. */
  function ExponentValue(digits: string): (e: nat)
    requires AllDigits(digits)
    ensures e < 100000
    decreases |digits|
  {
    if |digits| == 0 then 0
    else
      var e := ExponentValue(digits[..|digits| - 1]);
      if e < 10000 then 10 * e + DigitValue(digits[|digits| - 1]) else e
  }

  /** The exponent after `e`: optional sign, then one or more digits to the end. */
  function ReadExponent(t: string): (e: Option<int>)
  {
    var (negative, digits) := SplitSign(t);
    if |digits| == 0 || !AllDigits(digits) then None
    else Some(if negative then -(ExponentValue(digits) as int) else ExponentValue(digits) as int)
  }

  /** An unsigned decimal literal: mantissa digits around an optional '.',
      then an optional exponent, and nothing after it. */
  function ReadDecimal(s: string): (r: Option<real>)
    ensures r.Some? ==> r.value >= 0.0
  {
    var i := SkipDigits(s, 0);
    var hasDot := i < |s| && s[i] == '.';
    var k := if hasDot then SkipDigits(s, i + 1) else i;
    var frac := if hasDot then s[i + 1..k] else "";
    if i + |frac| == 0 then None
    else ApplyExponent(DecimalValue(s[..i], frac), s[k..])
  }

  /** The value of the decimal literal `whole.frac`. */
  function DecimalValue(whole: string, frac: string): (v: real)
    requires AllDigits(whole) && AllDigits(frac)
    ensures v >= 0.0
  {
    AppendDigits(whole, frac);
    DigitsValue(whole + frac) as real / Pow10(|frac|) as real
  }

  lemma AppendDigits(a: string, b: string)
    requires AllDigits(a) && AllDigits(b)
    ensures AllDigits(a + b)
  {
    forall k | 0 <= k < |a + b| ensures IsDigit((a + b)[k]) {
      if k >= |a| { assert (a + b)[k] == b[k - |a|]; }
    }
  }

  /** What follows the mantissa: nothing, or `e`/`E` and an exponent. */
  function ApplyExponent(mantissa: real, rest: string): (r: Option<real>)
    requires mantissa >= 0.0
    ensures r.Some? ==> r.value >= 0.0
  {
    if |rest| == 0 then Some(mantissa)
    else if Lower(rest[0]) == 'e' then
      var e :- ReadExponent(rest[1..]);
      NonNegativeProduct(mantissa, Scale(e));
      Some(mantissa * Scale(e))
    else None
  }

  lemma NonNegativeProduct(x: real, y: real)
    requires x >= 0.0 && y > 0.0
    ensures x * y >= 0.0
  {
  }

  lemma SpecialNaN(s: string)
    ensures Special(s) == Some(NaN) <==> FoldsTo(s, "nan")
  {
    if FoldsTo(s, "nan") {
      assert Lower(s[0]) == 'n';
    }
  }

  /** The finite branch: optional sign, unsigned literal, float64 range. */
  function ParseFinite(s: string): (r: Option<Float>)
    ensures r.Some? ==> r.value.Finite? && -OverflowThreshold < r.value.value < OverflowThreshold
  {
    var sign := SplitSign(s);
    var v :- ReadDecimal(sign.1);
    if v >= OverflowThreshold then None
    else Some(Finite(if sign.0 then -v else v))
  }

  /** strconv's underscoreOK for a decimal literal: every '_' sits between
      two digits. */
  predicate UnderscoresOK(s: string)
  {
    forall i :: 0 <= i < |s| && s[i] == '_' ==> 0 < i < |s| - 1 && IsDigit(s[i - 1]) && IsDigit(s[i + 1])
  }

  /** `s` with every '_' removed, as readFloat skips them. */
  function StripUnderscores(s: string): (r: string)
    ensures '_' !in r
    ensures '_' !in s ==> r == s
  {
    if |s| == 0 then ""
    else if s[0] == '_' then StripUnderscores(s[1..])
    else
      assert s == [s[0]] + s[1..];
      [s[0]] + StripUnderscores(s[1..])
  }

  function ParseFloat(s: string): (r: Option<Float>)
    ensures r.Some? && r.value.Finite? ==> -OverflowThreshold < r.value.value < OverflowThreshold
    ensures r == Some(NaN) <==> FoldsTo(s, "nan")
  {
    SpecialNaN(s);
    if Special(s).Some? then Special(s)
    else if '_' !in s then ParseFinite(s)
    else if !UnderscoresOK(s) then None
    else ParseFinite(StripUnderscores(s))
  }
}

module StrconvFacts {
  import opened Results
  import opened Floats
  import opened Strconv

  lemma {:induction false} SkipDigitsStops(s: string, i: nat, p: nat)
    requires i <= p <= |s|
    requires forall k :: i <= k < p ==> IsDigit(s[k])
    requires p == |s| || !IsDigit(s[p])
    ensures SkipDigits(s, i) == p
    decreases p - i
  {
    if i < p {
      SkipDigitsStops(s, i + 1, p);
    }
  }

  lemma {:induction false} DigitsValueAppend(a: string, b: string)
    requires AllDigits(a) && AllDigits(b)
    ensures AllDigits(a + b)
    ensures DigitsValue(a + b) == DigitsValue(a) * Pow10(|b|) + DigitsValue(b)
    decreases |b|
  {
    AppendDigits(a, b);
    if |b| == 0 {
      assert a + b == a;
    } else {
      var b' := b[..|b| - 1];
      var last := b[|b| - 1];
      assert (a + b)[..|a + b| - 1] == a + b';
      assert (a + b)[|a + b| - 1] == last;
      DigitsValueAppend(a, b');
      var x, p, y, d := DigitsValue(a), Pow10(|b'|), DigitsValue(b'), DigitValue(last);
      assert DigitsValue(a + b) == 10 * DigitsValue(a + b') + d;
      assert DigitsValue(b) == 10 * y + d;
      assert Pow10(|b|) == 10 * p;
      Regroup(x, p, y, d);
    }
  }

  lemma Regroup(x: int, p: int, y: int, d: int)
    ensures 10 * (x * p + y) + d == x * (10 * p) + (10 * y + d)
  {
  }

  /** Unsigned: the mantissa runs to the '.', the fraction to the end. */
  lemma ReadDecimalLiteral(whole: string, frac: string)
    requires |whole| >= 1 && AllDigits(whole) && AllDigits(frac)
    ensures ReadDecimal(whole + "." + frac) == Some(DecimalValue(whole, frac))
  {
    var body := whole + "." + frac;
    SkipDigitsStops(body, 0, |whole|);
    SkipDigitsStops(body, |whole| + 1, |body|);
    assert body[..|whole|] == whole;
    assert body[|whole| + 1..|body|] == frac;
  }

  /** A string that starts with a digit is neither an infinity nor NaN. */
  lemma DigitFirstIsNotSpecial(s: string)
    requires |s| >= 1 && IsDigit(s[0])
    ensures Special(s) == None
    ensures Special("-" + s) == None
  {
    assert Lower(s[0]) == s[0];
    assert SplitSign(s) == (false, s);
    assert SplitSign("-" + s) == (true, s) by { assert ("-" + s)[1..] == s; }
    assert Lower(("-" + s)[0]) == '-';
  }

  /** An unsigned literal that reads is made of digits, '.', 'e'/'E' and an
      exponent sign only: underscores have gone by then. */
  lemma ReadDecimalNoUnderscore(s: string)
    requires ReadDecimal(s).Some?
    ensures '_' !in s
  {
    var i := SkipDigits(s, 0);
    var hasDot := i < |s| && s[i] == '.';
    var k := if hasDot then SkipDigits(s, i + 1) else i;
    var frac := if hasDot then s[i + 1..k] else "";
    ExponentNoUnderscore(DecimalValue(s[..i], frac), s[k..]);
    MantissaNoUnderscore(s, i, k);
  }

  /** Digits, at most one '.' and more digits, followed by a tail without
      underscores. */
  lemma MantissaNoUnderscore(s: string, i: nat, k: nat)
    requires i <= k <= |s| && AllDigits(s[..i])
    requires k == i || (s[i] == '.' && AllDigits(s[i + 1..k]))
    requires '_' !in s[k..]
    ensures '_' !in s
  {
    forall j | 0 <= j < |s| ensures s[j] != '_' {
      if j < i {
        assert s[..i][j] == s[j];
      } else if k <= j {
        assert s[k..][j - k] == s[j];
      } else if i < j {
        assert s[i + 1..k][j - i - 1] == s[j];
      }
    }
  }

  lemma ExponentNoUnderscore(m: real, rest: string)
    requires m >= 0.0 && ApplyExponent(m, rest).Some?
    ensures '_' !in rest
  {
    if |rest| > 0 {
      var t := rest[1..];
      assert Lower(rest[0]) == 'e' && ReadExponent(t).Some?;
      DigitsNoUnderscore(t);
      forall j | 1 <= j < |rest| ensures rest[j] != '_' {
        assert t[j - 1] == rest[j];
      }
    }
  }

  lemma DigitsNoUnderscore(t: string)
    requires ReadExponent(t).Some?
    ensures '_' !in t
  {
    var (negative, digits) := SplitSign(t);
    var off := |t| - |digits|;
    forall j | 0 <= j < |t| ensures t[j] != '_' {
      if j >= off {
        assert digits[j - off] == t[j];
      }
    }
  }

  /** An infinity or NaN is spelled in letters and an optional sign. */
  lemma SpecialHasNoDigits(x: string)
    requires Special(x).Some?
    ensures forall k :: 0 <= k < |x| ==> !IsDigit(x[k]) && x[k] != '_'
  {
    var (negative, body) := SplitSign(x);
    if FoldsTo(body, "inf") || FoldsTo(body, "infinity") {
      var off := |x| - |body|;
      forall k | 0 <= k < |x| ensures !IsDigit(x[k]) && x[k] != '_' {
        if k >= off {
          assert body[k - off] == x[k];
          assert 'a' <= Lower(body[k - off]) <= 'z';
        }
      }
    } else {
      forall k | 0 <= k < |x| ensures !IsDigit(x[k]) && x[k] != '_' {
        assert 'a' <= Lower(x[k]) <= 'z';
      }
    }
  }

  /** Stripping keeps every other character and only those. */
  lemma {:induction false} StripMembers(s: string)
    ensures forall c :: c in StripUnderscores(s) <==> c in s && c != '_'
  {
    if |s| > 0 {
      StripMembers(s[1..]);
      assert s == [s[0]] + s[1..];
    }
  }

  /** Stripping works piece by piece. */
  lemma {:induction false} StripAppend(a: string, b: string)
    ensures StripUnderscores(a + b) == StripUnderscores(a) + StripUnderscores(b)
  {
    if |a| > 0 {
      assert (a + b)[0] == a[0];
      assert (a + b)[1..] == a[1..] + b;
      StripAppend(a[1..], b);
    } else {
      assert a + b == b;
    }
  }

  /** One underscore between two digits is accepted ... */
  lemma SeparatorAccepted(a: string, b: string)
    requires |a| >= 1 && IsDigit(a[|a| - 1]) && '_' !in a
    requires |b| >= 1 && IsDigit(b[0]) && '_' !in b
    ensures UnderscoresOK(a + "_" + b)
  {
    var s := a + "_" + b;
    assert forall i :: 0 <= i < |a| ==> s[i] == a[i];
    assert forall i :: |a| < i < |s| ==> s[i] == b[i - |a| - 1];
    assert s[|a| - 1] == a[|a| - 1] && s[|a| + 1] == b[0];
  }

  /** ... and dropped. */
  lemma SeparatorDropped(a: string, b: string)
    requires '_' !in a && '_' !in b
    ensures StripUnderscores(a + "_" + b) == a + b
  {
    StripAppend(a, "_");
    assert StripUnderscores("_") == StripUnderscores("_"[1..]) == "";
    assert StripUnderscores(a + "_") == a;
    StripAppend(a + "_", b);
  }

  /** Without underscores, a string is an infinity, NaN or a finite literal. */
  lemma WithoutUnderscores(s: string)
    requires '_' !in s
    ensures ParseFloat(s) == if Special(s).Some? then Special(s) else ParseFinite(s)
  {
    assert UnderscoresOK(s);
  }

  /** Underscores that each sit between two digits change nothing: the
      string parses as it would with them removed. */
  lemma UnderscoresIgnored(s: string)
    requires UnderscoresOK(s)
    ensures ParseFloat(s) == ParseFloat(StripUnderscores(s))
  {
    var t := StripUnderscores(s);
    if '_' in s {
      StripMembers(s);
      var i :| 0 <= i < |s| && s[i] == '_';
      assert s[i - 1] in t;
      var j :| 0 <= j < |t| && t[j] == s[i - 1];
      if Special(s).Some? {
        SpecialHasNoDigits(s);
        assert false;
      }
      if Special(t).Some? {
        SpecialHasNoDigits(t);
        assert false;
      }
      WithoutUnderscores(t);
    }
  }

  /** An underscore that is not between two digits is a syntax error. */
  lemma MisplacedUnderscore(s: string)
    requires !UnderscoresOK(s)
    ensures ParseFloat(s) == None
  {
    var i :| 0 <= i < |s| && s[i] == '_' && !(0 < i < |s| - 1 && IsDigit(s[i - 1]) && IsDigit(s[i + 1]));
    if Special(s).Some? {
      SpecialHasNoDigits(s);
      assert false;
    }
  }

  /** While the exponent read so far is below 10000, every digit counts. */
  lemma {:induction false} ExponentExact(digits: string)
    requires AllDigits(digits)
    requires |digits| == 0 || DigitsValue(digits[..|digits| - 1]) < 10000
    ensures ExponentValue(digits) == DigitsValue(digits)
    decreases |digits|
  {
    if |digits| > 0 {
      var p := digits[..|digits| - 1];
      assert AllDigits(p);
      if |p| > 0 {
        assert p[..|p| - 1] == digits[..|digits| - 2];
        assert DigitsValue(p) == 10 * DigitsValue(p[..|p| - 1]) + DigitValue(p[|p| - 1]);
      }
      ExponentExact(p);
    }
  }

  /** An exponent whose digits spell 10000 or more is read as at least
      10000 and below 100000. */
  lemma {:induction false} ExponentSaturates(digits: string)
    requires AllDigits(digits) && DigitsValue(digits) >= 10000
    ensures 10000 <= ExponentValue(digits) < 100000
    decreases |digits|
  {
    var p := digits[..|digits| - 1];
    assert AllDigits(p);
    if DigitsValue(p) >= 10000 {
      ExponentSaturates(p);
    } else {
      ExponentExact(digits);
    }
  }

  /** A sign in front of an unsigned literal only decides the sign of the
      result, within float64 range. */
  lemma ParseSigned(negative: bool, body: string, v: real)
    requires |body| >= 1 && IsDigit(body[0])
    requires ReadDecimal(body) == Some(v)
    ensures ParseFloat(Signed(negative, body))
            == if v < OverflowThreshold then Some(Finite(if negative then -v else v)) else None
  {
    DigitFirstIsNotSpecial(body);
    ReadDecimalNoUnderscore(body);
    assert '_' !in Signed(negative, body);
    WithoutUnderscores(Signed(negative, body));
  }

  /** A plain decimal literal, optionally negated, parses to its exact value
      whenever that value is within float64 range. */
  lemma ParseDecimalLiteral(negative: bool, whole: string, frac: string)
    requires |whole| >= 1 && AllDigits(whole) && AllDigits(frac)
    requires DecimalValue(whole, frac) < OverflowThreshold
    ensures var v := DecimalValue(whole, frac);
            ParseFloat(Signed(negative, whole + "." + frac))
              == Some(Finite(if negative then -v else v))
  {
    var body := whole + "." + frac;
    assert body[0] == whole[0];
    ReadDecimalLiteral(whole, frac);
    ParseSigned(negative, body, DecimalValue(whole, frac));
  }

  /** Decimal digits of a natural number, most significant first. */
  function NatToDigits(n: nat): (s: string)
    ensures |s| >= 1 && AllDigits(s) && DigitsValue(s) == n
    decreases n
  {
    if n < 10 then [DigitChar(n)]
    else
      var s := NatToDigits(n / 10) + [DigitChar(n % 10)];
      assert s[..|s| - 1] == NatToDigits(n / 10);
      s
  }

  /** `k` copies of `c`. */
  function Repeat(c: char, k: nat): (s: string)
    ensures |s| == k
  {
    if k == 0 then "" else Repeat(c, k - 1) + [c]
  }

  lemma DivModTen(n: int, q: int, r: int)
    requires 0 <= r < 10 && n == 10 * q + r
    ensures n / 10 == q && n % 10 == r
  {
  }

  /** 10^k - 1 is spelled as k nines. */
  lemma {:induction false} NinesDigits(k: nat)
    requires k >= 1
    ensures NatToDigits(Pow10(k) - 1) == Repeat('9', k)
  {
    var n := Pow10(k) - 1;
    if k == 1 {
      assert Pow10(1) == 10;
      assert Repeat('9', 1) == Repeat('9', 0) + ['9'];
    } else {
      NinesDigits(k - 1);
      var m := Pow10(k - 1) - 1;
      assert Pow10(k - 1) == 10 * Pow10(k - 2);
      assert Pow10(k) == 10 * Pow10(k - 1);
      DivModTen(n, m, 9);
      assert NatToDigits(n) == NatToDigits(m) + [DigitChar(9)];
      assert DigitChar(9) == '9';
      assert Repeat('9', k) == Repeat('9', k - 1) + ['9'];
    }
  }

  /** 10^k is spelled as a one followed by k zeros. */
  lemma {:induction false} PowerDigits(k: nat)
    ensures NatToDigits(Pow10(k)) == "1" + Repeat('0', k)
  {
    if k == 0 {
      assert Pow10(0) == 1;
    } else {
      PowerDigits(k - 1);
      var n, m := Pow10(k), Pow10(k - 1);
      DivModTen(n, m, 0);
      assert NatToDigits(n) == NatToDigits(m) + [DigitChar(0)];
      assert DigitChar(0) == '0';
      assert "1" + Repeat('0', k) == "1" + Repeat('0', k - 1) + ['0'];
    }
  }

  /** An amount of cents spelled with exactly two decimals, "123.45". */
  function FormatCents(cents: nat): (s: string)
  {
    Spell(cents / 100, cents / 10 % 10, cents % 10)
  }

  /** Whole units, a '.', then the tens and units digits of the cents. */
  function Spell(whole: nat, hi: nat, lo: nat): (s: string)
    requires hi < 10 && lo < 10
  {
    NatToDigits(whole) + "." + [DigitChar(hi), DigitChar(lo)]
  }

  /** The spelling of `c == 100 * w + 10 * hi + lo` cents is read off its parts. */
  lemma FormatCentsParts(c: nat, w: nat, hi: nat, lo: nat)
    requires hi < 10 && lo < 10 && c == 100 * w + 10 * hi + lo
    ensures FormatCents(c) == Spell(w, hi, lo)
  {
    DivModTen(c, 10 * w + hi, lo);
    DivModTen(10 * w + hi, w, hi);
    assert c / 100 == w;
  }

  /** 10^(k+2) - 1 cents is spelled as k nines, a '.' and "99". */
  lemma NinesCents(k: nat)
    requires k >= 1
    ensures FormatCents(Pow10(k + 2) - 1) == Repeat('9', k) + "." + "99"
  {
    var p := Pow10(k);
    assert Pow10(k + 2) == 10 * Pow10(k + 1) == 100 * p;
    FormatCentsParts(Pow10(k + 2) - 1, p - 1, 9, 9);
    assert DigitChar(9) == '9';
    assert FormatCents(Pow10(k + 2) - 1) == NatToDigits(p - 1) + "." + "99";
    NinesDigits(k);
  }

  /** 10^(k+2) cents is spelled as a one, k zeros, a '.' and "00". */
  lemma PowerCents(k: nat)
    ensures FormatCents(Pow10(k + 2)) == "1" + Repeat('0', k) + "." + "00"
  {
    var p := Pow10(k);
    PowerDigits(k);
    assert Pow10(k + 1) == 10 * p;
    FormatCentsParts(Pow10(k + 2), p, 0, 0);
    assert [DigitChar(0), DigitChar(0)] == "00";

  }

  lemma PairValue(hi: nat, lo: nat)
    requires hi < 10 && lo < 10
    ensures AllDigits([DigitChar(hi), DigitChar(lo)])
    ensures DigitsValue([DigitChar(hi), DigitChar(lo)]) == 10 * hi + lo
  {
    var pair := [DigitChar(hi), DigitChar(lo)];
    assert pair[..1] == [DigitChar(hi)];
    assert pair[..1][..0] == [];
    assert DigitsValue(pair[..1]) == hi;
    assert DigitsValue(pair) == 10 * DigitsValue(pair[..1]) + lo;
  }

  /** The last two decimal digits of a number make up its remainder by 100. */
  lemma LastTwoDigits(n: nat)
    ensures 10 * (n / 10 % 10) + n % 10 == n % 100
  {
    var q := n / 10;
    var r := 10 * (q % 10) + n % 10;
    assert n == 10 * q + n % 10;
    assert q == 10 * (q / 10) + q % 10;
    assert n == 100 * (q / 10) + r;
    assert 0 <= r < 100;
  }

  lemma TwoDigits(cents: nat)
    ensures var frac := [DigitChar(cents / 10 % 10), DigitChar(cents % 10)];
            AllDigits(frac) && DigitsValue(frac) == cents % 100
  {
    PairValue(cents / 10 % 10, cents % 10);
    LastTwoDigits(cents);
  }

  lemma CentsValue(cents: nat)
    ensures var whole := NatToDigits(cents / 100);
            var frac := [DigitChar(cents / 10 % 10), DigitChar(cents % 10)];
            AllDigits(frac) && DecimalValue(whole, frac) == (cents as real) / 100.0
  {
    var whole := NatToDigits(cents / 100);
    var frac := [DigitChar(cents / 10 % 10), DigitChar(cents % 10)];
    TwoDigits(cents);
    DigitsValueAppend(whole, frac);
    assert DigitsValue(whole + frac) == (cents / 100) * 100 + cents % 100 == cents;
  }

  lemma ReadFormatCents(cents: nat)
    ensures |FormatCents(cents)| >= 1 && IsDigit(FormatCents(cents)[0])
    ensures ReadDecimal(FormatCents(cents)) == Some((cents as real) / 100.0)
  {
    var whole := NatToDigits(cents / 100);
    var frac := [DigitChar(cents / 10 % 10), DigitChar(cents % 10)];
    CentsValue(cents);
    ReadDecimalLiteral(whole, frac);
    assert FormatCents(cents) == whole + "." + frac;
    assert FormatCents(cents)[0] == whole[0];
  }

  /** Every two-decimal spelling parses back to its amount (or, beyond
      float64 range, to a range error). */
  lemma ParseFormatCents(cents: nat)
    ensures var v := (cents as real) / 100.0;
            ParseFloat(FormatCents(cents)) == if v < OverflowThreshold then Some(Finite(v)) else None
  {
    ReadFormatCents(cents);
    ParseSigned(false, FormatCents(cents), (cents as real) / 100.0);
    assert Signed(false, FormatCents(cents)) == FormatCents(cents);
  }

  /** A finite parse needs a digit somewhere in the input. */
  lemma ParsedNumberHasDigit(s: string)
    requires ParseFloat(s).Some? && ParseFloat(s).value.Finite?
    ensures exists k :: 0 <= k < |s| && IsDigit(s[k])
  {
    var t := StripUnderscores(s);
    assert ParseFinite(t).Some?;
    FiniteHasDigit(t);
    var k :| 0 <= k < |t| && IsDigit(t[k]);
    StripMembers(s);
    assert t[k] in s;
  }

  lemma FiniteHasDigit(s: string)
    requires ParseFinite(s).Some?
    ensures exists k :: 0 <= k < |s| && IsDigit(s[k])
  {
    var (negative, body) := SplitSign(s);
    var i := SkipDigits(body, 0);
    var off := |s| - |body|;
    assert off == 0 || off == 1;
    assert forall k :: 0 <= k < |body| ==> body[k] == s[k + off];
    if i == 0 {
      assert i < |body| && body[i] == '.';
      assert IsDigit(body[1]);
    } else {
      assert IsDigit(body[0]);
    }
  }
}
