/**
 * lib/currency.ts: amounts are integer US cents; `FormatUsd` renders them
 * as US dollars, `ParseCurrency` turns a typed amount back into cents.
 */
module Currency {
  import opened Wrappers
  import opened Seqs
  import opened Decimal

  /** The characters the pattern `/[^0-9.-]+/g` does not remove. */
  predicate IsKept(c: char) { IsDigit(c) || c == '.' || c == '-' }

  predicate AllKept(s: string) { forall i :: 0 <= i < |s| ==> IsKept(s[i]) }

  lemma {:induction false} AllKeptAppend(a: string, b: string)
    requires AllKept(a) && AllKept(b)
    ensures AllKept(a + b)
  {
  }

  lemma {:induction false} DigitsKept(s: string)
    requires IsDigits(s)
    ensures AllKept(s)
  {
  }

  /** A string of kept characters is its own sanitised form. */
  lemma {:induction false} SanitizeKept(s: string)
    requires AllKept(s)
    ensures Sanitize(s) == s
  {
    FilterAllKept(s, IsKept);
  }

  /** `value.replace(/[^0-9.-]+/g, '')`. */
  function Sanitize(value: string): (s: string)
    ensures |s| <= |value|
    ensures AllKept(s)
  {
    FilterAllPass(value, IsKept);
    Filter(value, IsKept)
  }

  /** Sanitising drops exactly the characters outside `[0-9.-]` and keeps the others in their order. */
  lemma {:induction false} SanitizeSplits(a: string, c: char, b: string)
    ensures Sanitize(a + [c] + b) == Sanitize(a) + (if IsKept(c) then [c] else []) + Sanitize(b)
  {
    FilterAppend(a + [c], b, IsKept);
    FilterAppend(a, [c], IsKept);
  }

  lemma {:induction false} SanitizeIdempotent(value: string)
    ensures Sanitize(Sanitize(value)) == Sanitize(value)
  {
    FilterIdempotent(value, IsKept);
  }

  /** Length of the run of digits that starts `s`. */
  function DigitRun(s: string): (k: nat)
    ensures k <= |s| && IsDigits(s[..k])
    ensures k < |s| ==> !IsDigit(s[k])
  {
    if s != [] && IsDigit(s[0]) then
      var k := 1 + DigitRun(s[1..]);
      assert s[..k] == [s[0]] + s[1..][..k - 1];
      k
    else 0
  }

  lemma {:induction false} DigitRunOf(w: string, rest: string)
    requires IsDigits(w)
    requires rest == [] || !IsDigit(rest[0])
    ensures DigitRun(w + rest) == |w|
  {
    if w != [] {
      assert (w + rest)[1..] == w[1..] + rest;
      DigitRunOf(w[1..], rest);
    }
  }

  /** The digits before the point of the number starting `t` (which has no sign). */
  function WholeDigits(t: string): (w: string)
    ensures IsDigits(w) && |w| <= |t| && w == t[..|w|]
  {
    t[..DigitRun(t)]
  }

  /** The digits after the point, when a point directly follows the whole digits. */
  function FractionDigits(t: string): (f: string)
    ensures IsDigits(f)
  {
    var rest := t[DigitRun(t)..];
    if |rest| > 0 && rest[0] == '.' then rest[1..][..DigitRun(rest[1..])] else ""
  }

  /** A decimal numeral `-?whole.fraction` whose fraction has `places` digits. */
  datatype Numeral = Numeral(negative: bool, whole: nat, fraction: nat, places: nat)

  /** `n / 10^k`, one tenth at a time. */
  function Tenths(n: int, k: nat): real
  {
    if k == 0 then n as real else Tenths(n, k - 1) / 10.0
  }

  /** The exact value a numeral denotes. */
  function Value(n: Numeral): real
  {
    var m := n.whole as real + Tenths(n.fraction, n.places);
    if n.negative then -m else m
  }

  /** `Math.round(value * 100)`: the nearest whole number of cents, a half cent rounded up. */
  function Cents(n: Numeral): (c: int)
  {
    RoundHalfUp(Value(n) * 100.0)
  }

  function Signed(neg: bool, v: int): int { if neg then -v else v }

  /** The cents a fraction of `places <= 2` digits stands for: `fraction * 10^(2 - places)`. */
  function FractionCents(fraction: nat, places: nat): nat
    requires places <= 2
  {
    if places == 0 then 100 * fraction else if places == 1 then 10 * fraction else fraction
  }

  /** A numeral with at most two fraction digits names a whole number of cents, which rounding keeps. */
  lemma {:induction false} CentsExact(neg: bool, whole: nat, fraction: nat, places: nat)
    requires places <= 2
    ensures Cents(Numeral(neg, whole, fraction, places)) == Signed(neg, 100 * whole + FractionCents(fraction, places))
  {
    var n := Numeral(neg, whole, fraction, places);
    var k := 100 * whole + FractionCents(fraction, places);
    assert Value(n) * 100.0 == Signed(neg, k) as real by {
      assert Tenths(fraction, 0) == fraction as real;
      assert Tenths(fraction, 1) == fraction as real / 10.0;
      assert Tenths(fraction, 2) == fraction as real / 100.0;
    }
    RoundInteger(Signed(neg, k));
  }

  lemma {:induction false} CentsWhole(neg: bool, whole: nat)
    ensures Cents(Numeral(neg, whole, 0, 0)) == Signed(neg, 100 * whole)
  {
    CentsExact(neg, whole, 0, 0);
  }

  lemma {:induction false} RoundInteger(k: int)
    ensures RoundHalfUp(k as real) == k
  {
  }

  predicate IsNegative(s: string) { |s| > 0 && s[0] == '-' }

  function Unsigned(s: string): string { if IsNegative(s) then s[1..] else s }

  /**
   * `parseFloat` of a sanitised string: the longest prefix of the form
   * `-?digits(.digits?)?` or `-?.digits`; `None` where JavaScript yields NaN.
   * On strings of digits, `.` and `-` only (all that `Sanitize` leaves)
   * `parseFloat`'s other forms (`+`, exponents, `Infinity`, blanks) cannot occur.
   */
  function LeadingNumeral(s: string): Option<Numeral>
  {
    var t := Unsigned(s);
    var w, f := WholeDigits(t), FractionDigits(t);
    if w == "" && f == "" then None else Some(Numeral(IsNegative(s), DigitsValue(w), DigitsValue(f), |f|))
  }

  /** A number starts `s`: its first digit comes after nothing, `-`, `.` or `-.`. */
  ghost predicate StartsNumber(s: string)
  {
    exists i :: 0 <= i < |s| && IsDigit(s[i]) && (s[..i] == "" || s[..i] == "-" || s[..i] == "." || s[..i] == "-.")
  }

  /** Unsigned text with a digit, or a point and a digit, in front. */
  predicate NumberAhead(t: string)
  {
    (|t| > 0 && IsDigit(t[0])) || (|t| > 1 && t[0] == '.' && IsDigit(t[1]))
  }

  /** Unsigned text starts a number exactly when it starts with a digit or a point and a digit. */
  lemma {:induction false} UnsignedStart(t: string)
    ensures WholeDigits(t) != "" || FractionDigits(t) != "" <==> NumberAhead(t)
  {
    if |t| > 0 && !IsDigit(t[0]) {
      assert DigitRun(t) == 0 && t[0..] == t;
      if t[0] == '.' && |t| > 1 && IsDigit(t[1]) {
        assert t[1..][0] == t[1];
      }
    }
  }

  /** `parseFloat` gives a number exactly when the string starts with one. */
  lemma {:induction false} LeadingNumeralDefined(s: string)
    ensures LeadingNumeral(s).Some? <==> StartsNumber(s)
  {
    UnsignedStart(Unsigned(s));
    if NumberAhead(Unsigned(s)) {
      NumberAheadStarts(s);
    }
    if StartsNumber(s) {
      var i :| 0 <= i < |s| && IsDigit(s[i]) && (s[..i] == "" || s[..i] == "-" || s[..i] == "." || s[..i] == "-.");
      StartsAhead(s, i);
    }
  }

  lemma {:induction false} NumberAheadStarts(s: string)
    requires NumberAhead(Unsigned(s))
    ensures StartsNumber(s)
  {
    var t := Unsigned(s);
    var o := if IsNegative(s) then 1 else 0;
    assert |t| == |s| - o;
    if |t| > 0 && IsDigit(t[0]) {
      assert t[0] == s[o];
      assert s[..o] == (if o == 1 then "-" else "");
    } else {
      assert t[0] == s[o] && t[1] == s[o + 1];
      assert s[..o + 1] == (if o == 1 then "-." else ".");
    }
  }

  lemma {:induction false} StartsAhead(s: string, i: int)
    requires 0 <= i < |s| && IsDigit(s[i])
    requires s[..i] == "" || s[..i] == "-" || s[..i] == "." || s[..i] == "-."
    ensures NumberAhead(Unsigned(s))
  {
    if s[..i] == "" {
      assert i == 0 && !IsNegative(s);
    } else if s[..i] == "-" {
      assert i == 1 && s[0] == '-';
      assert Unsigned(s)[0] == s[1];
    } else if s[..i] == "." {
      assert i == 1 && s[0] == '.';
      assert Unsigned(s) == s;
    } else {
      assert i == 2 && s[0] == '-' && s[1] == '.';
      assert Unsigned(s)[0] == s[1] && Unsigned(s)[1] == s[2];
    }
  }

  /** `parseCurrency`: sanitise, `parseFloat`, then `Math.round(value * 100)`; `None` stands for NaN. */
  function ParseCurrency(value: string): Option<int>
  {
    match LeadingNumeral(Sanitize(value))
    case None => None
    case Some(n) => Some(Cents(n))
  }

  /** Without a number at the start of the sanitised text the result is NaN, and only then. */
  lemma {:induction false} ParseCurrencyFails(value: string)
    ensures ParseCurrency(value).None? <==> !StartsNumber(Sanitize(value))
  {
    LeadingNumeralDefined(Sanitize(value));
  }

  /** Parsing sanitises first, so a sanitised string parses to the same cents. */
  lemma {:induction false} ParseCurrencySanitized(value: string)
    ensures ParseCurrency(Sanitize(value)) == ParseCurrency(value)
  {
    SanitizeIdempotent(value);
  }

  function Sign(neg: bool): string { if neg then "-" else "" }

  lemma {:induction false} SignedSplit(neg: bool, t: string)
    requires t == [] || t[0] != '-'
    ensures IsNegative(Sign(neg) + t) == neg && Unsigned(Sign(neg) + t) == t
  {
    if neg {
      assert (Sign(neg) + t)[1..] == t;
    }
  }

  /** The whole and fraction digits of `w.f` are `w` and `f`. */
  lemma {:induction false} MantissaOfDecimal(t: string, w: string, f: string)
    requires IsDigits(w) && IsDigits(f) && t == w + "." + f
    ensures WholeDigits(t) == w && FractionDigits(t) == f
  {
    assert t == w + ("." + f);
    DigitRunOf(w, "." + f);
    assert t[|w|..] == "." + f;
    assert ("." + f)[1..] == f;
    DigitRunOf(f, "");
    assert f + "" == f;
  }

  lemma {:induction false} MantissaOfInteger(w: string)
    requires IsDigits(w)
    ensures WholeDigits(w) == w && FractionDigits(w) == ""
  {
    DigitRunOf(w, "");
    assert w + "" == w;
  }

  /** A string of kept characters only is parsed as its leading numeral. */
  lemma {:induction false} ParseKept(s: string, n: Numeral)
    requires AllKept(s) && LeadingNumeral(s) == Some(n)
    ensures ParseCurrency(s) == Some(Cents(n))
  {
    SanitizeKept(s);
  }

  /** A plain decimal `-?w.f` with at most two fraction digits is read exactly as cents. */
  lemma {:induction false} ParsePlainDecimal(neg: bool, w: string, f: string)
    requires IsDigits(w) && |w| >= 1 && IsDigits(f) && |f| <= 2
    ensures ParseCurrency(Sign(neg) + w + "." + f) == Some(Signed(neg, 100 * DigitsValue(w) + FractionCents(DigitsValue(f), |f|)))
  {
    NumeralOfDecimal(neg, w, f);
    ParseKept(Sign(neg) + w + "." + f, Numeral(neg, DigitsValue(w), DigitsValue(f), |f|));
    CentsExact(neg, DigitsValue(w), DigitsValue(f), |f|);
  }

  /** The text `-?w.f` consists of kept characters and its leading numeral is `w.f`. */
  lemma {:induction false} NumeralOfDecimal(neg: bool, w: string, f: string)
    requires IsDigits(w) && |w| >= 1 && IsDigits(f)
    ensures AllKept(Sign(neg) + w + "." + f)
    ensures LeadingNumeral(Sign(neg) + w + "." + f) == Some(Numeral(neg, DigitsValue(w), DigitsValue(f), |f|))
  {
    var t := w + "." + f;
    var s := Sign(neg) + w + "." + f;
    assert s == Sign(neg) + t;
    assert AllKept(s) by {
      DigitsKept(w);
      DigitsKept(f);
      AllKeptAppend(w, ".");
      AllKeptAppend(w + ".", f);
      AllKeptAppend(Sign(neg), t);
    }
    SignedSplit(neg, t);
    MantissaOfDecimal(t, w, f);
  }

  /** A plain run of digits `-?w` is read as whole dollars. */
  lemma {:induction false} ParsePlainInteger(neg: bool, w: string)
    requires IsDigits(w) && |w| >= 1
    ensures ParseCurrency(Sign(neg) + w) == Some(Signed(neg, 100 * DigitsValue(w)))
  {
    var s := Sign(neg) + w;
    assert AllKept(s) by {
      DigitsKept(w);
      AllKeptAppend(Sign(neg), w);
    }
    SignedSplit(neg, w);
    MantissaOfInteger(w);
    var n := Numeral(neg, DigitsValue(w), 0, 0);
    assert LeadingNumeral(s) == Some(n);
    ParseKept(s, n);
    CentsWhole(neg, DigitsValue(w));
  }

  /**
   * `formatCurrency`: `Intl.NumberFormat('en-US', {style: 'currency', currency: 'USD'})`
   * applied to `cents / 100`: optional minus, dollar sign, comma-grouped dollars and
   * exactly two cent digits.
   */
  function FormatUsd(cents: int): (s: string)
    ensures |s| >= 5
    ensures s[..|Sign(cents < 0)| + 1] == Sign(cents < 0) + "$"
    ensures s[|s| - 3] == '.' && IsDigit(s[|s| - 2]) && IsDigit(s[|s| - 1])
  {
    var a := if cents < 0 then -cents else cents;
    var frac := PadZeros(NatToString(a % 100), 2);
    assert |frac| == 2 by { NatToStringLength(a % 100, 2); }
    Sign(cents < 0) + "$" + Grouped(a / 100, ',') + "." + frac
  }

  lemma {:induction false} SanitizeGroupedDigits(s: string)
    requires IsGrouping(s, ',')
    ensures Sanitize(s) == DigitsOnly(s)
  {
    if s != [] {
      assert IsGrouping(s[1..], ',') by {
        forall i | 0 <= i < |s[1..]| ensures IsDigit(s[1..][i]) || s[1..][i] == ',' {
          assert s[1..][i] == s[i + 1];
        }
      }
      SanitizeGroupedDigits(s[1..]);
    }
  }

  /** Sanitising a formatted amount drops the dollar sign and the group separators. */
  lemma {:induction false} SanitizeFormatted(neg: bool, g: string, frac: string)
    requires IsGrouping(g, ',')
    requires IsDigits(frac)
    ensures Sanitize(Sign(neg) + "$" + g + "." + frac) == Sign(neg) + DigitsOnly(g) + "." + frac
  {
    FilterAppend(Sign(neg) + "$" + g + ".", frac, IsKept);
    FilterAppend(Sign(neg) + "$" + g, ".", IsKept);
    FilterAppend(Sign(neg) + "$", g, IsKept);
    FilterAppend(Sign(neg), "$", IsKept);
    SanitizeKept(Sign(neg));
    DigitsKept(frac);
    SanitizeKept(frac);
    SanitizeGroupedDigits(g);
  }

  /** Parsing what `FormatUsd` printed gives back the very same cents, for every integer. */
  lemma {:induction false} FormatUsdRoundTrip(cents: int)
    ensures ParseCurrency(FormatUsd(cents)) == Some(cents)
  {
    var neg := cents < 0;
    var a := if neg then -cents else cents;
    var g := Grouped(a / 100, ',');
    var frac := PadZeros(NatToString(a % 100), 2);
    var t := Sign(neg) + DigitsOnly(g) + "." + frac;
    ParseUsdDigits(cents);
    GroupedShape(a / 100, ',');
    var s := Sign(neg) + "$" + g + "." + frac;
    assert FormatUsd(cents) == s;
    SanitizeFormatted(neg, g, frac);
    ParseThroughSanitize(s, t, cents);
  }

  /** With the dollar sign and the separators gone, the digits of a formatted amount read back as the cents. */
  lemma {:induction false} ParseUsdDigits(cents: int)
    ensures var a := if cents < 0 then -cents else cents;
      ParseCurrency(Sign(cents < 0) + DigitsOnly(Grouped(a / 100, ',')) + "." + PadZeros(NatToString(a % 100), 2)) == Some(cents)
  {
    var neg := cents < 0;
    var a := if neg then -cents else cents;
    var frac := PadZeros(NatToString(a % 100), 2);
    var d := DigitsOnly(Grouped(a / 100, ','));
    assert |frac| == 2 && IsDigits(frac) && DigitsValue(frac) == a % 100 by {
      NatToStringLength(a % 100, 2);
    }
    assert |d| >= 1 && DigitsValue(d) == a / 100 by {
      GroupedDenotes(a / 100, ',');
    }
    ParseCentsText(neg, d, frac, cents);
  }

  /** A sign, whole digits, a point and two cent digits parse to the cents they spell. */
  lemma {:induction false} ParseCentsText(neg: bool, d: string, frac: string, cents: int)
    requires IsDigits(d) && |d| >= 1 && IsDigits(frac) && |frac| == 2
    requires neg == (cents < 0)
    requires 100 * DigitsValue(d) + DigitsValue(frac) == if neg then -cents else cents
    ensures ParseCurrency(Sign(neg) + d + "." + frac) == Some(cents)
  {
    var k := Signed(neg, 100 * DigitsValue(d) + FractionCents(DigitsValue(frac), |frac|));
    assert k == cents;
    ParsePlainDecimal(neg, d, frac);
    ParseValueEq(Sign(neg) + d + "." + frac, k, cents);
  }

  lemma {:induction false} ParseValueEq(t: string, x: int, y: int)
    requires ParseCurrency(t) == Some(x) && x == y
    ensures ParseCurrency(t) == Some(y)
  {
  }

  lemma {:induction false} ParseThroughSanitize(s: string, t: string, k: int)
    requires Sanitize(s) == t && ParseCurrency(t) == Some(k)
    ensures ParseCurrency(s) == Some(k)
  {
    ParseCurrencySanitized(s);
  }
}
