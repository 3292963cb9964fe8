/**
 * Decimal digit strings and the pieces of JavaScript number handling the
 * money and date code relies on: `Math.round` over exact values, the
 * decimal rendering of an integer, zero padding and thousands grouping as
 * `toLocaleString` / `Intl.NumberFormat` produce them.
 */
module Decimal {

  predicate IsDigit(c: char) { '0' <= c <= '9' }

  predicate IsDigits(s: string) { forall i :: 0 <= i < |s| ==> IsDigit(s[i]) }

  function DigitChar(d: nat): (c: char)
    requires d < 10
    ensures IsDigit(c) && c as int - '0' as int == d
  {
    ('0' as int + d) as char
  }

  function DigitValue(c: char): (d: nat)
    requires IsDigit(c)
    ensures d < 10 && DigitChar(d) == c
  {
    c as int - '0' as int
  }

  function Pow10(k: nat): (p: nat)
    ensures p >= 1
  {
    if k == 0 then 1 else 10 * Pow10(k - 1)
  }

  /** The number a digit string denotes, most significant digit first. */
  function DigitsValue(s: string): (v: nat)
    requires IsDigits(s)
    ensures v < Pow10(|s|)
  {
    if s == [] then 0 else 10 * DigitsValue(s[..|s| - 1]) + DigitValue(s[|s| - 1])
  }

  /** The digits of `a + b` read as `a` shifted left by `|b|` places plus `b`. */
  lemma {:induction false} DigitsValueAppend(a: string, b: string)
    requires IsDigits(a) && IsDigits(b)
    ensures IsDigits(a + b)
    ensures DigitsValue(a + b) == DigitsValue(a) * Pow10(|b|) + DigitsValue(b)
  {
    if b == [] {
      assert a + b == a;
    } else {
      var b' := b[..|b| - 1];
      var ab := a + b;
      assert ab[..|ab| - 1] == a + b';
      assert ab[|ab| - 1] == b[|b| - 1];
      DigitsValueAppend(a, b');
      ShiftDigit(DigitsValue(a), Pow10(|b'|), DigitsValue(b'), DigitValue(b[|b| - 1]));
    }
  }

  lemma {:induction false} ShiftDigit(x: int, p: int, y: int, d: int)
    ensures 10 * (x * p + y) + d == x * (10 * p) + (10 * y + d)
  {
  }

  /** The shortest decimal rendering of `n`, as `String(n)` gives for a non-negative integer. */
  function NatToString(n: nat): (s: string)
    ensures |s| >= 1 && IsDigits(s)
    ensures DigitsValue(s) == n
    ensures s[0] == '0' ==> n == 0
    decreases n
  {
    if n < 10 then [DigitChar(n)]
    else
      var t := NatToString(n / 10);
      var s := t + [DigitChar(n % 10)];
      assert s[..|s| - 1] == t;
      s
  }

  /** A number below 10^k needs at most k digits. */
  lemma {:induction false} NatToStringLength(n: nat, k: nat)
    requires 1 <= k && n < Pow10(k)
    ensures |NatToString(n)| <= k
    decreases k
  {
    if n >= 10 {
      assert k > 1;
      assert n / 10 < Pow10(k - 1);
      NatToStringLength(n / 10, k - 1);
    }
  }

  /** Rendering is injective: different numbers never share a rendering. */
  lemma {:induction false} NatToStringInjective(m: nat, n: nat)
    requires NatToString(m) == NatToString(n)
    ensures m == n
  {
  }

  function Zeros(k: nat): (s: string)
    ensures |s| == k && IsDigits(s) && DigitsValue(s) == 0
  {
    if k == 0 then ""
    else
      var s := Zeros(k - 1) + "0";
      assert s[..|s| - 1] == Zeros(k - 1);
      s
  }

  /** `s.padStart(width, '0')`, and the `minimumIntegerDigits` padding of number formatting. */
  function PadZeros(s: string, width: nat): (r: string)
    ensures |r| == if |s| >= width then |s| else width
    ensures IsDigits(s) ==> IsDigits(r) && DigitsValue(r) == DigitsValue(s)
  {
    if |s| >= width then s
    else
      var r := Zeros(width - |s|) + s;
      assert IsDigits(s) ==> IsDigits(r) && DigitsValue(r) == DigitsValue(s) by {
        if IsDigits(s) { DigitsValueAppend(Zeros(width - |s|), s); }
      }
      r
  }

  /** `n` written with `sep` between groups of three digits, counted from the right. */
  function Grouped(n: nat, sep: char): (s: string)
    ensures |s| >= 1
    decreases n
  {
    if n < 1000 then NatToString(n)
    else Grouped(n / 1000, sep) + [sep] + PadZeros(NatToString(n % 1000), 3)
  }

  /** Every character is a digit or the separator. */
  predicate IsGrouping(s: string, sep: char)
  {
    forall i :: 0 <= i < |s| ==> IsDigit(s[i]) || s[i] == sep
  }

  /** A grouped number starts with a digit and holds only digits and separators. */
  lemma {:induction false} GroupedShape(n: nat, sep: char)
    ensures |Grouped(n, sep)| >= 1 && IsDigit(Grouped(n, sep)[0]) && IsGrouping(Grouped(n, sep), sep)
    decreases n
  {
    if n < 1000 {
      assert IsDigits(NatToString(n));
    } else {
      GroupedShape(n / 1000, sep);
      var lo := PadZeros(NatToString(n % 1000), 3);
      assert IsDigits(lo);
      GroupingAppend(Grouped(n / 1000, sep), sep, lo);
    }
  }

  lemma {:induction false} GroupingAppend(hi: string, sep: char, lo: string)
    requires |hi| >= 1 && IsDigit(hi[0]) && IsGrouping(hi, sep) && IsDigits(lo)
    ensures var s := hi + [sep] + lo; |s| >= 1 && IsDigit(s[0]) && IsGrouping(s, sep)
  {
    var s := hi + [sep] + lo;
    forall i | 0 <= i < |s| ensures IsDigit(s[i]) || s[i] == sep {
      if i < |hi| {
        assert s[i] == hi[i];
      } else if i > |hi| {
        assert s[i] == lo[i - |hi| - 1];
      }
    }
  }

  /** The digit characters of `s`, in order. */
  function DigitsOnly(s: string): (r: string)
    ensures IsDigits(r) && |r| <= |s|
  {
    if s == [] then "" else (if IsDigit(s[0]) then [s[0]] else "") + DigitsOnly(s[1..])
  }

  lemma {:induction false} DigitsOnlyAppend(a: string, b: string)
    ensures DigitsOnly(a + b) == DigitsOnly(a) + DigitsOnly(b)
  {
    if a == [] {
      assert a + b == b;
    } else {
      assert (a + b)[1..] == a[1..] + b;
      DigitsOnlyAppend(a[1..], b);
    }
  }

  lemma {:induction false} DigitsOnlyOfDigits(s: string)
    requires IsDigits(s)
    ensures DigitsOnly(s) == s
  {
    if s != [] {
      DigitsOnlyOfDigits(s[1..]);
    }
  }

  lemma {:induction false} DigitsOnlyOfNonDigits(s: string)
    requires forall i :: 0 <= i < |s| ==> !IsDigit(s[i])
    ensures DigitsOnly(s) == ""
  {
    if s != [] {
      DigitsOnlyOfNonDigits(s[1..]);
    }
  }

  /** Grouping never changes the number: its digits, read in order, give back `n`, and there is at least one. */
  lemma {:induction false} GroupedDenotes(n: nat, sep: char)
    requires !IsDigit(sep)
    ensures |DigitsOnly(Grouped(n, sep))| >= 1
    ensures DigitsValue(DigitsOnly(Grouped(n, sep))) == n
    decreases n
  {
    if n < 1000 {
      DigitsOnlyOfDigits(NatToString(n));
    } else {
      var hi := Grouped(n / 1000, sep);
      var lo := PadZeros(NatToString(n % 1000), 3);
      assert |lo| == 3 && IsDigits(lo) && DigitsValue(lo) == n % 1000 by {
        NatToStringLength(n % 1000, 3);
      }
      GroupedDenotes(n / 1000, sep);
      assert Grouped(n, sep) == hi + [sep] + lo;
      JoinGroup(hi, sep, lo);
    }
  }

  /** The digits of `hi` + separator + a three-digit group `lo`: those of `hi` shifted by three places, plus `lo`. */
  lemma {:induction false} JoinGroup(hi: string, sep: char, lo: string)
    requires !IsDigit(sep) && IsDigits(lo) && |lo| == 3
    ensures DigitsOnly(hi + [sep] + lo) == DigitsOnly(hi) + lo
    ensures DigitsValue(DigitsOnly(hi + [sep] + lo)) == DigitsValue(DigitsOnly(hi)) * 1000 + DigitsValue(lo)
  {
    DigitsOnlyAppend(hi + [sep], lo);
    DigitsOnlyAppend(hi, [sep]);
    DigitsOnlyOfNonDigits([sep]);
    DigitsOnlyOfDigits(lo);
    assert DigitsOnly(hi) + [] == DigitsOnly(hi);
    AppendThreeDigits(DigitsOnly(hi), lo);
  }

  lemma {:induction false} AppendThreeDigits(a: string, b: string)
    requires IsDigits(a) && IsDigits(b) && |b| == 3
    ensures DigitsValue(a + b) == DigitsValue(a) * 1000 + DigitsValue(b)
  {
    DigitsValueAppend(a, b);
    assert Pow10(3) == 1000 by { assert Pow10(1) == 10; assert Pow10(2) == 100; }
  }

  /** `Math.round` over exact values: the nearest integer, a half rounded towards +infinity. */
  function RoundHalfUp(x: real): (r: int)
    ensures x - 0.5 < r as real <= x + 0.5
  {
    (x + 0.5).Floor
  }

  /** The rounding condition has exactly one solution, so it determines `Math.round`. */
  lemma {:induction false} RoundHalfUpUnique(x: real, k: int)
    requires x - 0.5 < k as real <= x + 0.5
    ensures RoundHalfUp(x) == k
  {
  }
}
