/**
 * contexts/currency-context.tsx: the display currencies, the conversion of
 * stored US cents to and from a display currency, the per-currency
 * formatting, and the selected-currency state with its persisted code.
 */
module CurrencyContext {
  import opened Wrappers
  import opened Decimal

  /** How many units of a currency one US dollar buys; every table entry is a positive integer. */
  type Rate = r: int | r > 0 witness 1

  datatype Currency = Currency(code: string, symbol: string, name: string, rate: Rate)

  const USD: Currency := Currency("USD", "$", "US Dollar", 1)
  const VND: Currency := Currency("VND", "\U{20AB}", "Vietnamese Dong", 24000)
  const THB: Currency := Currency("THB", "\U{0E3F}", "Thai Baht", 36)

  /** `CURRENCIES`, in table order; the first entry is the default. */
  const CURRENCIES: seq<Currency> := [USD, VND, THB]

  /** The key under which the selected code is persisted. */
  const STORAGE_KEY: string := "expense-tracker-currency"

  predicate DistinctCodes(cs: seq<Currency>)
  {
    forall i, j :: 0 <= i < j < |cs| ==> cs[i].code != cs[j].code
  }

  /** The table's codes are pairwise distinct, so a lookup by code is deterministic. */
  lemma {:induction false} CurrenciesDistinct()
    ensures DistinctCodes(CURRENCIES)
    ensures |CURRENCIES| == 3 && CURRENCIES[0] == USD
  {
    assert USD.code[0] == 'U' && VND.code[0] == 'V' && THB.code[0] == 'T';
  }

  /** `cs.find(c => c.code === code)`: the first entry with that code, if any. */
  function FindByCode(cs: seq<Currency>, code: string): (r: Option<Currency>)
    ensures r.Some? ==> r.value in cs && r.value.code == code
    ensures r.None? ==> forall i :: 0 <= i < |cs| ==> cs[i].code != code
  {
    if cs == [] then None
    else if cs[0].code == code then Some(cs[0])
    else FindByCode(cs[1..], code)
  }

  /** With distinct codes, looking up an entry's own code finds exactly that entry. */
  lemma {:induction false} FindOwnCode(cs: seq<Currency>, i: int)
    requires DistinctCodes(cs) && 0 <= i < |cs|
    ensures FindByCode(cs, cs[i].code) == Some(cs[i])
  {
    if i > 0 {
      assert cs[0].code != cs[i].code;
      assert cs[1..][i - 1] == cs[i];
      FindOwnCode(cs[1..], i - 1);
    }
  }

  /** `(a / 100) * b` over exact values is `a * b / 100`. */
  lemma {:induction false} ScaleHundredth(a: int, b: int)
    ensures (a as real / 100.0) * b as real == (a * b) as real / 100.0
  {
    var x := a as real / 100.0;
    assert x * 100.0 == a as real;
    assert (x * b as real) * 100.0 == (a * b) as real;
  }

  /** `Math.round(n / 100)` is the integer quotient of `n + 50` by 100. */
  lemma {:induction false} RoundHundredth(n: int)
    ensures RoundHalfUp(n as real / 100.0) == (n + 50) / 100
  {
    var q := (n + 50) / 100;
    assert 100 * q <= n + 50 < 100 * q + 100;
    RoundHalfUpUnique(n as real / 100.0, q);
  }

  /** `convertFromCents`: `Math.round(cents / 100 * rate)`, an amount in whole units of `c`. */
  function ConvertFromCents(c: Currency, cents: int): int
  {
    RoundHalfUp(cents as real / 100.0 * c.rate as real)
  }

  /** The converted amount is the number of whole units nearest to `cents * rate / 100`, a half rounded up. */
  lemma {:induction false} ConvertFromCentsNearest(c: Currency, cents: int)
    ensures ConvertFromCents(c, cents) == (cents * c.rate + 50) / 100
    ensures cents * c.rate - 50 < 100 * ConvertFromCents(c, cents) <= cents * c.rate + 50
  {
    ScaleHundredth(cents, c.rate);
    RoundHundredth(cents * c.rate);
  }

  /** In US dollars the converted amount is the whole number of dollars, a half dollar rounded up. */
  lemma {:induction false} ConvertFromCentsUsd(cents: int)
    ensures ConvertFromCents(USD, cents) == (cents + 50) / 100
  {
    ConvertFromCentsNearest(USD, cents);
  }

  /** `convertToCents`: `Math.round(amount / rate * 100)`, US cents for an amount in units of `c`. */
  function ConvertToCents(c: Currency, amount: real): int
  {
    RoundHalfUp(amount / c.rate as real * 100.0)
  }

  /** The cents are the nearest whole number to `amount * 100 / rate`: within half a cent. */
  lemma {:induction false} ConvertToCentsNearest(c: Currency, amount: real)
    ensures var k := ConvertToCents(c, amount);
      amount * 100.0 - c.rate as real / 2.0 < (k * c.rate) as real <= amount * 100.0 + c.rate as real / 2.0
  {
    var y := amount / c.rate as real * 100.0;
    assert y * c.rate as real == amount * 100.0;
    NearestScaled(amount, y, ConvertToCents(c, amount), c.rate);
  }

  lemma {:induction false} NearestScaled(a: real, y: real, k: int, rate: int)
    requires rate > 0 && y * rate as real == a * 100.0 && y - 0.5 < k as real <= y + 0.5
    ensures a * 100.0 - rate as real / 2.0 < (k * rate) as real <= a * 100.0 + rate as real / 2.0
  {
    var r := rate as real;
    var lo := k as real - y + 0.5;
    var hi := y + 0.5 - k as real;
    assert lo * r > 0.0;
    assert hi * r >= 0.0 by {
      if hi > 0.0 { assert hi * r > 0.0; }
    }
    assert (k * rate) as real == y * r - r / 2.0 + lo * r;
    assert (k * rate) as real == y * r + r / 2.0 - hi * r;
  }

  /** A whole number of US dollars converts to exactly that many hundred cents. */
  lemma {:induction false} ConvertToCentsUsd(dollars: int)
    ensures ConvertToCents(USD, dollars as real) == 100 * dollars
  {
    RoundHalfUpUnique(dollars as real / 1.0 * 100.0, 100 * dollars);
  }

  /** Converting whole dollars to cents and back gives the same dollars. */
  lemma {:induction false} UsdDollarsRoundTrip(dollars: int)
    ensures ConvertFromCents(USD, ConvertToCents(USD, dollars as real)) == dollars
  {
    ConvertToCentsUsd(dollars);
    ConvertFromCentsUsd(100 * dollars);
  }

  /**
   * For a currency worth less than a cent per unit (rate above 100), showing
   * cents in that currency and converting the shown amount back loses nothing.
   */
  lemma {:induction false} FineCurrencyRoundTrip(c: Currency, cents: int)
    requires c.rate > 100
    ensures ConvertToCents(c, ConvertFromCents(c, cents) as real) == cents
  {
    var a := ConvertFromCents(c, cents);
    ConvertFromCentsNearest(c, cents);
    var r := c.rate as real;
    var y := a as real / r * 100.0;
    assert y * r == (100 * a) as real;
    var e := y - cents as real;
    assert e * r == (100 * a - cents * c.rate) as real;
    SmallError(e, r);
    RoundHalfUpUnique(y, cents);
  }

  lemma {:induction false} SmallError(e: real, r: real)
    requires r > 100.0 && -50.0 < e * r <= 50.0
    ensures -0.5 < e < 0.5
  {
  }

  /** A Vietnamese dong amount is 240 times the cents, so every cent value survives a round trip. */
  lemma {:induction false} VndRoundTrip(cents: int)
    ensures ConvertFromCents(VND, cents) == 240 * cents
    ensures ConvertToCents(VND, ConvertFromCents(VND, cents) as real) == cents
  {
    ConvertFromCentsNearest(VND, cents);
    FineCurrencyRoundTrip(VND, cents);
  }

  /** A Thai baht display can be off by at most one cent after a round trip (rate 36). */
  lemma {:induction false} ThbRoundTrip(cents: int)
    ensures var back := ConvertToCents(THB, ConvertFromCents(THB, cents) as real);
      cents - 1 <= back <= cents + 1
  {
    var a := ConvertFromCents(THB, cents);
    ConvertFromCentsNearest(THB, cents);
    ConvertToCentsNearest(THB, a as real);
    var k := ConvertToCents(THB, a as real);
    assert 100 * a - 18 < 36 * k <= 100 * a + 18;
    assert 36 * cents - 50 < 100 * a <= 36 * cents + 50;
  }

  /** `n.toLocaleString(locale)` for an integer: a minus sign and the digits grouped by `sep`. */
  function LocaleInteger(n: int, sep: char): (s: string)
    ensures |s| >= 1
  {
    (if n < 0 then "-" else "") + Grouped(if n < 0 then -n else n, sep)
  }

  /** Reading a rendered integer back: the sign, then the value of its digits. */
  function ReadLocaleInteger(s: string): int
  {
    var v: int := DigitsValue(DigitsOnly(s));
    if |s| > 0 && s[0] == '-' then -v else v
  }

  lemma {:induction false} LocaleIntegerReads(n: int, sep: char)
    requires !IsDigit(sep) && sep != '-'
    ensures ReadLocaleInteger(LocaleInteger(n, sep)) == n
  {
    var m := if n < 0 then -n else n;
    var g := Grouped(m, sep);
    GroupedDenotes(m, sep);
    GroupedShape(m, sep);
    var prefix := if n < 0 then "-" else "";
    assert LocaleInteger(n, sep) == prefix + g;
    SignedReads(prefix, g, DigitsValue(DigitsOnly(g)));
  }

  /** A sign character in front of a digit-led text does not change the digits, only the sign. */
  lemma {:induction false} SignedReads(prefix: string, g: string, v: int)
    requires prefix == "-" || prefix == ""
    requires |g| >= 1 && IsDigit(g[0]) && DigitsValue(DigitsOnly(g)) == v
    ensures ReadLocaleInteger(prefix + g) == if prefix == "-" then -v else v
  {
    DigitsOnlyAppend(prefix, g);
    DigitsOnlyOfNonDigits(prefix);
    assert DigitsOnly(prefix + g) == DigitsOnly(g);
    assert (prefix + g)[0] == if prefix == "-" then '-' else g[0];
  }

  /** The grouping separator the locale of each currency uses. */
  const VI_SEPARATOR: char := '.'
  const TH_SEPARATOR: char := ','
  const EN_SEPARATOR: char := ','

  /** `formatCurrency`: the converted amount with the symbol placed by currency code. */
  function FormatCurrency(c: Currency, cents: int): string
  {
    var amount := ConvertFromCents(c, cents);
    if c.code == "VND" then LocaleInteger(amount, VI_SEPARATOR) + c.symbol
    else if c.code == "THB" then c.symbol + LocaleInteger(amount, TH_SEPARATOR)
    else c.symbol + LocaleInteger(amount, EN_SEPARATOR) + ".00"
  }

  /** Dong amounts end with the symbol; the text before it reads back as the converted amount. */
  lemma {:induction false} FormatVnd(c: Currency, cents: int)
    requires c.code == "VND"
    ensures var s := FormatCurrency(c, cents);
      |s| > |c.symbol| && s[|s| - |c.symbol|..] == c.symbol
      && ReadLocaleInteger(s[..|s| - |c.symbol|]) == ConvertFromCents(c, cents)
  {
    var t := LocaleInteger(ConvertFromCents(c, cents), VI_SEPARATOR);
    var s := t + c.symbol;
    assert s[|s| - |c.symbol|..] == c.symbol && s[..|s| - |c.symbol|] == t;
    LocaleIntegerReads(ConvertFromCents(c, cents), VI_SEPARATOR);
  }

  /** Baht amounts start with the symbol; the text after it reads back as the converted amount. */
  lemma {:induction false} FormatThb(c: Currency, cents: int)
    requires c.code == "THB"
    ensures var s := FormatCurrency(c, cents);
      |s| > |c.symbol| && s[..|c.symbol|] == c.symbol
      && ReadLocaleInteger(s[|c.symbol|..]) == ConvertFromCents(c, cents)
  {
    var t := LocaleInteger(ConvertFromCents(c, cents), TH_SEPARATOR);
    var s := c.symbol + t;
    assert c.code != "VND" by { assert c.code[0] != "VND"[0]; }
    assert s[..|c.symbol|] == c.symbol && s[|c.symbol|..] == t;
    LocaleIntegerReads(ConvertFromCents(c, cents), TH_SEPARATOR);
  }

  /**
   * Every other currency starts with its symbol and shows exactly two
   * fraction digits, which are always `00` because the converted amount is
   * whole; the text in between reads back as that amount.
   */
  lemma {:induction false} FormatOther(c: Currency, cents: int)
    requires c.code != "VND" && c.code != "THB"
    ensures var s := FormatCurrency(c, cents);
      |s| >= |c.symbol| + 4 && s[..|c.symbol|] == c.symbol && s[|s| - 3..] == ".00"
      && ReadLocaleInteger(s[|c.symbol|..|s| - 3]) == ConvertFromCents(c, cents)
  {
    var t := LocaleInteger(ConvertFromCents(c, cents), EN_SEPARATOR);
    var s := c.symbol + t + ".00";
    assert s[..|c.symbol|] == c.symbol && s[|s| - 3..] == ".00" && s[|c.symbol|..|s| - 3] == t;
    LocaleIntegerReads(ConvertFromCents(c, cents), EN_SEPARATOR);
  }

  /** The currency selected once the saved code (if any) has been loaded. */
  function Restored(current: Currency, saved: Option<string>): (r: Currency)
    ensures r == current || r in CURRENCIES
  {
    match saved
    case None => current
    case Some(code) =>
      if code == "" then current
      else
        match FindByCode(CURRENCIES, code)
        case None => current
        case Some(found) => found
  }

  /** A saved code of a table entry restores that entry; any other saved value leaves the currency alone. */
  lemma {:induction false} RestoredCases(current: Currency, code: string)
    ensures (exists i :: 0 <= i < |CURRENCIES| && CURRENCIES[i].code == code) ==>
      Restored(current, Some(code)).code == code && Restored(current, Some(code)) in CURRENCIES
    ensures (forall i :: 0 <= i < |CURRENCIES| ==> CURRENCIES[i].code != code) ==>
      Restored(current, Some(code)) == current
  {
    if code == "" {
      assert forall i :: 0 <= i < |CURRENCIES| ==> |CURRENCIES[i].code| == 3;
    }
  }

  /** The selected currency and the value stored under `STORAGE_KEY`. */
  class CurrencyProvider {
    var currency: Currency
    var savedCode: Option<string>

    /** `useState(CURRENCIES[0])`: US dollars, whatever is stored. */
    constructor(stored: Option<string>)
      ensures currency == USD && savedCode == stored
    {
      currency := CURRENCIES[0];
      savedCode := stored;
    }

    /** The effect run on mount: switch to the saved currency when the table has it. */
    method LoadSavedCurrency()
      modifies this
      ensures savedCode == old(savedCode)
      ensures currency == Restored(old(currency), savedCode)
    {
      match savedCode
      case None =>
      case Some(code) =>
        if code != "" {
          var found := FindByCode(CURRENCIES, code);
          if found.Some? {
            currency := found.value;
          }
        }
    }

    /** `setCurrency`: select `c` and persist its code. */
    method SetCurrency(c: Currency)
      modifies this
      ensures currency == c && savedCode == Some(c.code)
    {
      currency := c;
      savedCode := Some(c.code);
    }

    function FormatAmount(cents: int): string
      reads this
    {
      FormatCurrency(currency, cents)
    }
  }

  /** A selection from the table survives a reload: a new provider over the stored code loads it back. */
  method RestoreAfterReload(choice: Currency) returns (restored: Currency)
    requires choice in CURRENCIES
    ensures restored == choice
  {
    var before := new CurrencyProvider(None);
    before.SetCurrency(choice);
    var after := new CurrencyProvider(before.savedCode);
    assert after.currency == USD;
    after.LoadSavedCurrency();
    CurrenciesDistinct();
    var i :| 0 <= i < |CURRENCIES| && CURRENCIES[i] == choice;
    FindOwnCode(CURRENCIES, i);
    restored := after.currency;
  }
}
