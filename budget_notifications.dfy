/**
 * lib/budget-notifications.ts: per-category budget status, the batch of
 * statuses for all budgets of a user, and the toasts they give rise to.
 * The two store queries of each operation are inputs (`Fetch`), and a toast
 * is returned as a `Notification` value instead of being shown.
 */
module BudgetNotifications {
  import opened Wrappers
  import opened Seqs
  import opened Decimal
  import Currency

  /** The outcome of a store query: an error, or data that may be `null`. */
  datatype Fetch<T> = FetchError | Fetched(data: Option<T>)

  /** The joined `categories (name, color)` record of a budget row. */
  datatype CategoryRef = CategoryRef(name: string, color: string)

  /** A `budgets` row with its joined categories. */
  datatype BudgetRow = BudgetRow(categoryId: string, monthlyLimit: int, categories: seq<CategoryRef>)

  /** An `expenses` row as the batch query selects it (amount in cents). */
  datatype ExpenseRow = ExpenseRow(categoryId: string, amount: int)

  /**
   * The JavaScript number `spent / limit * 100`: finite, or one of the
   * special values a zero limit produces.
   */
  datatype Percent = Finite(value: real) | PlusInfinity | MinusInfinity | NotANumber

  datatype BudgetStatus = BudgetStatus(categoryName: string, spent: int, budget: int, percentage: Percent, color: string)

  /** `toast.error` or `toast.warning`. */
  datatype Severity = Error | Warning

  datatype Notification = Notification(severity: Severity, title: string, description: string, duration: int)

  const EXCEEDED_THRESHOLD: real := 100.0
  const WARNING_THRESHOLD: real := 80.0

  function Percentage(spent: int, limit: int): Percent
  {
    if limit != 0 then Finite(spent as real / limit as real * 100.0)
    else if spent > 0 then PlusInfinity
    else if spent < 0 then MinusInfinity
    else NotANumber
  }

  /** `p >= bound` on JavaScript numbers (false for NaN). */
  predicate AtLeast(p: Percent, bound: real)
  {
    match p
    case Finite(v) => v >= bound
    case PlusInfinity => true
    case MinusInfinity => false
    case NotANumber => false
  }

  /** `p < bound` on JavaScript numbers (false for NaN). */
  predicate Below(p: Percent, bound: real)
  {
    match p
    case Finite(v) => v < bound
    case PlusInfinity => false
    case MinusInfinity => true
    case NotANumber => false
  }

  /** With a positive limit, a share of at least `k` percent is `100 * spent >= k * limit` over the integers. */
  lemma {:induction false} ShareAtLeast(spent: int, limit: int, k: int)
    requires limit > 0
    ensures AtLeast(Percentage(spent, limit), k as real) <==> 100 * spent >= k * limit
  {
    var l := limit as real;
    var x := spent as real / l;
    assert x * l == spent as real;
    var d := x * 100.0 - k as real;
    assert d * l == (100 * spent - k * limit) as real;
    if d >= 0.0 {
      assert d * l >= 0.0;
    } else {
      assert d * l < 0.0;
    }
  }

  /**
   * With a positive limit the thresholds are integer comparisons: 100 % is
   * `spent >= limit` and 80 % is `5 * spent >= 4 * limit`.
   */
  lemma {:induction false} Thresholds(spent: int, limit: int)
    requires limit > 0
    ensures AtLeast(Percentage(spent, limit), EXCEEDED_THRESHOLD) <==> spent >= limit
    ensures AtLeast(Percentage(spent, limit), WARNING_THRESHOLD) <==> 5 * spent >= 4 * limit
    ensures Below(Percentage(spent, limit), EXCEEDED_THRESHOLD) <==> spent < limit
  {
    ShareAtLeast(spent, limit, 100);
    ShareAtLeast(spent, limit, 80);
  }

  /** A zero limit: any positive spending is over (Infinity), none is NaN and below nothing. */
  lemma {:induction false} ZeroLimit(spent: int)
    ensures AtLeast(Percentage(spent, 0), EXCEEDED_THRESHOLD) <==> spent > 0
    ensures AtLeast(Percentage(spent, 0), WARNING_THRESHOLD) <==> spent > 0
    ensures !Below(Percentage(spent, 0), EXCEEDED_THRESHOLD) || spent < 0
  {
  }

  /** The sum of a list of amounts, left to right as `reduce` adds them. */
  function Sum(amounts: seq<int>): int
  {
    if amounts == [] then 0 else Sum(amounts[..|amounts| - 1]) + amounts[|amounts| - 1]
  }

  lemma {:induction false} SumAppend(a: seq<int>, b: seq<int>)
    ensures Sum(a + b) == Sum(a) + Sum(b)
    decreases |b|
  {
    if b == [] {
      assert a + b == a;
    } else {
      assert (a + b)[..|a + b| - 1] == a + b[..|b| - 1];
      SumAppend(a, b[..|b| - 1]);
    }
  }

  /** `(n).toFixed(1)` over exact values: the tenth nearest to `v`, halves away from zero. */
  function FixedOne(v: real): (s: string)
    ensures |s| >= 3 && s[|s| - 2] == '.' && IsDigit(s[|s| - 1])
  {
    var a := if v < 0.0 then -v else v;
    assert a >= 0.0;
    Tenths(v < 0.0, RoundHalfUp(a * 10.0))
  }

  /** `n` tenths written with one decimal, after a minus sign when `negative`. */
  function Tenths(negative: bool, n: nat): (s: string)
    ensures |s| >= 3 && s[|s| - 2] == '.' && IsDigit(s[|s| - 1])
  {
    (if negative then "-" else "") + NatToString(n / 10) + "." + [DigitChar(n % 10)]
  }

  /** The text of `toFixed(1)` denotes the nearest tenth: its digits read as the count of tenths. */
  lemma {:induction false} FixedOneDenotes(v: real)
    ensures var s := FixedOne(v);
      var a := if v < 0.0 then -v else v;
      var n := DigitsValue(DigitsOnly(s));
      a * 10.0 - 0.5 < n as real <= a * 10.0 + 0.5
      && (s[0] == '-' <==> v < 0.0)
  {
    var a := if v < 0.0 then -v else v;
    var n := RoundHalfUp(a * 10.0);
    assert FixedOne(v) == Tenths(v < 0.0, n);
    TenthsText(v < 0.0, n);
  }

  lemma {:induction false} TenthsText(negative: bool, n: nat)
    ensures var s := Tenths(negative, n);
      DigitsValue(DigitsOnly(s)) == n && (s[0] == '-' <==> negative)
  {
    var w := NatToString(n / 10);
    var d := [DigitChar(n % 10)];
    SignedPointDigits(if negative then "-" else "", w, d);
    AppendOneDigit(w, d);
  }

  /** The digits of `sign + w + "." + d` are those of `w` then `d`; the text starts with the sign. */
  lemma {:induction false} SignedPointDigits(sign: string, w: string, d: string)
    requires sign == "-" || sign == ""
    requires IsDigits(w) && |w| >= 1 && IsDigits(d)
    ensures DigitsOnly(sign + w + "." + d) == w + d
    ensures (sign + w + "." + d)[0] == '-' <==> sign == "-"
  {
    var t := w + "." + d;
    assert sign + w + "." + d == sign + t;
    PointDigits(w, d);
    DigitsOnlyAppend(sign, t);
    DigitsOnlyOfNonDigits(sign);
    assert (sign + t)[0] == if sign == "-" then '-' else w[0];
  }

  /** The digits of `w + "." + d` are those of `w` then `d`. */
  lemma {:induction false} PointDigits(w: string, d: string)
    requires IsDigits(w) && IsDigits(d)
    ensures DigitsOnly(w + "." + d) == w + d
  {
    DigitsOnlyAppend(w + ".", d);
    DigitsOnlyAppend(w, ".");
    DigitsOnlyOfNonDigits(".");
    DigitsOnlyOfDigits(w);
    DigitsOnlyOfDigits(d);
    assert w + [] == w;
  }

  lemma {:induction false} AppendOneDigit(w: string, d: string)
    requires IsDigits(w) && IsDigits(d) && |d| == 1
    ensures DigitsValue(w + d) == 10 * DigitsValue(w) + DigitValue(d[0])
  {
    DigitsValueAppend(w, d);
    assert Pow10(1) == 10;
    assert d[..0] == [];
  }

  /** `percentage.toFixed(1)`; non-finite numbers print as `Number.prototype.toString` does. */
  function PercentText(p: Percent): string
  {
    match p
    case Finite(v) => FixedOne(v)
    case PlusInfinity => "Infinity"
    case MinusInfinity => "-Infinity"
    case NotANumber => "NaN"
  }

  /** `category?.name || ''` and `category?.color || '#000000'` for the first joined category. */
  function StatusOf(row: BudgetRow, spent: int): (s: BudgetStatus)
    ensures s.spent == spent && s.budget == row.monthlyLimit
    ensures s.percentage == Percentage(spent, row.monthlyLimit)
    ensures s.categoryName == (if |row.categories| > 0 then row.categories[0].name else "")
    ensures s.color != ""
    ensures |row.categories| > 0 && row.categories[0].color != "" ==> s.color == row.categories[0].color
    ensures !(|row.categories| > 0 && row.categories[0].color != "") ==> s.color == "#000000"
  {
    var name := if |row.categories| > 0 then row.categories[0].name else "";
    var color := if |row.categories| > 0 && row.categories[0].color != "" then row.categories[0].color else "#000000";
    BudgetStatus(name, spent, row.monthlyLimit, Percentage(spent, row.monthlyLimit), color)
  }

  const EXCEEDED_TITLE: string := "\U{1F6A8} Budget Exceeded: "
  const ALERT_TITLE: string := "\U{26A0}\U{FE0F} Budget Alert: "
  const EXCEEDED_DURATION: int := 8000
  const ALERT_DURATION: int := 6000

  function ExceededDescription(spent: string, percent: string, budget: string): string
  {
    "You've spent " + spent + " (" + percent + "%) of your " + budget + " budget."
  }

  function AlertDescription(percent: string, remaining: string): string
  {
    "You've used " + percent + "% of your budget. " + remaining + " remaining."
  }

  /** The toast `checkBudgetStatus` shows for a status, if any. */
  function BudgetAlert(status: BudgetStatus): Option<Notification>
  {
    if AtLeast(status.percentage, EXCEEDED_THRESHOLD) then Some(ExceededToast(status))
    else if AtLeast(status.percentage, WARNING_THRESHOLD) then Some(WarningToast(status))
    else None
  }

  /** The error toast: spending, percentage and limit. */
  function ExceededToast(status: BudgetStatus): Notification
  {
    Notification(Error, EXCEEDED_TITLE + status.categoryName,
      ExceededDescription(Currency.FormatUsd(status.spent), PercentText(status.percentage),
                          Currency.FormatUsd(status.budget)),
      EXCEEDED_DURATION)
  }

  /** The warning toast: percentage and the amount left. */
  function WarningToast(status: BudgetStatus): Notification
  {
    Notification(Warning, ALERT_TITLE + status.categoryName,
      AlertDescription(PercentText(status.percentage), Currency.FormatUsd(status.budget - status.spent)),
      ALERT_DURATION)
  }

  /**
   * With a positive limit: an error toast exactly when the spending reaches
   * the limit, a warning exactly when it is at least 80 % but below it, and
   * nothing otherwise.
   */
  lemma {:induction false} AlertDecision(row: BudgetRow, spent: int)
    requires row.monthlyLimit > 0
    ensures var n := BudgetAlert(StatusOf(row, spent));
      var limit := row.monthlyLimit;
      (n.Some? && n.value.severity == Error <==> spent >= limit)
      && (n.Some? && n.value.severity == Warning <==> 4 * limit <= 5 * spent < 5 * limit)
      && (n.None? <==> 5 * spent < 4 * limit)
  {
    Thresholds(spent, row.monthlyLimit);
  }

  /** With a zero limit any positive spending is reported as exceeded and anything else is silent. */
  lemma {:induction false} AlertZeroLimit(row: BudgetRow, spent: int)
    requires row.monthlyLimit == 0
    ensures var n := BudgetAlert(StatusOf(row, spent));
      (n.Some? <==> spent > 0) && (n.Some? ==> n.value.severity == Error)
  {
    ZeroLimit(spent);
  }

  /**
   * The error toast lasts 8000 ms, names the category, and reports the
   * spending and the limit as amounts that parse back to exactly those cents.
   */
  lemma {:induction false} ExceededAlertContents(status: BudgetStatus)
    requires AtLeast(status.percentage, EXCEEDED_THRESHOLD)
    ensures var n := BudgetAlert(status);
      n.Some? && n.value.severity == Error
      && n.value.duration == 8000 && n.value.title == EXCEEDED_TITLE + status.categoryName
      && exists a: string, b: string :: n.value.description == ExceededDescription(a, PercentText(status.percentage), b)
           && Currency.ParseCurrency(a) == Some(status.spent) && Currency.ParseCurrency(b) == Some(status.budget)
  {
    var a := Currency.FormatUsd(status.spent);
    var b := Currency.FormatUsd(status.budget);
    assert ExceededToast(status).description == ExceededDescription(a, PercentText(status.percentage), b);
    Currency.FormatUsdRoundTrip(status.spent);
    Currency.FormatUsdRoundTrip(status.budget);
  }

  /** Below 100 % and at least 80 %: the warning lasts 6000 ms and reports the remaining amount. */
  lemma {:induction false} WarningAlertContents(status: BudgetStatus)
    requires !AtLeast(status.percentage, EXCEEDED_THRESHOLD) && AtLeast(status.percentage, WARNING_THRESHOLD)
    ensures var n := BudgetAlert(status);
      n.Some? && n.value.severity == Warning
      && n.value.duration == 6000 && n.value.title == ALERT_TITLE + status.categoryName
      && exists r: string :: n.value.description == AlertDescription(PercentText(status.percentage), r)
           && Currency.ParseCurrency(r) == Some(status.budget - status.spent)
  {
    assert BudgetAlert(status) == Some(WarningToast(status));
    RemainingText(WarningToast(status).description, PercentText(status.percentage), status.budget - status.spent);
  }

  lemma {:induction false} RemainingText(description: string, percent: string, remaining: int)
    requires description == AlertDescription(percent, Currency.FormatUsd(remaining))
    ensures exists r: string :: (description == AlertDescription(percent, r)
      && Currency.ParseCurrency(r) == Some(remaining))
  {
    Currency.FormatUsdRoundTrip(remaining);
  }

  /** The amounts of the single-category query, or nothing when it returned `null`. */
  function FetchedAmounts(f: Fetch<seq<int>>): seq<int>
  {
    if f.Fetched? && f.data.Some? then f.data.value else []
  }

  /**
   * `checkBudgetStatus` for one category: stop silently when the budget
   * query fails or finds no row, or when the expense query fails; otherwise
   * sum the amounts and decide the toast.
   */
  method CheckBudgetStatus(budgetFetch: Fetch<BudgetRow>, expensesFetch: Fetch<seq<int>>)
    returns (toast: Option<Notification>)
    ensures budgetFetch.FetchError? || budgetFetch.data.None? || expensesFetch.FetchError? ==> toast.None?
    ensures budgetFetch.Fetched? && budgetFetch.data.Some? && expensesFetch.Fetched? ==>
      toast == BudgetAlert(StatusOf(budgetFetch.data.value, Sum(FetchedAmounts(expensesFetch))))
  {
    if budgetFetch.FetchError? || budgetFetch.data.None? {
      return None;
    }
    var budget := budgetFetch.data.value;
    if expensesFetch.FetchError? {
      return None;
    }
    var totalSpent := Sum(FetchedAmounts(expensesFetch));
    var status := StatusOf(budget, totalSpent);
    toast := BudgetAlert(status);
  }

  function Amounts(expenses: seq<ExpenseRow>): (r: seq<int>)
    ensures |r| == |expenses| && forall i :: 0 <= i < |r| ==> r[i] == expenses[i].amount
  {
    if expenses == [] then [] else Amounts(expenses[..|expenses| - 1]) + [expenses[|expenses| - 1].amount]
  }

  /** The spending of category `id`: the sum of the amounts of its expenses, 0 when it has none. */
  function CategorySpend(expenses: seq<ExpenseRow>, id: string): int
  {
    if expenses == [] then 0
    else
      var last := expenses[|expenses| - 1];
      CategorySpend(expenses[..|expenses| - 1], id) + (if last.categoryId == id then last.amount else 0)
  }

  predicate InCategory(id: string, e: ExpenseRow)
  {
    e.categoryId == id
  }

  /** The category's spending is the sum a single-category query of the same rows would give. */
  lemma {:induction false} CategorySpendIsFilteredSum(expenses: seq<ExpenseRow>, id: string)
    ensures CategorySpend(expenses, id) == Sum(Amounts(Filter(expenses, e => InCategory(id, e))))
  {
    var p := (e: ExpenseRow) => InCategory(id, e);
    if expenses != [] {
      var init := expenses[..|expenses| - 1];
      var last := expenses[|expenses| - 1];
      CategorySpendIsFilteredSum(init, id);
      assert expenses == init + [last];
      FilterAppend(init, [last], p);
      AmountsAppend(Filter(init, p), Filter([last], p));
      SumAppend(Amounts(Filter(init, p)), Amounts(Filter([last], p)));
      if last.categoryId == id {
        assert Filter([last], p) == [last];
        assert Amounts([last]) == [last.amount];
        assert Sum([last.amount]) == last.amount;
      } else {
        assert Filter([last], p) == [];
      }
    }
  }

  lemma {:induction false} AmountsAppend(a: seq<ExpenseRow>, b: seq<ExpenseRow>)
    ensures Amounts(a + b) == Amounts(a) + Amounts(b)
  {
    var l, r := Amounts(a + b), Amounts(a) + Amounts(b);
    assert |l| == |r|;
    forall i | 0 <= i < |l| ensures l[i] == r[i] {
      if i < |a| {
        assert (a + b)[i] == a[i];
      } else {
        assert (a + b)[i] == b[i - |a|];
      }
    }
  }

  /** Some expense of category `id` occurs. */
  predicate Occurs(expenses: seq<ExpenseRow>, id: string)
  {
    exists j :: 0 <= j < |expenses| && expenses[j].categoryId == id
  }

  lemma {:induction false} OccursAppend(s: seq<ExpenseRow>, e: ExpenseRow, id: string)
    ensures Occurs(s + [e], id) <==> Occurs(s, id) || e.categoryId == id
  {
    if Occurs(s, id) {
      var j :| 0 <= j < |s| && s[j].categoryId == id;
      assert (s + [e])[j] == s[j];
    }
    if Occurs(s + [e], id) {
      var j :| 0 <= j < |s + [e]| && (s + [e])[j].categoryId == id;
      if j < |s| {
        assert s[j] == (s + [e])[j];
      }
    }
    assert (s + [e])[|s|] == e;
  }

  /** The map the reduce has built after seeing `expenses`: a key per category that occurs, holding its sum. */
  ghost predicate SpendingMapOf(acc: map<string, int>, expenses: seq<ExpenseRow>)
  {
    (forall id :: id in acc <==> Occurs(expenses, id))
    && (forall id :: id in acc ==> acc[id] == CategorySpend(expenses, id))
  }

  /** `spendingByCategory`: one pass over the expenses, adding each amount to its category's entry. */
  method SpendingByCategory(expenses: seq<ExpenseRow>) returns (acc: map<string, int>)
    ensures SpendingMapOf(acc, expenses)
  {
    acc := map[];
    for i := 0 to |expenses|
      invariant SpendingMapOf(acc, expenses[..i])
    {
      var e := expenses[i];
      var before := if e.categoryId in acc then acc[e.categoryId] else 0;
      ghost var seen := expenses[..i];
      assert expenses[..i + 1] == seen + [e];
      assert (seen + [e])[..i] == seen;
      if e.categoryId !in acc {
        NoExpensesNoSpend(seen, e.categoryId);
      }
      acc := acc[e.categoryId := before + e.amount];
      forall id ensures id in acc <==> Occurs(seen + [e], id) {
        OccursAppend(seen, e, id);
      }
    }
    assert expenses[..|expenses|] == expenses;
  }

  lemma {:induction false} NoExpensesNoSpend(expenses: seq<ExpenseRow>, id: string)
    requires !Occurs(expenses, id)
    ensures CategorySpend(expenses, id) == 0
  {
    if expenses != [] {
      NoExpensesNoSpend(expenses[..|expenses| - 1], id);
    }
  }

  /** `spendingByCategory[id] || 0`. */
  function SpentFor(acc: map<string, int>, id: string): int
  {
    if id in acc then acc[id] else 0
  }

  /** The lookup with its default is the category's spending, whether or not it has expenses. */
  lemma {:induction false} SpentForIsCategorySpend(acc: map<string, int>, expenses: seq<ExpenseRow>, id: string)
    requires SpendingMapOf(acc, expenses)
    ensures SpentFor(acc, id) == CategorySpend(expenses, id)
  {
    if id !in acc {
      NoExpensesNoSpend(expenses, id);
    }
  }

  function SumOver(ids: seq<string>, expenses: seq<ExpenseRow>): int
  {
    if ids == [] then 0 else CategorySpend(expenses, ids[0]) + SumOver(ids[1..], expenses)
  }

  lemma {:induction false} SumOverStep(ids: seq<string>, expenses: seq<ExpenseRow>, e: ExpenseRow)
    requires forall i, j :: 0 <= i < j < |ids| ==> ids[i] != ids[j]
    ensures SumOver(ids, expenses + [e]) == SumOver(ids, expenses) + (if e.categoryId in ids then e.amount else 0)
  {
    var s := expenses + [e];
    assert s[..|s| - 1] == expenses;
    if ids != [] {
      SumOverStep(ids[1..], expenses, e);
      if e.categoryId == ids[0] {
        assert e.categoryId !in ids[1..];
      } else {
        assert e.categoryId in ids <==> e.categoryId in ids[1..];
      }
    }
  }

  /**
   * The per-category sums add up to the total of all expenses: summed over
   * any list of distinct ids that covers every expense's category.
   */
  lemma {:induction false} CategorySumsAddUp(ids: seq<string>, expenses: seq<ExpenseRow>)
    requires forall i, j :: 0 <= i < j < |ids| ==> ids[i] != ids[j]
    requires forall j :: 0 <= j < |expenses| ==> expenses[j].categoryId in ids
    ensures SumOver(ids, expenses) == Sum(Amounts(expenses))
  {
    if expenses == [] {
      SumOverEmpty(ids);
    } else {
      var init := expenses[..|expenses| - 1];
      var last := expenses[|expenses| - 1];
      assert expenses == init + [last];
      CategorySumsAddUp(ids, init);
      SumOverStep(ids, init, last);
      assert Amounts(expenses) == Amounts(init) + [last.amount];
      assert Amounts(expenses)[..|expenses| - 1] == Amounts(init);
    }
  }

  lemma {:induction false} SumOverEmpty(ids: seq<string>)
    ensures SumOver(ids, []) == 0
  {
    if ids != [] {
      SumOverEmpty(ids[1..]);
    }
  }

  /** The `budgets.map` join: one status per row, in row order. */
  function JoinStatuses(budgets: seq<BudgetRow>, acc: map<string, int>): (r: seq<BudgetStatus>)
    ensures |r| == |budgets|
    ensures forall i :: 0 <= i < |budgets| ==> r[i] == StatusOf(budgets[i], SpentFor(acc, budgets[i].categoryId))
  {
    if budgets == [] then [] else [StatusOf(budgets[0], SpentFor(acc, budgets[0].categoryId))] + JoinStatuses(budgets[1..], acc)
  }

  /**
   * `getAllBudgetStatuses`: `[]` when either query fails (or the budget
   * query returns `null`); otherwise one status per budget row, in row
   * order, whose spending is its category's sum over the fetched expenses.
   */
  method GetAllBudgetStatuses(budgetsFetch: Fetch<seq<BudgetRow>>, expensesFetch: Fetch<seq<ExpenseRow>>)
    returns (statuses: seq<BudgetStatus>)
    ensures budgetsFetch.FetchError? || budgetsFetch.data.None? || expensesFetch.FetchError? ==> statuses == []
    ensures budgetsFetch.Fetched? && budgetsFetch.data.Some? && expensesFetch.Fetched? ==>
      var budgets := budgetsFetch.data.value;
      var expenses := if expensesFetch.data.Some? then expensesFetch.data.value else [];
      |statuses| == |budgets|
      && forall i :: 0 <= i < |budgets| ==>
           statuses[i] == StatusOf(budgets[i], CategorySpend(expenses, budgets[i].categoryId))
  {
    if budgetsFetch.FetchError? || budgetsFetch.data.None? {
      return [];
    }
    var budgets := budgetsFetch.data.value;
    if expensesFetch.FetchError? {
      return [];
    }
    var expenses := if expensesFetch.data.Some? then expensesFetch.data.value else [];
    var spendingByCategory := SpendingByCategory(expenses);
    statuses := JoinStatuses(budgets, spendingByCategory);
    forall i | 0 <= i < |budgets|
      ensures statuses[i] == StatusOf(budgets[i], CategorySpend(expenses, budgets[i].categoryId))
    {
      SpentForIsCategorySpend(spendingByCategory, expenses, budgets[i].categoryId);
    }
  }

  /**
   * The two paths agree: the batch status of a budget row is the status the
   * single-category check computes when its expense query returns the
   * amounts of that category's rows.
   */
  lemma {:induction false} BatchAgreesWithCheck(row: BudgetRow, expenses: seq<ExpenseRow>)
    ensures StatusOf(row, CategorySpend(expenses, row.categoryId))
         == StatusOf(row, Sum(FetchedAmounts(Fetched(Some(Amounts(Filter(expenses, e => InCategory(row.categoryId, e))))))))
  {
    CategorySpendIsFilteredSum(expenses, row.categoryId);
  }

  predicate IsOverBudget(s: BudgetStatus)
  {
    AtLeast(s.percentage, EXCEEDED_THRESHOLD)
  }

  predicate IsNearBudget(s: BudgetStatus)
  {
    AtLeast(s.percentage, WARNING_THRESHOLD) && Below(s.percentage, EXCEEDED_THRESHOLD)
  }

  function Names(statuses: seq<BudgetStatus>): (r: seq<string>)
    ensures |r| == |statuses| && forall i :: 0 <= i < |r| ==> r[i] == statuses[i].categoryName
  {
    if statuses == [] then [] else [statuses[0].categoryName] + Names(statuses[1..])
  }

  /** `names.join(', ')`. */
  function JoinNames(names: seq<string>): string
  {
    if names == [] then ""
    else if |names| == 1 then names[0]
    else names[0] + ", " + JoinNames(names[1..])
  }

  /** Cuts a joined list at each comma, skipping the blank after it. */
  function SplitNames(s: string): seq<string>
    decreases |s|
  {
    var i := IndexOf(s, ',');
    if i == |s| then [s]
    else if i + 2 <= |s| then [s[..i]] + SplitNames(s[i + 2..])
    else [s[..i]]
  }

  /** Names without commas survive the join: splitting the joined text gives back the list, in order. */
  lemma {:induction false} JoinNamesSplits(names: seq<string>)
    requires |names| > 0
    requires forall i :: 0 <= i < |names| ==> ',' !in names[i]
    ensures SplitNames(JoinNames(names)) == names
  {
    if |names| == 1 {
      NoCommaIndex(names[0], "");
      assert names[0] + "" == names[0];
    } else {
      var rest := JoinNames(names[1..]);
      var s := names[0] + ", " + rest;
      NoCommaIndex(names[0], ", " + rest);
      assert s == names[0] + (", " + rest);
      assert s[..|names[0]|] == names[0];
      assert s[|names[0]| + 2..] == rest;
      JoinNamesSplits(names[1..]);
    }
  }

  lemma {:induction false} NoCommaIndex(a: string, b: string)
    requires ',' !in a
    requires b == [] || b[0] == ','
    ensures IndexOf(a + b, ',') == |a|
    decreases |a|
  {
    if a == [] {
      assert a + b == b;
    } else {
      assert (a + b)[1..] == a[1..] + b;
      assert a[0] != ',';
      NoCommaIndex(a[1..], b);
    }
  }

  function Plural(n: int): string
  {
    if n == 1 then "" else "s"
  }

  const SUMMARY_EXCEEDED_PREFIX: string := "\U{1F4B8} "
  const SUMMARY_WARNING_PREFIX: string := "\U{26A0}\U{FE0F} "
  const SUMMARY_EXCEEDED_DURATION: int := 10000
  const SUMMARY_WARNING_DURATION: int := 8000

  function ExceededTitle(count: nat): string
  {
    SUMMARY_EXCEEDED_PREFIX + NatToString(count) + " Budget" + Plural(count) + " Exceeded"
  }

  function WarningTitle(count: nat): string
  {
    SUMMARY_WARNING_PREFIX + NatToString(count) + " Budget Warning" + Plural(count)
  }

  /** `showBudgetSummaryNotification`: at most one toast, "exceeded" taking priority over "warning". */
  function SummaryNotification(statuses: seq<BudgetStatus>): Option<Notification>
  {
    var over := Filter(statuses, IsOverBudget);
    var near := Filter(statuses, IsNearBudget);
    if |over| > 0 then
      Some(Notification(Error, ExceededTitle(|over|), JoinNames(Names(over)) + " over budget this month.",
                        SUMMARY_EXCEEDED_DURATION))
    else if |near| > 0 then
      Some(Notification(Warning, WarningTitle(|near|), JoinNames(Names(near)) + " approaching budget limits.",
                        SUMMARY_WARNING_DURATION))
    else None
  }

  lemma {:induction false} FilterNonEmpty<T>(s: seq<T>, p: T -> bool)
    ensures |Filter(s, p)| > 0 <==> exists i :: 0 <= i < |s| && p(s[i])
  {
    if exists i :: 0 <= i < |s| && p(s[i]) {
      var i :| 0 <= i < |s| && p(s[i]);
      FilterMembers(s, p, s[i]);
    }
    if |Filter(s, p)| > 0 {
      FilterMembers(s, p, Filter(s, p)[0]);
    }
  }

  /**
   * The summary is an error exactly when some budget is at or over 100 %, a
   * warning exactly when none is but some is in [80 %, 100 %), and nothing
   * otherwise.
   */
  lemma {:induction false} SummaryDecision(statuses: seq<BudgetStatus>)
    ensures var n := SummaryNotification(statuses);
      (n.Some? && n.value.severity == Error <==> exists i :: 0 <= i < |statuses| && IsOverBudget(statuses[i]))
      && (n.Some? && n.value.severity == Warning <==>
            (forall i :: 0 <= i < |statuses| ==> !IsOverBudget(statuses[i]))
            && exists i :: 0 <= i < |statuses| && IsNearBudget(statuses[i]))
      && (n.None? <==> forall i :: 0 <= i < |statuses| ==> !IsOverBudget(statuses[i]) && !IsNearBudget(statuses[i]))
  {
    FilterNonEmpty(statuses, IsOverBudget);
    FilterNonEmpty(statuses, IsNearBudget);
  }

  /** The title's count reads back as the number of listed budgets, and the word is singular exactly for one. */
  lemma {:induction false} TitleCount(count: nat)
    ensures var t := ExceededTitle(count);
      exists digits: string :: IsDigits(digits) && DigitsValue(digits) == count
        && t == SUMMARY_EXCEEDED_PREFIX + digits + " Budget" + Plural(count) + " Exceeded"
    ensures var t := WarningTitle(count);
      exists digits: string :: IsDigits(digits) && DigitsValue(digits) == count
        && t == SUMMARY_WARNING_PREFIX + digits + " Budget Warning" + Plural(count)
    ensures Plural(count) == "" <==> count == 1
  {
    var digits := NatToString(count);
    assert IsDigits(digits) && DigitsValue(digits) == count;
  }

  /**
   * The error summary lists the over-budget categories in input order (a
   * name is listed iff an over-budget status carries it), their count is in
   * the title, and it lasts 10 s; comma-free names can be read back from it.
   */
  lemma {:induction false} SummaryExceededContents(statuses: seq<BudgetStatus>)
    requires exists i :: 0 <= i < |statuses| && IsOverBudget(statuses[i])
    ensures var over := Filter(statuses, IsOverBudget);
      var n := SummaryNotification(statuses);
      n.Some? && n.value.severity == Error && n.value.duration == 10000
      && n.value.title == ExceededTitle(|over|)
      && n.value.description == JoinNames(Names(over)) + " over budget this month."
      && (forall name :: name in Names(over) <==> exists i :: 0 <= i < |statuses| && IsOverBudget(statuses[i]) && statuses[i].categoryName == name)
      && ((forall i :: 0 <= i < |over| ==> ',' !in over[i].categoryName) ==> SplitNames(JoinNames(Names(over))) == Names(over))
  {
    var over := Filter(statuses, IsOverBudget);
    FilterNonEmpty(statuses, IsOverBudget);
    forall name ensures name in Names(over) <==> exists i :: 0 <= i < |statuses| && IsOverBudget(statuses[i]) && statuses[i].categoryName == name {
      if name in Names(over) {
        var k :| 0 <= k < |over| && Names(over)[k] == name;
        FilterMembers(statuses, IsOverBudget, over[k]);
      }
      if exists i :: 0 <= i < |statuses| && IsOverBudget(statuses[i]) && statuses[i].categoryName == name {
        var i :| 0 <= i < |statuses| && IsOverBudget(statuses[i]) && statuses[i].categoryName == name;
        FilterMembers(statuses, IsOverBudget, statuses[i]);
        var k :| 0 <= k < |over| && over[k] == statuses[i];
        assert Names(over)[k] == name;
      }
    }
    if forall i :: 0 <= i < |over| ==> ',' !in over[i].categoryName {
      JoinNamesSplits(Names(over));
    }
  }

  /** The warning summary lists the near-budget categories in input order and lasts 8 s. */
  lemma {:induction false} SummaryWarningContents(statuses: seq<BudgetStatus>)
    requires forall i :: 0 <= i < |statuses| ==> !IsOverBudget(statuses[i])
    requires exists i :: 0 <= i < |statuses| && IsNearBudget(statuses[i])
    ensures var near := Filter(statuses, IsNearBudget);
      var n := SummaryNotification(statuses);
      n.Some? && n.value.severity == Warning && n.value.duration == 8000
      && n.value.title == WarningTitle(|near|)
      && n.value.description == JoinNames(Names(near)) + " approaching budget limits."
      && (forall name :: name in Names(near) <==> exists i :: 0 <= i < |statuses| && IsNearBudget(statuses[i]) && statuses[i].categoryName == name)
      && ((forall i :: 0 <= i < |near| ==> ',' !in near[i].categoryName) ==> SplitNames(JoinNames(Names(near))) == Names(near))
  {
    var near := Filter(statuses, IsNearBudget);
    FilterNonEmpty(statuses, IsOverBudget);
    FilterNonEmpty(statuses, IsNearBudget);
    forall name ensures name in Names(near) <==> exists i :: 0 <= i < |statuses| && IsNearBudget(statuses[i]) && statuses[i].categoryName == name {
      if name in Names(near) {
        var k :| 0 <= k < |near| && Names(near)[k] == name;
        FilterMembers(statuses, IsNearBudget, near[k]);
      }
      if exists i :: 0 <= i < |statuses| && IsNearBudget(statuses[i]) && statuses[i].categoryName == name {
        var i :| 0 <= i < |statuses| && IsNearBudget(statuses[i]) && statuses[i].categoryName == name;
        FilterMembers(statuses, IsNearBudget, statuses[i]);
        var k :| 0 <= k < |near| && near[k] == statuses[i];
        assert Names(near)[k] == name;
      }
    }
    if forall i :: 0 <= i < |near| ==> ',' !in near[i].categoryName {
      JoinNamesSplits(Names(near));
    }
  }
}
