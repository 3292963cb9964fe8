# Expense tracker: budget and money logic in Dafny

This project models the budget and money logic of a personal expense
tracker (Next.js, Supabase). All amounts are integer US cents. The logic
covers six parts:

- **Budget checks** (`lib/budget-notifications.ts`):
  - the per-category check that decides on an error toast, a warning toast
    or no toast after an expense is saved;
  - the batch computation of every budget's status from one expense query;
  - the single summary toast for a batch.
- **Display currency** (`contexts/currency-context.tsx`):
  - the three-entry currency table;
  - conversion of cents to and from the display currency;
  - the per-currency text format;
  - the selected-currency state with its persisted code.
- **Reporting windows** (`lib/date-utils.ts`): the current-month,
  last-month, today, yesterday and last-7-days windows, plus the three
  branches of `formatDate`.
- **USD helpers** (`lib/currency.ts`): `formatCurrency` and `parseCurrency`.
- **Pie-chart data** (`components/charts/expense-pie-chart.tsx`): the
  `chartData` derivation and the choice of the empty state.
- **Category table** (`lib/categories.ts`): the default categories and the
  icon lookup with its fallback.

The model has one module per source file, plus three shared modules:

- `Wrappers`: `Option`.
- `Seqs`: `filter`, and a first-occurrence search used by the read-back lemmas.
- `Decimal`: digit strings, `Math.round`, digit grouping.

The rest of this section describes how the model maps the source.

**Store fetches and toasts.**
- Each store fetch is an input of type `Fetch<T>`: either `FetchError` or
  `Fetched(data)`, where `data` may be missing (the `null` case).
- A toast is an output value of type `Option<Notification>`.

**Numbers.**
- JavaScript numbers are exact integers and reals.
- `Math.round(x)` is `floor(x + 1/2)`.
- A percentage is a `Percent`: finite, `Infinity`, `-Infinity` or `NaN`.
  This keeps the code's unguarded division by the monthly limit exact. With
  a zero limit, positive spending counts as exceeded and zero spending as
  nothing.

**Dates.**
- Dates are local calendar values over an explicit proleptic Gregorian
  calendar.
- The reference instant `now` is a parameter.

**Imperative parts.** These keep the source's form:
- The per-category check and the batch computation are methods with early
  returns.
- The per-category spending map is a loop that updates a `map`.
- The selected currency is a class. Its fields are the currency and the
  stored code.

**Behaviour of the code worth noting.**
- The current-month window ends at the end of the month, not at `now`.
- There is no filter for budgets with a zero limit.
- The today and yesterday windows end at 23:59:59.000, not at .999.
- An empty category colour also falls back to `#000000` (`||` treats `''`
  as false).

## Model

| member | source | states |
|---|---|---|
| BudgetNotifications.ShareAtLeast | lib/budget-notifications.ts:48 | with a positive limit, "spent is at least k % of the limit" is the integer inequality `100*spent >= k*limit` |
| BudgetNotifications.Thresholds | lib/budget-notifications.ts:61-69 | with a positive limit: at least 100 % iff `spent >= limit`; at least 80 % iff `5*spent >= 4*limit`; below 100 % iff `spent < limit` |
| BudgetNotifications.ZeroLimit | lib/budget-notifications.ts:48 | with a zero limit, positive spending is Infinity (over both thresholds) and zero spending is NaN (over neither) |
| BudgetNotifications.SumAppend | lib/budget-notifications.ts:47 | the left-to-right sum of the amounts is additive over concatenation |
| BudgetNotifications.FixedOne | lib/budget-notifications.ts:65 | `toFixed(1)` text ends in a point and one digit |
| BudgetNotifications.FixedOneDenotes | lib/budget-notifications.ts:65 | the digits of `toFixed(1)` read as the tenth nearest to the value (a half away from zero), and the text starts with `-` exactly for negative values |
| BudgetNotifications.TenthsText | lib/budget-notifications.ts:65 | a count of tenths printed as `w.d` reads back as that count, and carries the sign exactly when it is negative |
| BudgetNotifications.StatusOf | lib/budget-notifications.ts:50-58 | the status carries the spending, the limit and their percentage; the name is the first joined category's name, else `''`; the colour is never empty: it is the category's colour when that is non-empty, and `#000000` when there is no category or its colour is `''` |
| BudgetNotifications.AlertDecision | lib/budget-notifications.ts:61-77 | with a positive limit: an error toast iff `spent >= limit`; a warning iff `4*limit <= 5*spent < 5*limit`; no toast iff `5*spent < 4*limit` |
| BudgetNotifications.AlertZeroLimit | lib/budget-notifications.ts:48-77 | with a zero limit there is a toast iff the spending is positive, and it is the error toast |
| BudgetNotifications.ExceededAlertContents | lib/budget-notifications.ts:61-68 | the error toast lasts 8000 ms and its title names the category; its description reports the spending and the limit as USD text that parses back to exactly those cents |
| BudgetNotifications.WarningAlertContents | lib/budget-notifications.ts:69-76 | the warning toast lasts 6000 ms and its title names the category; its description reports `budget - spent` as USD text that parses back to exactly that amount |
| BudgetNotifications.RemainingText | lib/budget-notifications.ts:73 | a description built around the USD text of an amount holds some text that parses back to that amount |
| BudgetNotifications.CheckBudgetStatus | lib/budget-notifications.ts:14-81 | if the budget fetch fails or finds no row, or the expense fetch fails, there is no toast; otherwise the toast is the one decided for the row's status with the summed amounts (0 for no expenses) |
| BudgetNotifications.Amounts | lib/budget-notifications.ts:103 | the amount column has one entry per expense, in order |
| BudgetNotifications.CategorySpendIsFilteredSum | lib/budget-notifications.ts:114-121 | the spending of a category is the sum of the amounts of exactly the expenses with that category id |
| BudgetNotifications.AmountsAppend | lib/budget-notifications.ts:114-117 | the amount column of a concatenation is the concatenation of the columns |
| BudgetNotifications.OccursAppend | lib/budget-notifications.ts:114-117 | a category id occurs in a list extended by one expense iff it occurred before or is that expense's id |
| BudgetNotifications.SpendingByCategory | lib/budget-notifications.ts:114-117 | the loop builds a map whose keys are exactly the category ids that occur, each mapped to the sum of that category's amounts |
| BudgetNotifications.NoExpensesNoSpend | lib/budget-notifications.ts:121 | a category with no expenses has spending 0 |
| BudgetNotifications.SpentForIsCategorySpend | lib/budget-notifications.ts:121 | the lookup with default 0 on the built map is the category's spending, and 0 for an absent id |
| BudgetNotifications.SumOverStep | lib/budget-notifications.ts:114-117 | over distinct ids, adding one expense raises the summed spending by its amount when its category is listed, and by nothing otherwise |
| BudgetNotifications.CategorySumsAddUp | lib/budget-notifications.ts:114-117 | over distinct ids that cover every expense, the per-category spendings add up to the total of all amounts |
| BudgetNotifications.SumOverEmpty | lib/budget-notifications.ts:114-117 | with no expenses, the spending summed over any ids is 0 |
| BudgetNotifications.JoinStatuses | lib/budget-notifications.ts:120-133 | the join gives one status per budget row, in row order, each built from its row and its looked-up spending |
| BudgetNotifications.GetAllBudgetStatuses | lib/budget-notifications.ts:83-138 | `[]` when either fetch fails or the budgets are missing; otherwise one status per row, in row order, with `budget = monthly_limit` and `spent` the row category's spending |
| BudgetNotifications.BatchAgreesWithCheck | lib/budget-notifications.ts:47-58 | the batch status of a row equals the single-category status computed from that category's fetched amounts |
| BudgetNotifications.Names | lib/budget-notifications.ts:148 | the mapped names are the statuses' category names, in order |
| BudgetNotifications.JoinNamesSplits | lib/budget-notifications.ts:148 | for comma-free names, cutting the `', '`-joined text at its commas gives back the names, in order |
| BudgetNotifications.FilterNonEmpty | lib/budget-notifications.ts:141-144 | a filter result is non-empty iff some element passes |
| BudgetNotifications.SummaryDecision | lib/budget-notifications.ts:140-160 | the summary is an error iff some status is at or over 100 %; a warning iff none is and some is in [80 %, 100 %); nothing iff neither holds; never both |
| BudgetNotifications.TitleCount | lib/budget-notifications.ts:146-154 | the titles carry the count as digits that read back as the count; the word is singular exactly for a count of one |
| BudgetNotifications.SummaryExceededContents | lib/budget-notifications.ts:141-151 | the error summary lasts 10000 ms, counts the over-budget statuses and lists their names in input order (a name is listed iff an over-budget status has it); comma-free names read back from the list |
| BudgetNotifications.SummaryWarningContents | lib/budget-notifications.ts:142-159 | the warning summary lasts 8000 ms, counts the near-budget statuses and lists their names in input order; comma-free names read back from the list |
| CurrencyContext.CurrenciesDistinct | contexts/currency-context.tsx:12-16 | the table's codes are pairwise distinct, it has three entries and the first is USD |
| CurrencyContext.FindByCode | contexts/currency-context.tsx:35 | a found entry is in the table and has the code; nothing is found only when no entry has it |
| CurrencyContext.FindOwnCode | contexts/currency-context.tsx:35 | with distinct codes, looking up an entry's code finds that very entry |
| CurrencyContext.ScaleHundredth | contexts/currency-context.tsx:49-50 | `(cents / 100) * rate` is exactly `cents * rate / 100` |
| CurrencyContext.RoundHundredth | contexts/currency-context.tsx:50 | `Math.round(n / 100)` is the integer quotient of `n + 50` by 100 |
| CurrencyContext.ConvertFromCentsNearest | contexts/currency-context.tsx:47-51 | the converted amount is `(cents*rate + 50) div 100`, the whole number nearest `cents*rate/100` with a half rounded up |
| CurrencyContext.ConvertFromCentsUsd | contexts/currency-context.tsx:47-51 | in dollars the amount is the whole number of dollars, a half dollar rounded up |
| CurrencyContext.ConvertToCentsNearest | contexts/currency-context.tsx:53-57 | the cents times the rate lie within half a rate step of `amount * 100` |
| CurrencyContext.NearestScaled | contexts/currency-context.tsx:55-56 | rounding `amount / rate * 100` and scaling it back by the rate errs by at most half a rate |
| CurrencyContext.ConvertToCentsUsd | contexts/currency-context.tsx:53-57 | a whole number of dollars converts to exactly `100 * dollars` cents |
| CurrencyContext.UsdDollarsRoundTrip | contexts/currency-context.tsx:47-57 | whole dollars converted to cents and back are unchanged |
| CurrencyContext.FineCurrencyRoundTrip | contexts/currency-context.tsx:47-57 | for a rate above 100, converting cents to the currency and back gives the same cents |
| CurrencyContext.VndRoundTrip | contexts/currency-context.tsx:14 | a dong amount is exactly 240 times the cents, and every cent value survives the round trip |
| CurrencyContext.ThbRoundTrip | contexts/currency-context.tsx:15 | a baht round trip is off by at most one cent |
| CurrencyContext.LocaleInteger | contexts/currency-context.tsx:63-70 | a locale-rendered integer is never empty |
| CurrencyContext.LocaleIntegerReads | contexts/currency-context.tsx:63-70 | an integer rendered with a non-digit group separator reads back as that integer, sign included |
| CurrencyContext.SignedReads | contexts/currency-context.tsx:63-70 | a minus sign in front of grouped digits negates the value they read as, and changes nothing else |
| CurrencyContext.FormatVnd | contexts/currency-context.tsx:62-63 | dong text ends with the symbol, and the text before it reads back as the converted amount |
| CurrencyContext.FormatThb | contexts/currency-context.tsx:64-65 | baht text starts with the symbol, and the text after it reads back as the converted amount |
| CurrencyContext.FormatOther | contexts/currency-context.tsx:66-71 | any other currency's text starts with its symbol and ends in `.00`, and the text in between reads back as the converted amount |
| CurrencyContext.Restored | contexts/currency-context.tsx:33-39 | loading a saved code leaves the current currency or picks a table entry |
| CurrencyContext.RestoredCases | contexts/currency-context.tsx:33-39 | a saved code of a table entry selects the entry with that code, and any other saved value (including `''`) leaves the currency unchanged |
| CurrencyContext.CurrencyProvider.constructor | contexts/currency-context.tsx:29 | the initial currency is USD, whatever is stored |
| CurrencyContext.CurrencyProvider.LoadSavedCurrency | contexts/currency-context.tsx:31-40 | the stored code is unchanged, and the currency becomes the restored one for that code |
| CurrencyContext.CurrencyProvider.SetCurrency | contexts/currency-context.tsx:42-45 | afterwards the currency is the chosen one and the stored code is its code |
| CurrencyContext.RestoreAfterReload | contexts/currency-context.tsx:29-45 | a table currency that was set is selected again by a fresh provider once the stored code is loaded |
| DateUtils.DaysInMonth | lib/date-utils.ts:21 | a month has 28 to 31 days |
| DateUtils.DayNumberAnchors | lib/date-utils.ts:35 | the day count anchors: 1970-01-01 is day 0, 1969-12-31 is day -1, 2000-03-01 is day 11017 |
| DateUtils.YearLength | lib/date-utils.ts:21 | a year has 366 days exactly when it is a leap year |
| DateUtils.PrevDay | lib/date-utils.ts:55 | the day before a valid date is a valid date |
| DateUtils.PrevDayNumber | lib/date-utils.ts:55 | the day before is exactly one day earlier, across month and year ends |
| DateUtils.DayNumberInjective | lib/date-utils.ts:35 | distinct valid dates have distinct day counts |
| DateUtils.TimeOfDayBounds | lib/date-utils.ts:35 | a valid time of day lies in `[0, 86400000)` |
| DateUtils.InstantInjective | lib/date-utils.ts:35 | distinct valid date-times have distinct instants |
| DateUtils.CurrentMonthRangeSpec | lib/date-utils.ts:17-23 | the window runs from day 1, 00:00:00.000, to the month's last day, 23:59:59.999, of `now`'s month, and contains `now` |
| DateUtils.SubOneMonthSpec | lib/date-utils.ts:26 | one month back: January goes to December of the year before, other months to the month before in the same year; the day is kept or clamped to the month's last day; the time is kept |
| DateUtils.LastMonthRangeSpec | lib/date-utils.ts:25-31 | the window covers the preceding month from day 1, 00:00:00.000, to its last day, 23:59:59.999; January maps to December of the previous year |
| DateUtils.LastMonthAdjoinsCurrent | lib/date-utils.ts:17-31 | the last-month window ends on the day before the current month starts, one millisecond before it |
| DateUtils.TodayRangeSpec | lib/date-utils.ts:42-50 | both ends are on `now`'s date; the window starts at 00:00:00.000, before `now`, and ends at 23:59:59.000, 86 399 000 ms later |
| DateUtils.OneDayEarlierSpec | lib/date-utils.ts:54 | the same wall-clock time on the previous day is exactly 86 400 000 ms before `now`, and it is the only valid date-time that is |
| DateUtils.YesterdayRangeSpec | lib/date-utils.ts:52-61 | both ends are on the day before `now`'s date; the window runs from 00:00:00.000 to 23:59:59.000 and ends one second before today's window starts |
| DateUtils.DaysBack | lib/date-utils.ts:35 | counting back from a valid date gives a valid date |
| DateUtils.DaysBackNumber | lib/date-utils.ts:35 | n days back is exactly n days earlier |
| DateUtils.Last7DaysRangeSpec | lib/date-utils.ts:33-40 | the window ends at `now` and starts exactly 604 800 000 ms earlier, at the only valid date-time with that instant |
| DateUtils.YearDigits | lib/date-utils.ts:9 | the `yyyy` year has at least four digits |
| DateUtils.FormatDateCases | lib/date-utils.ts:3-10 | "Today" iff the date is `now`'s date; "Yesterday" iff it is the day before; otherwise the `MMM d, yyyy` label, which reads back as the date |
| DateUtils.DateLabelLength | lib/date-utils.ts:9 | the full label has at least ten characters |
| DateUtils.MonthName | lib/date-utils.ts:9 | each month's abbreviation has three letters and names that month |
| DateUtils.DateLabelRoundTrip | lib/date-utils.ts:9 | for years from 1 on, the `MMM d, yyyy` label reads back as the date |
| DateUtils.ReadLabelParts | lib/date-utils.ts:9 | a month name, a day, a comma and a year read back as the date they spell |
| Decimal.NatToString | lib/currency.ts:2-5 | the decimal text of `n` is digits without a leading zero that read as `n` |
| Decimal.NatToStringInjective | lib/currency.ts:2-5 | distinct numbers have distinct decimal texts |
| Decimal.PadZeros | lib/currency.ts:2-5 | zero padding reaches the width and keeps the value |
| Decimal.GroupedShape | lib/currency.ts:2-5 | grouped digits start with a digit and hold only digits and separators |
| Decimal.GroupedDenotes | lib/currency.ts:2-5 | the digits of the grouped text read back as the number |
| Decimal.RoundHalfUp | lib/currency.ts:10 | `Math.round(x)` lies within half of `x`, a half rounded up |
| Decimal.RoundHalfUpUnique | lib/currency.ts:10 | exactly one integer meets that rounding condition |
| Seqs.FilterMembers | components/charts/expense-pie-chart.tsx:34 | an element is kept iff it is in the input and passes |
| Seqs.FilterAppend | components/charts/expense-pie-chart.tsx:34 | filtering commutes with concatenation, so kept elements stay in input order |
| Seqs.FilterAllPass | components/charts/expense-pie-chart.tsx:34 | every kept element passes |
| Seqs.FilterIdempotent | lib/currency.ts:9 | filtering twice with one predicate is filtering once |
| Currency.Sanitize | lib/currency.ts:9 | sanitised text is no longer than the input and holds only `[0-9.-]` |
| Currency.SanitizeKept | lib/currency.ts:9 | text already made of `[0-9.-]` is unchanged |
| Currency.SanitizeSplits | lib/currency.ts:9 | sanitising keeps exactly the `[0-9.-]` characters, in their original order |
| Currency.SanitizeIdempotent | lib/currency.ts:9 | sanitising twice is sanitising once |
| Currency.CentsExact | lib/currency.ts:10 | a numeral with at most two fraction digits gives exactly its value in cents |
| Currency.LeadingNumeralDefined | lib/currency.ts:9 | `parseFloat` yields a number iff the text starts with a digit after nothing, `-`, `.` or `-.` |
| Currency.ParseCurrencyFails | lib/currency.ts:8-11 | the result is NaN iff the sanitised text does not start with a number |
| Currency.ParseCurrencySanitized | lib/currency.ts:8-11 | parsing sanitised text gives the same result as parsing the original |
| Currency.ParsePlainDecimal | lib/currency.ts:8-11 | `-?w.f` with at most two fraction digits parses to exactly that value in cents |
| Currency.ParsePlainInteger | lib/currency.ts:8-11 | `-?w` parses to exactly `100 * w` cents |
| Currency.FormatUsd | lib/currency.ts:1-6 | USD text is an optional minus, `$`, grouped dollars, a point and exactly two digits |
| Currency.SanitizeFormatted | lib/currency.ts:1-11 | sanitising USD text drops the `$` and the commas and keeps the sign, the digits and the point |
| Currency.FormatUsdRoundTrip | lib/currency.ts:1-11 | parsing what `formatCurrency` prints gives back the same cents, for every integer |
| Currency.ParseUsdDigits | lib/currency.ts:1-11 | the sign, the dollar digits, a point and the two cent digits parse back as the cents |
| Currency.ParseCentsText | lib/currency.ts:8-11 | a sign, whole digits, a point and two digits parse to the cents they spell |
| ExpensePieChart.ToSlices | components/charts/expense-pie-chart.tsx:35-41 | the map gives one slice per kept entry, each built from its entry |
| ExpensePieChart.InsertSorted | components/charts/expense-pie-chart.tsx:42 | inserting into a non-increasing list keeps it non-increasing and adds exactly that slice |
| ExpensePieChart.SortSorted | components/charts/expense-pie-chart.tsx:42 | the sort gives a non-increasing permutation of its input |
| ExpensePieChart.SortStable | components/charts/expense-pie-chart.tsx:42 | slices of equal value keep their input order |
| ExpensePieChart.ChartDataSpec | components/charts/expense-pie-chart.tsx:29-43 | `chartData` is a non-increasing permutation of the slices of the positive entries, as many as those entries, and stable |
| ExpensePieChart.ChartDataMembers | components/charts/expense-pie-chart.tsx:33-41 | a slice is in `chartData` iff it is the slice of an entry with positive total, name, value, colour and emoji copied, and the share of the overall total |
| ExpensePieChart.ChartDataPositive | components/charts/expense-pie-chart.tsx:34 | every slice has a positive value |
| ExpensePieChart.EmptyStateExactly | components/charts/expense-pie-chart.tsx:86-95 | the empty state shows iff no entry has a positive total |
| ExpensePieChart.SortPercentSum | components/charts/expense-pie-chart.tsx:42 | sorting does not change the sum of the percentages |
| ExpensePieChart.SlicesPercentSum | components/charts/expense-pie-chart.tsx:40 | the shares of a positive total add up to the entries' sum as a percentage of it |
| ExpensePieChart.TotalOfNonNegative | components/charts/expense-pie-chart.tsx:31-34 | with no negative totals, dropping the zero entries keeps the total |
| ExpensePieChart.TotalAtLeastEntry | components/charts/expense-pie-chart.tsx:31 | with no negative totals, each entry is at most the total |
| ExpensePieChart.PercentagesSum | components/charts/expense-pie-chart.tsx:31-42 | with a positive total the percentages add up to the positive spending as a percentage of the total (which includes the filtered-out entries); with a non-positive total every percentage is 0; with no negative totals and a non-empty chart they add up to 100 |
| Categories.GetCategoryIcon | lib/categories.ts:101-103 | the icon is the fallback or the one registered under that name |
| Categories.IconTableExact | lib/categories.ts:89-99 | a name is a key iff some icon has that name, and the registered icon carries the name |
| Categories.GetCategoryIconByName | lib/categories.ts:101-103 | looking an icon up by its own name finds it |
| Categories.GetCategoryIconFallback | lib/categories.ts:101-103 | an unknown name gives `MoreHorizontal` |
| Categories.DefaultIconsRegistered | lib/categories.ts:23-99 | every default category's icon name is a key, so its lookup never falls back |
| Categories.DefaultDisplayOrder | lib/categories.ts:23-87 | there are nine defaults, with display order 1..9 in list order, strictly increasing |
| Categories.DefaultNamesDistinct | lib/categories.ts:23-87 | the default names are pairwise distinct |
| Categories.DefaultColorsAreHex | lib/categories.ts:23-87 | every default colour is a `#rrggbb` hex colour |

## Left out

**I/O and runtime.**
- Supabase queries and the exception paths (`try`/`catch`) are not modelled. They are network I/O; each fetch is an input value instead.
- Supabase filters by user, category and date are not modelled. The fetched rows are taken as given.
- Toast delivery, and console output on errors, are not modelled. The toast is returned as a value, and nothing is logged.
- `localStorage` is not modelled. The stored code is the `savedCode` field, given to the constructor.
- React hooks, context plumbing, rendering, the tooltip and the legend are not modelled. They are UI only.
- The error thrown by `useCurrency` outside a provider is not modelled. It is UI only.

**Numbers.**
- Floating point is not modelled: percentages and conversions are exact rationals. A float product such as `1.005 * 100` can round differently in JavaScript.
- JavaScript's negative zero is not modelled: `Math.round` of a small negative value prints as `-0`.
- A currency rate is a positive integer, as all three table rates (1, 24000, 36) are. Fractional and zero rates are not modelled.
- CurrencyContext.ThbRoundTrip: states the round trip only to within one cent, because the baht rate of 36 cannot carry every cent.
- BudgetNotifications.FixedOne: models `toFixed(1)` for exact values only. `toFixed` switches to exponent form from 1e21 on, which is not modelled.

**Dates.**
- Time zones, daylight saving and the UTC shift of `toISOString().split('T')[0]` are not modelled. Dates are plain local values, so the date filters move nothing.
- `formatDate`'s parsing of string input is not modelled, nor an invalid date. The model takes a valid date-time.
- `formatDateShort` is not modelled. It is outside the modelled core.
- DateUtils.FormatDateCases: the read-back of the label is stated for years from 1 on only, where `yyyy` is the plain year.

**Formatting.**
- Locale grouping rules beyond a fixed separator per locale are not modelled: `,` for en-US and th-TH, `.` for vi-VN, every three digits.
- `formatCompactCurrency` is not modelled. Compact notation is library behaviour.

**Categories.**
- Keys inherited from `Object.prototype` in the `CATEGORY_ICONS` lookup are not modelled. The table is a plain map.
