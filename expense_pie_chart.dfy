/**
 * components/charts/expense-pie-chart.tsx: the `chartData` computation
 * behind the spending-by-category pie chart (total, filter, map, sort) and
 * the choice of the empty state.
 */
module ExpensePieChart {
  import opened Seqs

  /** One element of the `data` prop: a category's spending in integer cents. */
  datatype CategoryTotal = CategoryTotal(categoryName: string, categoryEmoji: string, total: int, color: string)

  /** One element of `chartData` (`ExpenseData`). */
  datatype Slice = Slice(name: string, value: int, color: string, emoji: string, percentage: real)

  /** `data.reduce((sum, item) => sum + item.total, 0)`. */
  function Total(data: seq<CategoryTotal>): int
  {
    if data == [] then 0 else data[0].total + Total(data[1..])
  }

  /** The filter `item => item.total > 0`. */
  predicate HasSpending(item: CategoryTotal)
  {
    item.total > 0
  }

  /** The `map` callback: the fields are copied and the share of `total` is a percentage (0 when `total` is not positive). */
  function ToSlice(item: CategoryTotal, total: int): Slice
  {
    Slice(item.categoryName, item.total, item.color, item.categoryEmoji,
          if total > 0 then item.total as real / total as real * 100.0 else 0.0)
  }

  function ToSlices(items: seq<CategoryTotal>, total: int): (r: seq<Slice>)
    ensures |r| == |items|
    ensures forall i :: 0 <= i < |items| ==> r[i] == ToSlice(items[i], total)
  {
    if items == [] then [] else [ToSlice(items[0], total)] + ToSlices(items[1..], total)
  }

  /** Non-increasing by value: the order `sort((a, b) => b.value - a.value)` produces. */
  predicate SortedByValueDesc(s: seq<Slice>)
  {
    forall i, j :: 0 <= i < j < |s| ==> s[i].value >= s[j].value
  }

  /** Puts `x` in front of the first element whose value is at most its own. */
  function InsertByValue(x: Slice, s: seq<Slice>): seq<Slice>
  {
    if s == [] then [x]
    else if s[0].value <= x.value then [x] + s
    else [s[0]] + InsertByValue(x, s[1..])
  }

  /** A stable sort by descending value, as `Array.prototype.sort` with that comparator. */
  function SortByValueDesc(s: seq<Slice>): seq<Slice>
  {
    if s == [] then [] else InsertByValue(s[0], SortByValueDesc(s[1..]))
  }

  /** `chartData`. */
  function ChartData(data: seq<CategoryTotal>): seq<Slice>
  {
    SortByValueDesc(ToSlices(Filter(data, HasSpending), Total(data)))
  }

  /** The chart shows "No expenses this month" instead of a pie when `chartData` is empty. */
  predicate ShowsEmptyState(data: seq<CategoryTotal>)
  {
    |ChartData(data)| == 0
  }

  /** No slice of `s` is worth more than `v`. */
  predicate AllAtMost(s: seq<Slice>, v: int)
  {
    forall i :: 0 <= i < |s| ==> s[i].value <= v
  }

  lemma {:induction false} InsertSorted(x: Slice, s: seq<Slice>)
    requires SortedByValueDesc(s)
    ensures SortedByValueDesc(InsertByValue(x, s))
    ensures multiset(InsertByValue(x, s)) == multiset(s) + multiset{x}
  {
    InsertMultiset(x, s);
    if s == [] {
    } else if s[0].value <= x.value {
      assert AllAtMost(s, x.value) by {
        forall i | 0 <= i < |s| ensures s[i].value <= x.value {
          if i > 0 {
            assert s[0].value >= s[i].value;
          }
        }
      }
      ConsSorted(x, s);
    } else {
      var t := InsertByValue(x, s[1..]);
      InsertSorted(x, s[1..]);
      TailSorted(s);
      InsertBound(x, s[1..], s[0].value);
      ConsSorted(s[0], t);
    }
  }

  lemma {:induction false} InsertMultiset(x: Slice, s: seq<Slice>)
    ensures multiset(InsertByValue(x, s)) == multiset(s) + multiset{x}
  {
    if s != [] && s[0].value > x.value {
      InsertMultiset(x, s[1..]);
      assert s == [s[0]] + s[1..];
    }
  }

  /** The tail of a sorted sequence is sorted and bounded by the head. */
  lemma {:induction false} TailSorted(s: seq<Slice>)
    requires SortedByValueDesc(s) && s != []
    ensures SortedByValueDesc(s[1..]) && AllAtMost(s[1..], s[0].value)
  {
    var t := s[1..];
    forall i, j | 0 <= i < j < |t| ensures t[i].value >= t[j].value {
      assert t[i] == s[i + 1] && t[j] == s[j + 1];
    }
    forall i | 0 <= i < |t| ensures t[i].value <= s[0].value {
      assert t[i] == s[i + 1];
    }
  }

  /** Inserting a slice worth at most `v` keeps every slice at most `v`. */
  lemma {:induction false} InsertBound(x: Slice, s: seq<Slice>, v: int)
    requires AllAtMost(s, v) && x.value <= v
    ensures AllAtMost(InsertByValue(x, s), v)
  {
    if s != [] && s[0].value > x.value {
      assert AllAtMost(s[1..], v) by {
        forall i | 0 <= i < |s[1..]| ensures s[1..][i].value <= v {
          assert s[1..][i] == s[i + 1];
        }
      }
      InsertBound(x, s[1..], v);
      var t := InsertByValue(x, s[1..]);
      forall i | 0 <= i < |[s[0]] + t| ensures ([s[0]] + t)[i].value <= v {
        if i > 0 {
          assert ([s[0]] + t)[i] == t[i - 1];
        }
      }
    } else if s != [] {
      forall i | 0 <= i < |[x] + s| ensures ([x] + s)[i].value <= v {
        if i > 0 {
          assert ([x] + s)[i] == s[i - 1];
        }
      }
    }
  }

  /** A head worth at least everything in a sorted tail gives a sorted sequence. */
  lemma {:induction false} ConsSorted(y: Slice, t: seq<Slice>)
    requires SortedByValueDesc(t) && AllAtMost(t, y.value)
    ensures SortedByValueDesc([y] + t)
  {
    var s := [y] + t;
    forall i, j | 0 <= i < j < |s| ensures s[i].value >= s[j].value {
      assert s[j] == t[j - 1];
      if i > 0 {
        assert s[i] == t[i - 1];
      }
    }
  }

  lemma {:induction false} SortSorted(s: seq<Slice>)
    ensures SortedByValueDesc(SortByValueDesc(s))
    ensures multiset(SortByValueDesc(s)) == multiset(s)
  {
    if s != [] {
      SortSorted(s[1..]);
      InsertSorted(s[0], SortByValueDesc(s[1..]));
      assert s == [s[0]] + s[1..];
    }
  }

  /** Selects the slices with value `v`. */
  function WithValue(v: int): Slice -> bool
  {
    (x: Slice) => x.value == v
  }

  /** Inserting `x` adds it to the slices of value `v` in front of them, if it has that value. */
  lemma {:induction false} InsertStable(x: Slice, s: seq<Slice>, v: int)
    ensures Filter(InsertByValue(x, s), WithValue(v)) == Filter([x], WithValue(v)) + Filter(s, WithValue(v))
  {
    var p := WithValue(v);
    if s == [] {
      assert Filter([x], p) + [] == Filter([x], p);
    } else if s[0].value <= x.value {
      FilterAppend([x], s, p);
    } else {
      InsertStable(x, s[1..], v);
      var t := InsertByValue(x, s[1..]);
      assert InsertByValue(x, s) == [s[0]] + t;
      FilterAppend([s[0]], t, p);
      assert s == [s[0]] + s[1..];
      FilterAppend([s[0]], s[1..], p);
      StableStep(Filter([x], p), Filter([s[0]], p), Filter(s[1..], p), x.value == v);
    }
  }

  /** The rearrangement behind `InsertStable`: a head that is filtered out lets `x` pass in front of it. */
  lemma {:induction false} StableStep(fx: seq<Slice>, fh: seq<Slice>, ft: seq<Slice>, xKept: bool)
    requires xKept ==> fh == []
    requires !xKept ==> fx == []
    ensures fh + (fx + ft) == fx + (fh + ft)
  {
    if xKept {
      assert fh + (fx + ft) == fx + ft;
    } else {
      assert fx + ft == ft;
    }
  }

  /** The sort is stable: slices of equal value keep their input order. */
  lemma {:induction false} SortStable(s: seq<Slice>, v: int)
    ensures Filter(SortByValueDesc(s), WithValue(v)) == Filter(s, WithValue(v))
  {
    if s != [] {
      SortStable(s[1..], v);
      InsertStable(s[0], SortByValueDesc(s[1..]), v);
      assert s == [s[0]] + s[1..];
      FilterAppend([s[0]], s[1..], WithValue(v));
    }
  }

  /**
   * `chartData` holds exactly the slices of the entries with positive
   * spending, each copied from its entry, in non-increasing order of value;
   * entries of equal value keep their input order.
   */
  lemma {:induction false} ChartDataSpec(data: seq<CategoryTotal>, v: int)
    ensures var chart := ChartData(data);
      var slices := ToSlices(Filter(data, HasSpending), Total(data));
      SortedByValueDesc(chart)
      && multiset(chart) == multiset(slices)
      && |chart| == |Filter(data, HasSpending)|
      && Filter(chart, WithValue(v)) == Filter(slices, WithValue(v))
  {
    var slices := ToSlices(Filter(data, HasSpending), Total(data));
    SortSorted(slices);
    SortStable(slices, v);
    assert |multiset(ChartData(data))| == |multiset(slices)|;
  }

  /** A slice is in the chart exactly when it is the slice of an entry with positive spending. */
  lemma {:induction false} ChartDataMembers(data: seq<CategoryTotal>, slice: Slice)
    ensures slice in ChartData(data) <==>
      exists i :: 0 <= i < |data| && data[i].total > 0 && slice == ToSlice(data[i], Total(data))
  {
    var kept := Filter(data, HasSpending);
    var slices := ToSlices(kept, Total(data));
    SortSorted(slices);
    assert slice in ChartData(data) <==> slice in slices by {
      assert slice in ChartData(data) <==> slice in multiset(ChartData(data));
    }
    if slice in slices {
      var k :| 0 <= k < |slices| && slices[k] == slice;
      FilterMembers(data, HasSpending, kept[k]);
      var i :| 0 <= i < |data| && data[i] == kept[k];
      assert data[i].total > 0 && slice == ToSlice(data[i], Total(data));
    }
    if exists i :: 0 <= i < |data| && data[i].total > 0 && slice == ToSlice(data[i], Total(data)) {
      var i :| 0 <= i < |data| && data[i].total > 0 && slice == ToSlice(data[i], Total(data));
      FilterMembers(data, HasSpending, data[i]);
      var k :| 0 <= k < |kept| && kept[k] == data[i];
      assert slices[k] == slice;
    }
  }

  /** Every slice has a positive value. */
  lemma {:induction false} ChartDataPositive(data: seq<CategoryTotal>)
    ensures forall slice :: slice in ChartData(data) ==> slice.value > 0
  {
    forall slice | slice in ChartData(data) ensures slice.value > 0 {
      ChartDataMembers(data, slice);
    }
  }

  /** The empty state is shown exactly when no entry has positive spending. */
  lemma {:induction false} EmptyStateExactly(data: seq<CategoryTotal>)
    ensures ShowsEmptyState(data) <==> forall i :: 0 <= i < |data| ==> data[i].total <= 0
  {
    ChartDataSpec(data, 0);
    if exists i :: 0 <= i < |data| && data[i].total > 0 {
      var i :| 0 <= i < |data| && data[i].total > 0;
      FilterMembers(data, HasSpending, data[i]);
    }
    if |Filter(data, HasSpending)| > 0 {
      var x := Filter(data, HasSpending)[0];
      FilterMembers(data, HasSpending, x);
    }
  }

  function PercentSum(s: seq<Slice>): real
  {
    if s == [] then 0.0 else s[0].percentage + PercentSum(s[1..])
  }

  lemma {:induction false} InsertPercentSum(x: Slice, s: seq<Slice>)
    ensures PercentSum(InsertByValue(x, s)) == x.percentage + PercentSum(s)
  {
    if s != [] && s[0].value > x.value {
      InsertPercentSum(x, s[1..]);
      assert ([s[0]] + InsertByValue(x, s[1..]))[1..] == InsertByValue(x, s[1..]);
    } else if s != [] {
      assert ([x] + s)[1..] == s;
    }
  }

  lemma {:induction false} SortPercentSum(s: seq<Slice>)
    ensures PercentSum(SortByValueDesc(s)) == PercentSum(s)
  {
    if s != [] {
      SortPercentSum(s[1..]);
      InsertPercentSum(s[0], SortByValueDesc(s[1..]));
    }
  }

  lemma {:induction false} ShareAdd(a: int, b: int, t: int)
    requires t > 0
    ensures a as real / t as real * 100.0 + b as real / t as real * 100.0 == (a + b) as real / t as real * 100.0
  {
    var x := a as real / t as real;
    var y := b as real / t as real;
    assert x * t as real == a as real;
    assert y * t as real == b as real;
    assert (x + y) * t as real == (a + b) as real;
  }

  lemma {:induction false} SlicesPercentSum(items: seq<CategoryTotal>, t: int)
    requires t > 0
    ensures PercentSum(ToSlices(items, t)) == Total(items) as real / t as real * 100.0
  {
    if items != [] {
      SlicesPercentSum(items[1..], t);
      assert ToSlices(items, t)[1..] == ToSlices(items[1..], t);
      ShareAdd(items[0].total, Total(items[1..]), t);
    }
  }

  /** No entry has a negative total. */
  predicate NoNegative(data: seq<CategoryTotal>)
  {
    forall i :: 0 <= i < |data| ==> data[i].total >= 0
  }

  lemma {:induction false} NoNegativeTail(data: seq<CategoryTotal>)
    requires NoNegative(data) && data != []
    ensures NoNegative(data[1..])
  {
    forall i | 0 <= i < |data[1..]| ensures data[1..][i].total >= 0 {
      assert data[1..][i] == data[i + 1];
    }
  }

  /** With no negative totals, dropping the zero entries does not change the total. */
  lemma {:induction false} TotalOfNonNegative(data: seq<CategoryTotal>)
    requires NoNegative(data)
    ensures Total(Filter(data, HasSpending)) == Total(data)
  {
    if data != [] {
      var rest := data[1..];
      NoNegativeTail(data);
      TotalOfNonNegative(rest);
      var kept := Filter(rest, HasSpending);
      if data[0].total > 0 {
        assert Filter(data, HasSpending) == [data[0]] + kept;
        TotalAppendOne(data[0], kept);
      } else {
        assert data[0].total == 0;
        assert Filter(data, HasSpending) == [] + kept;
        assert [] + kept == kept;
      }
    }
  }

  /** With no negative totals, each entry is at most the total. */
  lemma {:induction false} TotalAtLeastEntry(data: seq<CategoryTotal>, i: int)
    requires forall j :: 0 <= j < |data| ==> data[j].total >= 0
    requires 0 <= i < |data|
    ensures data[i].total <= Total(data)
  {
    var rest := data[1..];
    assert forall j :: 0 <= j < |rest| ==> rest[j] == data[j + 1];
    if i == 0 {
      TotalNonNegative(rest);
    } else {
      TotalAtLeastEntry(rest, i - 1);
    }
  }

  lemma {:induction false} TotalNonNegative(data: seq<CategoryTotal>)
    requires forall i :: 0 <= i < |data| ==> data[i].total >= 0
    ensures Total(data) >= 0
  {
    if data != [] {
      assert forall i :: 0 <= i < |data[1..]| ==> data[1..][i] == data[i + 1];
      TotalNonNegative(data[1..]);
    }
  }

  lemma {:induction false} TotalAppendOne(x: CategoryTotal, s: seq<CategoryTotal>)
    ensures Total([x] + s) == x.total + Total(s)
  {
    assert ([x] + s)[1..] == s;
  }

  /**
   * The shares add up to the positive spending as a percentage of the net
   * total; with no negative totals and something to show they add up to 100.
   */
  lemma {:induction false} PercentagesSum(data: seq<CategoryTotal>)
    ensures Total(data) > 0 ==>
      PercentSum(ChartData(data)) == Total(Filter(data, HasSpending)) as real / Total(data) as real * 100.0
    ensures Total(data) <= 0 ==> forall slice :: slice in ChartData(data) ==> slice.percentage == 0.0
    ensures (forall i :: 0 <= i < |data| ==> data[i].total >= 0) && !ShowsEmptyState(data) ==>
      PercentSum(ChartData(data)) == 100.0
  {
    if Total(data) > 0 {
      PercentagesShare(data);
    } else {
      PercentagesZero(data);
    }
    if (forall i :: 0 <= i < |data| ==> data[i].total >= 0) && !ShowsEmptyState(data) {
      PercentagesHundred(data);
    }
  }

  lemma {:induction false} PercentagesShare(data: seq<CategoryTotal>)
    requires Total(data) > 0
    ensures PercentSum(ChartData(data)) == Total(Filter(data, HasSpending)) as real / Total(data) as real * 100.0
  {
    var kept := Filter(data, HasSpending);
    SortPercentSum(ToSlices(kept, Total(data)));
    SlicesPercentSum(kept, Total(data));
  }

  lemma {:induction false} PercentagesZero(data: seq<CategoryTotal>)
    requires Total(data) <= 0
    ensures forall slice :: slice in ChartData(data) ==> slice.percentage == 0.0
  {
    forall slice | slice in ChartData(data) ensures slice.percentage == 0.0 {
      ChartDataMembers(data, slice);
    }
  }

  lemma {:induction false} PercentagesHundred(data: seq<CategoryTotal>)
    requires forall i :: 0 <= i < |data| ==> data[i].total >= 0
    requires !ShowsEmptyState(data)
    ensures PercentSum(ChartData(data)) == 100.0
  {
    EmptyStateExactly(data);
    var i :| 0 <= i < |data| && data[i].total > 0;
    TotalAtLeastEntry(data, i);
    TotalOfNonNegative(data);
    PercentagesShare(data);
    WholeShare(Total(data));
  }

  lemma {:induction false} WholeShare(t: int)
    requires t > 0
    ensures t as real / t as real * 100.0 == 100.0
  {
  }
}
