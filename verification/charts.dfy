/** The overview charts (src/components/CrimeOverview/CategoryChart.tsx and
    OutcomeChart.tsx): a breakdown's entries stably sorted by count, largest
    first; the category pie keeps the first ten and colours slice `i` with
    palette entry `i mod 10`. Drawing and percentage labels are not modelled. */
module Charts {
  import opened Types
  import opened Seqs
  import opened Sorting
  import CrimeApi

  /** The pie's palette. */
  const Colours: seq<string> := [
    "#3b82f6", "#ef4444", "#10b981", "#f59e0b", "#8b5cf6",
    "#06b6d4", "#84cc16", "#f97316", "#ec4899", "#6366f1"]

  const CategoryLimit := 10

  /** The comparator `b.value - a.value`: `a` may stay before `b` unless
      `b` has the larger count. */
  function ByCountDesc(): (leq: (Entry, Entry) -> bool)
  {
    (a: Entry, b: Entry) => (b.value as int) - (a.value as int) <= 0
  }

  lemma ByCountDescIsTotalPreorder()
    ensures TotalPreorder(ByCountDesc())
  {
  }

  /** All entries of `data`, largest count first. */
  function Ranked(data: Breakdown): (r: Breakdown)
    ensures multiset(r) == multiset(data)
  {
    Sort(data, ByCountDesc())
  }

  /** `OutcomeChart`'s `chartData`: every entry, largest count first. */
  function OutcomeChartData(data: Breakdown): (r: Breakdown)
    ensures multiset(r) == multiset(data)
    ensures |r| == |data|
  {
    Ranked(data)
  }

  /** `CategoryChart`'s `chartData`: the ten entries with the largest counts,
      largest first. */
  function CategoryChartData(data: Breakdown): (r: Breakdown)
    ensures |r| == Min(CategoryLimit, |data|)
    ensures forall e :: e in r ==> e in data
  {
    var ranked := Ranked(data);
    var r := Take(ranked, CategoryLimit);
    assert forall e :: e in r ==> e in multiset(ranked);
    r
  }

  /** Counts never increase along the ranking. */
  lemma RankedNonIncreasing(data: Breakdown)
    ensures forall i, j :: 0 <= i < j < |Ranked(data)| ==> Ranked(data)[i].value >= Ranked(data)[j].value
  {
    ByCountDescIsTotalPreorder();
    SortSorted(data, ByCountDesc());
    var r := Ranked(data);
    forall i, j | 0 <= i < j < |r|
      ensures r[i].value >= r[j].value
    {
      assert ByCountDesc()(r[i], r[j]);
    }
  }

  /** The entries with count `v`, in their order in `s`. */
  function WithCount(s: Breakdown, v: nat): Breakdown {
    Filter(s, (e: Entry) => e.value == v)
  }

  lemma {:induction false} TiesAreEqualCounts(s: Breakdown, y: Entry)
    ensures Ties(s, y, ByCountDesc()) == WithCount(s, y.value)
  {
    if |s| > 0 {
      TiesAreEqualCounts(s[1..], y);
    }
  }

  /** Entries with equal counts keep the order of the breakdown, that is,
      the order in which their names were first seen. */
  lemma RankedStable(data: Breakdown, v: nat)
    ensures WithCount(Ranked(data), v) == WithCount(data, v)
  {
    if exists e :: e in data && e.value == v {
      var y :| y in data && y.value == v;
      RankedStableAt(data, y);
    } else {
      var r := Ranked(data);
      assert forall e :: e in r ==> e in multiset(data);
      NoneWithCount(r, v);
      NoneWithCount(data, v);
    }
  }

  lemma RankedStableAt(data: Breakdown, y: Entry)
    ensures WithCount(Ranked(data), y.value) == WithCount(data, y.value)
  {
    ByCountDescIsTotalPreorder();
    SortStable(data, y, ByCountDesc());
    TiesAreEqualCounts(Ranked(data), y);
    TiesAreEqualCounts(data, y);
  }

  lemma NoneWithCount(s: Breakdown, v: nat)
    requires forall e :: e in s ==> e.value != v
    ensures WithCount(s, v) == []
  {
  }

  /** The outcome chart is ordered largest first, and every entry shown is
      an entry of the breakdown with its own count. */
  lemma OutcomeChartShowsEveryEntry(data: Breakdown)
    requires Distinct(CrimeApi.Names(data))
    ensures var r := OutcomeChartData(data);
      && (forall i, j :: 0 <= i < j < |r| ==> r[i].value >= r[j].value)
      && (forall e :: e in r <==> e in data)
      && (forall i :: 0 <= i < |r| ==> r[i].value == CrimeApi.Lookup(data, r[i].name))
      && Distinct(CrimeApi.Names(r))
  {
    RankedNonIncreasing(data);
    var r := OutcomeChartData(data);
    assert forall e :: e in r <==> e in multiset(data);
    forall i | 0 <= i < |r|
      ensures r[i].value == CrimeApi.Lookup(data, r[i].name)
    {
      assert r[i] in multiset(r);
      LookupOfMember(data, r[i]);
    }
    RankedNamesDistinct(data);
  }

  lemma RankedNamesDistinct(data: Breakdown)
    requires Distinct(CrimeApi.Names(data))
    ensures Distinct(CrimeApi.Names(Ranked(data)))
  {
    var names := CrimeApi.Names(data);
    assert forall i, j :: 0 <= i < j < |data| ==> data[i].name != data[j].name by {
      forall i, j | 0 <= i < j < |data|
        ensures data[i].name != data[j].name
      {
        assert names[i] != names[j];
      }
    }
    SortKeepsKeysDistinct(data, ByCountDesc(), (e: Entry) => e.name);
    var r := Ranked(data);
    var rn := CrimeApi.Names(r);
    forall i, j | 0 <= i < j < |rn|
      ensures rn[i] != rn[j]
    {
      assert rn[i] == r[i].name && rn[j] == r[j].name;
    }
  }

  /** In a breakdown with distinct names, an entry's count is what looking
      up its name gives. */
  lemma {:induction false} LookupOfMember(b: Breakdown, e: Entry)
    requires Distinct(CrimeApi.Names(b)) && e in b
    ensures CrimeApi.Lookup(b, e.name) == e.value
  {
    if b[0] != e {
      assert b[0].name != e.name by {
        var k :| 0 <= k < |b| && b[k] == e;
        assert CrimeApi.Names(b)[0] != CrimeApi.Names(b)[k];
      }
      assert Distinct(CrimeApi.Names(b[1..])) by {
        var n := CrimeApi.Names(b);
        var m := CrimeApi.Names(b[1..]);
        forall i, j | 0 <= i < j < |m|
          ensures m[i] != m[j]
        {
          assert m[i] == n[i + 1] && m[j] == n[j + 1];
        }
      }
      LookupOfMember(b[1..], e);
    }
  }

  /** The pie shows the ten largest counts: in order, largest first, and no
      entry left out has a larger count than any entry shown. */
  lemma CategoryChartIsTopTen(data: Breakdown)
    ensures var r := CategoryChartData(data);
      && (forall i, j :: 0 <= i < j < |r| ==> r[i].value >= r[j].value)
      && (forall i, d :: 0 <= i < |r| && d in Ranked(data)[|r|..] ==> d.value <= r[i].value)
      && multiset(r) + multiset(Ranked(data)[|r|..]) == multiset(data)
  {
    var ranked := Ranked(data);
    var r := CategoryChartData(data);
    RankedNonIncreasing(data);
    PrefixDominates(ranked, |r|);
    assert ranked == r + ranked[|r|..];
  }

  /** In a list whose counts never increase, no entry after position `n`
      has a larger count than an entry before it. */
  lemma PrefixDominates(s: Breakdown, n: nat)
    requires n <= |s|
    requires forall i, j :: 0 <= i < j < |s| ==> s[i].value >= s[j].value
    ensures forall i, d :: 0 <= i < n && d in s[n..] ==> d.value <= s[i].value
  {
    forall i, d | 0 <= i < n && d in s[n..]
      ensures d.value <= s[i].value
    {
      var k :| n <= k < |s| && s[k] == d;
    }
  }

  /** Slice `i` of the pie is drawn in palette entry `i mod 10`. */
  function SliceColours(chart: Breakdown): (r: seq<string>)
    ensures |r| == |chart|
    ensures forall i :: 0 <= i < |r| ==> r[i] == Colours[i % |Colours|]
  {
    seq(|chart|, i requires 0 <= i < |chart| => Colours[i % |Colours|])
  }

  /** The pie never holds more slices than the palette has colours, so no
      two of its slices share a colour. */
  lemma CategoryColoursDistinct(data: Breakdown)
    ensures Distinct(SliceColours(CategoryChartData(data)))
  {
    ShortChartColoursDistinct(CategoryChartData(data));
  }

  lemma ShortChartColoursDistinct(chart: Breakdown)
    requires |chart| <= |Colours|
    ensures Distinct(SliceColours(chart))
  {
    var c := SliceColours(chart);
    PaletteDistinct();
    forall i, j | 0 <= i < j < |c|
      ensures c[i] != c[j]
    {
      assert i % |Colours| == i && j % |Colours| == j;
    }
  }

  lemma PaletteDistinct()
    ensures Distinct(Colours)
  {
  }

  /** What a chart panel shows. */
  datatype ChartView = EmptyState | Chart(entries: Breakdown)

  function CategoryView(data: Breakdown): (v: ChartView)
    ensures v.EmptyState? <==> |data| == 0
    ensures v.Chart? ==> v.entries == CategoryChartData(data)
  {
    var entries := CategoryChartData(data);
    if |entries| == 0 then EmptyState else Chart(entries)
  }

  function OutcomeView(data: Breakdown): (v: ChartView)
    ensures v.EmptyState? <==> |data| == 0
    ensures v.Chart? ==> v.entries == OutcomeChartData(data)
  {
    var entries := OutcomeChartData(data);
    if |entries| == 0 then EmptyState else Chart(entries)
  }

  /** For the statistics of a result set, each outcome bar is one outcome
      label with the number of crimes carrying it, and the bars account for
      every crime. */
  lemma OutcomeChartOfStats(crimes: seq<CrimeTableData>)
    ensures var r := OutcomeChartData(CrimeApi.CalculateStats(crimes).outcomeBreakdown);
      && (forall i :: 0 <= i < |r| ==> r[i].value == Count(CrimeApi.Outcomes(crimes), r[i].name))
      && |r| == |Dedup(CrimeApi.Outcomes(crimes))|
  {
    var b := CrimeApi.CalculateStats(crimes).outcomeBreakdown;
    assert |CrimeApi.Names(b)| == |b|;
    OutcomeChartShowsEveryEntry(b);
  }

  /** For the statistics of a result set, each slice is one category with
      the number of crimes in it, and no two slices name the same category. */
  lemma CategoryChartOfStats(crimes: seq<CrimeTableData>)
    ensures var r := CategoryChartData(CrimeApi.CalculateStats(crimes).categoryBreakdown);
      && (forall i :: 0 <= i < |r| ==> r[i].value == Count(CrimeApi.Categories(crimes), r[i].name))
      && |r| == Min(CategoryLimit, |Dedup(CrimeApi.Categories(crimes))|)
      && Distinct(CrimeApi.Names(r))
  {
    var b := CrimeApi.CalculateStats(crimes).categoryBreakdown;
    assert |CrimeApi.Names(b)| == |b|;
    var r := CategoryChartData(b);
    forall i | 0 <= i < |r|
      ensures r[i].value == Count(CrimeApi.Categories(crimes), r[i].name)
    {
      assert r[i] in b;
      LookupOfMember(b, r[i]);
    }
    CategoryNamesDistinct(b);
  }

  /** No two slices of the pie name the same category. */
  lemma CategoryNamesDistinct(b: Breakdown)
    requires Distinct(CrimeApi.Names(b))
    ensures Distinct(CrimeApi.Names(CategoryChartData(b)))
  {
    RankedNamesDistinct(b);
    var rn := CrimeApi.Names(Ranked(b));
    var n := CrimeApi.Names(CategoryChartData(b));
    forall i, j | 0 <= i < j < |n|
      ensures n[i] != n[j]
    {
      assert n[i] == rn[i] && n[j] == rn[j];
    }
  }
}
