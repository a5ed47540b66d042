/** The crime table (src/components/CrimeTable/CrimeTable.tsx): its filter
    and sort state, the comparator and the sorted view of the filtered
    rows, and the option lists of the three filter menus. */
module CrimeTable {
  import opened Wrappers
  import opened Types
  import opened Text
  import opened Seqs
  import opened Sorting
  import CrimeApi

  /** The columns whose header sorts the table. */
  datatype SortField = PostcodeColumn | MonthColumn | StreetColumn | CategoryColumn

  datatype Direction = Asc | Desc

  /** The three filter menus. */
  datatype FilterKind = PostcodeFilter | CategoryFilter | OutcomeFilter

  datatype Table = Table(filters: CrimeFilter, sortField: SortField, direction: Direction)

  /** A fresh table: no filter, newest month first. */
  const InitialTable := Table(CrimeApi.NoFilter, MonthColumn, Desc)

  /** The row's value in a sortable column; all four are always strings. */
  function FieldValue(row: CrimeTableData, field: SortField): string {
    match field
    case PostcodeColumn => row.postcode
    case MonthColumn => row.crime.month
    case StreetColumn => row.streetName
    case CategoryColumn => row.crime.category
  }

  /** The comparator on two column values, either of which may be missing:
      a missing value ties with everything; otherwise JavaScript's `<` and
      `>` on strings decide, reversed for a descending sort. */
  function Compare(a: Option<string>, b: Option<string>, dir: Direction): (r: int)
    ensures -1 <= r <= 1
    ensures a.None? || b.None? ==> r == 0
    ensures a.Some? && b.Some? ==> (r == 0 <==> a.value == b.value)
    ensures a.Some? && b.Some? && dir.Asc? ==> (r < 0 <==> LexLess(a.value, b.value))
    ensures a.Some? && b.Some? && dir.Desc? ==> (r < 0 <==> LexLess(b.value, a.value))
  {
    if a.None? || b.None? then 0
    else
      LexLessTotal(a.value, b.value);
      LexLessAsymmetric(a.value, b.value);
      LexLessIrreflexive(a.value);
      if LexLess(a.value, b.value) then (if dir.Asc? then -1 else 1)
      else if LexLess(b.value, a.value) then (if dir.Asc? then 1 else -1)
      else 0
  }

  /** Swapping the arguments negates the comparison. */
  lemma CompareAntisymmetric(a: Option<string>, b: Option<string>, dir: Direction)
    ensures Compare(a, b, dir) == -Compare(b, a, dir)
  {
    if a.Some? && b.Some? {
      LexLessTotal(a.value, b.value);
      LexLessAsymmetric(a.value, b.value);
    }
  }

  /** Whether the sort may keep `a` before `b`: the comparator does not
      put `b` strictly first. */
  function Before(field: SortField, dir: Direction): (leq: (CrimeTableData, CrimeTableData) -> bool)
  {
    (a: CrimeTableData, b: CrimeTableData) => Compare(Some(FieldValue(a, field)), Some(FieldValue(b, field)), dir) <= 0
  }

  /** `x` may stay in front of `y`: equal, or strictly first in the direction. */
  predicate InOrder(x: string, y: string, dir: Direction) {
    x == y || (if dir.Asc? then LexLess(x, y) else LexLess(y, x))
  }

  lemma BeforeMeaning(a: CrimeTableData, b: CrimeTableData, field: SortField, dir: Direction)
    ensures Before(field, dir)(a, b) <==> InOrder(FieldValue(a, field), FieldValue(b, field), dir)
  {
  }

  /** The comparator orders rows consistently, so the engine's stable sort
      has one possible result. */
  lemma BeforeIsTotalPreorder(field: SortField, dir: Direction)
    ensures TotalPreorder(Before(field, dir))
  {
    var leq := Before(field, dir);
    forall a, b
      ensures leq(a, b) || leq(b, a)
    {
      CompareAntisymmetric(Some(FieldValue(a, field)), Some(FieldValue(b, field)), dir);
    }
    forall a, b, c | leq(a, b) && leq(b, c)
      ensures leq(a, c)
    {
      var x, y, z := FieldValue(a, field), FieldValue(b, field), FieldValue(c, field);
      BeforeMeaning(a, b, field, dir);
      BeforeMeaning(b, c, field, dir);
      BeforeMeaning(a, c, field, dir);
      if x != y && y != z {
        if dir.Asc? {
          LexLessTransitive(x, y, z);
        } else {
          LexLessTransitive(z, y, x);
        }
      }
    }
  }

  /** `sortedCrimes`: the rows the filters keep, stably sorted by the
      chosen column in the chosen direction. */
  function SortedCrimes(crimes: seq<CrimeTableData>, t: Table): (r: seq<CrimeTableData>)
    ensures multiset(r) == multiset(CrimeApi.FilterCrimes(crimes, t.filters))
    ensures forall row :: row in r <==> row in crimes && CrimeApi.Matches(row, t.filters)
  {
    var filtered := CrimeApi.FilterCrimes(crimes, t.filters);
    var r := Sort(filtered, Before(t.sortField, t.direction));
    assert forall row :: row in r <==> row in multiset(filtered);
    r
  }

  /** Ascending sorts give a non-decreasing column, descending sorts a
      non-increasing one. */
  lemma SortedCrimesOrdered(crimes: seq<CrimeTableData>, t: Table)
    ensures var r := SortedCrimes(crimes, t);
      forall i, j :: 0 <= i < j < |r| ==> InOrder(FieldValue(r[i], t.sortField), FieldValue(r[j], t.sortField), t.direction)
  {
    var leq := Before(t.sortField, t.direction);
    BeforeIsTotalPreorder(t.sortField, t.direction);
    SortSorted(CrimeApi.FilterCrimes(crimes, t.filters), leq);
    var r := SortedCrimes(crimes, t);
    assert SortedBy(leq, r);
    forall i, j | 0 <= i < j < |r|
      ensures InOrder(FieldValue(r[i], t.sortField), FieldValue(r[j], t.sortField), t.direction)
    {
      assert leq(r[i], r[j]);
      BeforeMeaning(r[i], r[j], t.sortField, t.direction);
    }
  }

  /** The rows whose column value is `v`, in their order in `rows`. */
  function WithValue(rows: seq<CrimeTableData>, field: SortField, v: string): seq<CrimeTableData> {
    Filter(rows, (row: CrimeTableData) => FieldValue(row, field) == v)
  }

  lemma {:induction false} TiesAreEqualValues(rows: seq<CrimeTableData>, y: CrimeTableData, field: SortField, dir: Direction)
    ensures Ties(rows, y, Before(field, dir)) == WithValue(rows, field, FieldValue(y, field))
  {
    if |rows| > 0 {
      var leq := Before(field, dir);
      var v := FieldValue(y, field);
      TiesAreEqualValues(rows[1..], y, field, dir);
      EquivalentIsEqualValue(rows[0], y, field, dir);
      assert Ties(rows, y, leq) == (if Equivalent(leq, rows[0], y) then [rows[0]] else []) + Ties(rows[1..], y, leq);
      FilterCons(rows, (row: CrimeTableData) => FieldValue(row, field) == v);
    }
  }

  /** Two rows tie under the comparator exactly when their column values are equal. */
  lemma EquivalentIsEqualValue(a: CrimeTableData, y: CrimeTableData, field: SortField, dir: Direction)
    ensures Equivalent(Before(field, dir), a, y) <==> FieldValue(a, field) == FieldValue(y, field)
  {
    CompareAntisymmetric(Some(FieldValue(a, field)), Some(FieldValue(y, field)), dir);
  }

  /** Stability: rows with the same value in the sort column appear in the
      order the filter left them. */
  lemma SortedCrimesStable(crimes: seq<CrimeTableData>, t: Table, v: string)
    ensures WithValue(SortedCrimes(crimes, t), t.sortField, v)
         == WithValue(CrimeApi.FilterCrimes(crimes, t.filters), t.sortField, v)
  {
    var filtered := CrimeApi.FilterCrimes(crimes, t.filters);
    var leq := Before(t.sortField, t.direction);
    var r := SortedCrimes(crimes, t);
    if exists row :: row in filtered && FieldValue(row, t.sortField) == v {
      var y :| y in filtered && FieldValue(y, t.sortField) == v;
      BeforeIsTotalPreorder(t.sortField, t.direction);
      SortStable(filtered, y, leq);
      TiesAreEqualValues(r, y, t.sortField, t.direction);
      TiesAreEqualValues(filtered, y, t.sortField, t.direction);
    } else {
      assert forall row :: row in r ==> row in multiset(filtered);
      FilterNone(r, t.sortField, v);
      FilterNone(filtered, t.sortField, v);
    }
  }

  lemma FilterNone(rows: seq<CrimeTableData>, field: SortField, v: string)
    requires forall row :: row in rows ==> FieldValue(row, field) != v
    ensures WithValue(rows, field, v) == []
  {
  }

  /** `handleSort`: the current column flips direction; another column
      becomes the sort column, ascending. Filters are untouched. */
  function HandleSort(t: Table, field: SortField): (r: Table)
    ensures r.filters == t.filters && r.sortField == field
    ensures field == t.sortField ==> r.direction != t.direction
    ensures field != t.sortField ==> r.direction == Asc
  {
    if t.sortField == field then t.(direction := if t.direction.Asc? then Desc else Asc)
    else t.(sortField := field, direction := Asc)
  }

  /** Clicking the same header twice restores the table. */
  lemma HandleSortTwice(t: Table)
    ensures HandleSort(HandleSort(t, t.sortField), t.sortField) == t
  {
  }

  /** Sorting by one column and then another ends ascending on the second,
      whatever came before. */
  lemma HandleSortForgets(t: Table, f: SortField, g: SortField)
    requires f != g
    ensures HandleSort(HandleSort(t, f), g) == Table(t.filters, g, Asc)
  {
  }

  /** `handleFilter`: one menu's value replaced. */
  function HandleFilter(t: Table, kind: FilterKind, value: string): (r: Table)
    ensures r.sortField == t.sortField && r.direction == t.direction
    ensures r.filters.postcode == if kind.PostcodeFilter? then value else t.filters.postcode
    ensures r.filters.category == if kind.CategoryFilter? then value else t.filters.category
    ensures r.filters.outcome == if kind.OutcomeFilter? then value else t.filters.outcome
  {
    match kind
    case PostcodeFilter => t.(filters := t.filters.(postcode := value))
    case CategoryFilter => t.(filters := t.filters.(category := value))
    case OutcomeFilter => t.(filters := t.filters.(outcome := value))
  }

  /** `clearFilters`: all three menus back to "all". */
  function ClearFilters(t: Table): (r: Table)
    ensures r.sortField == t.sortField && r.direction == t.direction
    ensures r.filters.postcode == "" && r.filters.category == "" && r.filters.outcome == ""
  {
    t.(filters := CrimeApi.NoFilter)
  }

  /** With the filters cleared the table lists every row. */
  lemma ClearFiltersShowsAll(crimes: seq<CrimeTableData>, t: Table)
    ensures multiset(SortedCrimes(crimes, ClearFilters(t))) == multiset(crimes)
  {
    CrimeApi.FilterNothing(crimes);
  }

  /** The value a row's button sets in the given menu. */
  function RowFilterValue(row: CrimeTableData, kind: FilterKind): string {
    match kind
    case PostcodeFilter => row.postcode
    case CategoryFilter => row.crime.category
    case OutcomeFilter => CrimeApi.OutcomeLabel(row.crime)
  }

  /** Clicking a cell's value narrows the table without losing the clicked
      row, and every remaining row carries the clicked value. */
  lemma ClickFilterKeepsRow(crimes: seq<CrimeTableData>, t: Table, row: CrimeTableData, kind: FilterKind)
    requires row in SortedCrimes(crimes, t)
    ensures row in SortedCrimes(crimes, HandleFilter(t, kind, RowFilterValue(row, kind)))
    ensures forall other :: other in SortedCrimes(crimes, HandleFilter(t, kind, RowFilterValue(row, kind))) ==>
      RowFilterValue(other, kind) == RowFilterValue(row, kind) || RowFilterValue(row, kind) == ""
  {
  }

  /** `uniqueValues`: the same option lists the service derives. */
  function MenuOptions(crimes: seq<CrimeTableData>): (r: CrimeApi.UniqueValues)
    ensures forall x :: x in r.outcomes ==> x != ""
  {
    CrimeApi.GetUniqueValues(crimes)
  }

  /** Each menu lists every value once, in order of first appearance, and
      outcomes use the "Unknown" fallback label. */
  lemma MenuOptionsFirstSeenOrder(crimes: seq<CrimeTableData>)
    ensures var r := MenuOptions(crimes);
      && Distinct(r.postcodes) && Distinct(r.categories) && Distinct(r.outcomes)
      && (forall i, j :: 0 <= i < j < |r.postcodes| ==>
            FirstIndex(CrimeApi.Postcodes(crimes), r.postcodes[i]) < FirstIndex(CrimeApi.Postcodes(crimes), r.postcodes[j]))
      && (forall i, j :: 0 <= i < j < |r.categories| ==>
            FirstIndex(CrimeApi.Categories(crimes), r.categories[i]) < FirstIndex(CrimeApi.Categories(crimes), r.categories[j]))
      && (forall i, j :: 0 <= i < j < |r.outcomes| ==>
            FirstIndex(CrimeApi.Outcomes(crimes), r.outcomes[i]) < FirstIndex(CrimeApi.Outcomes(crimes), r.outcomes[j]))
  {
    DedupFirstOccurrenceOrder(CrimeApi.Postcodes(crimes));
    DedupFirstOccurrenceOrder(CrimeApi.Categories(crimes));
    DedupFirstOccurrenceOrder(CrimeApi.Outcomes(crimes));
  }
}
