/** The crime service (src/services/crimeApi.ts): fetching and enriching the
    crimes around every valid postcode, the summary statistics, the table
    filters and the filter options. Crime requests go through the oracle
    `fetch`; the locale-dependent month formatting is the parameter
    `formatDate`. */
module CrimeApi {
  import opened Wrappers
  import opened Types
  import opened Seqs
  import ApiService

  /** What one crime request for (latitude, longitude, month) produced. */
  type Fetcher = (real, real, string) -> ApiService.HttpOutcome<seq<CrimeData>>

  // ---------------------------------------------------------------------
  // Fetching
  // ---------------------------------------------------------------------

  /** A fetched crime as a table row attributed to `postcode`. */
  function Enrich(crime: CrimeData, postcode: string, formatDate: string -> string): CrimeTableData {
    CrimeTableData(crime, postcode, formatDate(crime.month), crime.location.street.name)
  }

  /** The request one valid postcode makes. */
  function Request(pc: PostcodeSearchResult, date: string, fetch: Fetcher): ApiService.HttpOutcome<seq<CrimeData>> {
    fetch(pc.latitude, pc.longitude, date)
  }

  /** The rows one postcode contributes: every fetched crime in response
      order, attributed to that postcode; a failed request contributes
      nothing instead of failing the batch. */
  function Contribution(pc: PostcodeSearchResult, date: string, fetch: Fetcher,
                        formatDate: string -> string): (r: seq<CrimeTableData>)
    ensures Request(pc, date, fetch).RequestFailed? ==> r == []
    ensures Request(pc, date, fetch).Responded? ==>
      && |r| == |Request(pc, date, fetch).body|
      && forall i :: 0 <= i < |r| ==>
           && r[i].crime == Request(pc, date, fetch).body[i]
           && r[i].postcode == pc.postcode
           && r[i].streetName == r[i].crime.location.street.name
           && r[i].displayDate == formatDate(r[i].crime.month)
  {
    match ApiService.GetCrimeData(Request(pc, date, fetch))
    case Success(crimes) => seq(|crimes|, i requires 0 <= i < |crimes| => Enrich(crimes[i], pc.postcode, formatDate))
    case Failure(_) => []
  }

  /** Row `row` is one of the crimes the request for `pc` returned, attributed to `pc`. */
  predicate FetchedFor(row: CrimeTableData, pc: PostcodeSearchResult, date: string, fetch: Fetcher) {
    && Request(pc, date, fetch).Responded?
    && row.crime in Request(pc, date, fetch).body
    && row.postcode == pc.postcode
  }

  /** The contributions of `pcs`, concatenated in order (`Promise.all` then `flat`). */
  function FetchAll(pcs: seq<PostcodeSearchResult>, date: string, fetch: Fetcher,
                    formatDate: string -> string): (r: seq<CrimeTableData>)
    ensures forall row :: row in r ==> exists pc :: pc in pcs && FetchedFor(row, pc, date, fetch)
  {
    if |pcs| == 0 then []
    else
      var head := Contribution(pcs[0], date, fetch, formatDate);
      var rest := FetchAll(pcs[1..], date, fetch, formatDate);
      assert forall row :: row in head ==> FetchedFor(row, pcs[0], date, fetch) by {
        forall row | row in head
          ensures FetchedFor(row, pcs[0], date, fetch)
        {
          var i :| 0 <= i < |head| && head[i] == row;
        }
      }
      assert forall pc :: pc in pcs[1..] ==> pc in pcs;
      head + rest
  }

  predicate IsValid(pc: PostcodeSearchResult) {
    pc.valid
  }

  /** `getCrimeDataForPostcodes`: the rows of every valid postcode, in input
      order; invalid postcodes are skipped and never requested. */
  function GetCrimeDataForPostcodes(results: seq<PostcodeSearchResult>, date: string, fetch: Fetcher,
                                    formatDate: string -> string): (r: seq<CrimeTableData>)
    ensures forall row :: row in r ==>
      exists pc :: pc in results && pc.valid && FetchedFor(row, pc, date, fetch)
    ensures (forall pc :: pc in results ==> !pc.valid) ==> r == []
  {
    var valid := Filter(results, IsValid);
    if |valid| == 0 then [] else FetchAll(valid, date, fetch, formatDate)
  }

  lemma {:induction false} FetchAllAppend(a: seq<PostcodeSearchResult>, b: seq<PostcodeSearchResult>,
                                          date: string, fetch: Fetcher, formatDate: string -> string)
    ensures FetchAll(a + b, date, fetch, formatDate) == FetchAll(a, date, fetch, formatDate) + FetchAll(b, date, fetch, formatDate)
  {
    if |a| > 0 {
      assert (a + b)[0] == a[0];
      assert (a + b)[1..] == a[1..] + b;
      FetchAllAppend(a[1..], b, date, fetch, formatDate);
    } else {
      assert a + b == b;
    }
  }

  /** Searching two lists of postcodes together gives the rows of the first
      followed by the rows of the second: no postcode's rows depend on
      another's, and the order of the input is kept. */
  lemma GetCrimeDataAppend(a: seq<PostcodeSearchResult>, b: seq<PostcodeSearchResult>,
                           date: string, fetch: Fetcher, formatDate: string -> string)
    ensures GetCrimeDataForPostcodes(a + b, date, fetch, formatDate)
         == GetCrimeDataForPostcodes(a, date, fetch, formatDate) + GetCrimeDataForPostcodes(b, date, fetch, formatDate)
  {
    FilterAppend(a, b, IsValid);
    FetchAllAppend(Filter(a, IsValid), Filter(b, IsValid), date, fetch, formatDate);
  }

  /** A single result contributes exactly its own rows when valid, none otherwise. */
  lemma GetCrimeDataSingle(pc: PostcodeSearchResult, date: string, fetch: Fetcher, formatDate: string -> string)
    ensures GetCrimeDataForPostcodes([pc], date, fetch, formatDate)
         == if pc.valid then Contribution(pc, date, fetch, formatDate) else []
  {
    assert [pc][1..] == [];
    assert Filter([pc], IsValid) == if pc.valid then [pc] else [];
    if pc.valid {
      assert FetchAll([pc], date, fetch, formatDate) == Contribution(pc, date, fetch, formatDate) + [];
    }
  }

  lemma {:induction false} FetchAllAgree(pcs: seq<PostcodeSearchResult>, date: string, f1: Fetcher, f2: Fetcher,
                                         formatDate: string -> string)
    requires forall pc :: pc in pcs ==> Request(pc, date, f1) == Request(pc, date, f2)
    ensures FetchAll(pcs, date, f1, formatDate) == FetchAll(pcs, date, f2, formatDate)
  {
    if |pcs| > 0 {
      assert pcs[0] in pcs;
      assert forall pc :: pc in pcs[1..] ==> pc in pcs;
      FetchAllAgree(pcs[1..], date, f1, f2, formatDate);
    }
  }

  /** Only valid postcodes are requested: two crime services that answer
      alike for the valid postcodes give the same rows, whatever they
      would answer for the sentinel coordinates of invalid ones. */
  lemma GetCrimeDataIgnoresInvalid(results: seq<PostcodeSearchResult>, date: string, f1: Fetcher, f2: Fetcher,
                                   formatDate: string -> string)
    requires forall pc :: pc in results && pc.valid ==> Request(pc, date, f1) == Request(pc, date, f2)
    ensures GetCrimeDataForPostcodes(results, date, f1, formatDate) == GetCrimeDataForPostcodes(results, date, f2, formatDate)
  {
    FetchAllAgree(Filter(results, IsValid), date, f1, f2, formatDate);
  }

  // ---------------------------------------------------------------------
  // Statistics
  // ---------------------------------------------------------------------

  /** `crime.outcome_status?.category || "Unknown"` */
  function OutcomeLabel(c: CrimeData): (r: string)
    ensures r != ""
    ensures c.outcomeStatus.Some? && c.outcomeStatus.value.category != "" ==> r == c.outcomeStatus.value.category
    ensures r == "Unknown" <==>
      c.outcomeStatus.None? || c.outcomeStatus.value.category == "" || c.outcomeStatus.value.category == "Unknown"
  {
    if c.outcomeStatus.Some? then OrElse(Some(c.outcomeStatus.value.category), "Unknown") else "Unknown"
  }

  function Categories(rows: seq<CrimeTableData>): seq<string> {
    seq(|rows|, i requires 0 <= i < |rows| => rows[i].crime.category)
  }

  function Outcomes(rows: seq<CrimeTableData>): seq<string> {
    seq(|rows|, i requires 0 <= i < |rows| => OutcomeLabel(rows[i].crime))
  }

  function Postcodes(rows: seq<CrimeTableData>): seq<string> {
    seq(|rows|, i requires 0 <= i < |rows| => rows[i].postcode)
  }

  function Names(b: Breakdown): seq<string> {
    seq(|b|, i requires 0 <= i < |b| => b[i].name)
  }

  /** `acc[name] || 0`: the count recorded for `name`, 0 when absent. */
  function Lookup(b: Breakdown, name: string): nat {
    if |b| == 0 then 0 else if b[0].name == name then b[0].value else Lookup(b[1..], name)
  }

  /** Sum of all counts. */
  function Total(b: Breakdown): nat {
    if |b| == 0 then 0 else b[0].value + Total(b[1..])
  }

  /** `acc[name] = (acc[name] || 0) + 1`: an existing key is incremented in
      place, a new key is appended with count 1. */
  function Bump(acc: Breakdown, name: string): (r: Breakdown)
    ensures |r| == |acc| || |r| == |acc| + 1
  {
    if |acc| == 0 then [Entry(name, 1)]
    else if acc[0].name == name then [Entry(name, acc[0].value + 1)] + acc[1..]
    else [acc[0]] + Bump(acc[1..], name)
  }

  /** Bumping keeps the keys in first-seen order and adds one to the
      count of `name` only. */
  lemma BumpProperties(acc: Breakdown, name: string)
    ensures Names(Bump(acc, name)) == if name in Names(acc) then Names(acc) else Names(acc) + [name]
    ensures forall y :: Lookup(Bump(acc, name), y) == Lookup(acc, y) + (if y == name then 1 else 0)
    ensures Total(Bump(acc, name)) == Total(acc) + 1
    ensures (forall i :: 0 <= i < |acc| ==> acc[i].value >= 1) ==>
      forall i :: 0 <= i < |Bump(acc, name)| ==> Bump(acc, name)[i].value >= 1
  {
    BumpNames(acc, name);
    BumpCounts(acc, name);
  }

  lemma {:induction false} BumpNames(acc: Breakdown, name: string)
    ensures Names(Bump(acc, name)) == if name in Names(acc) then Names(acc) else Names(acc) + [name]
  {
    if |acc| > 0 {
      var r := Bump(acc, name);
      assert Names(acc) == [acc[0].name] + Names(acc[1..]);
      assert Names(r) == [r[0].name] + Names(r[1..]);
      if acc[0].name != name {
        assert r[1..] == Bump(acc[1..], name);
        BumpNames(acc[1..], name);
        if name !in Names(acc[1..]) {
          Seqs.SeqAssoc([acc[0].name], Names(acc[1..]), [name]);
        }
      } else {
        assert r[1..] == acc[1..];
      }
    }
  }

  lemma {:induction false} BumpCounts(acc: Breakdown, name: string)
    ensures forall y :: Lookup(Bump(acc, name), y) == Lookup(acc, y) + (if y == name then 1 else 0)
    ensures Total(Bump(acc, name)) == Total(acc) + 1
    ensures (forall i :: 0 <= i < |acc| ==> acc[i].value >= 1) ==>
      forall i :: 0 <= i < |Bump(acc, name)| ==> Bump(acc, name)[i].value >= 1
  {
    if |acc| > 0 {
      var r := Bump(acc, name);
      if acc[0].name != name {
        assert r[1..] == Bump(acc[1..], name);
        BumpCounts(acc[1..], name);
      } else {
        assert r[1..] == acc[1..];
      }
    }
  }

  /** The count-by-label record a left-to-right reduce builds over `labels`. */
  function Tally(labels: seq<string>): (r: Breakdown)
    ensures Names(r) == Dedup(labels)
    ensures forall x :: Lookup(r, x) == Count(labels, x)
    ensures Total(r) == |labels|
    ensures forall i :: 0 <= i < |r| ==> r[i].value >= 1
  {
    if |labels| == 0 then []
    else
      var acc := Tally(labels[..|labels| - 1]);
      BumpProperties(acc, labels[|labels| - 1]);
      Bump(acc, labels[|labels| - 1])
  }

  /** `calculateStats`: the number of rows and, per category and per
      outcome label, how many rows carry it, keys in first-seen order. */
  function CalculateStats(crimes: seq<CrimeTableData>): (r: CrimeStats)
    ensures r.totalCrimes == |crimes|
    ensures Total(r.categoryBreakdown) == r.totalCrimes && Total(r.outcomeBreakdown) == r.totalCrimes
    ensures Names(r.categoryBreakdown) == Dedup(Categories(crimes))
    ensures Names(r.outcomeBreakdown) == Dedup(Outcomes(crimes))
    ensures forall x :: Lookup(r.categoryBreakdown, x) == Count(Categories(crimes), x)
    ensures forall x :: Lookup(r.outcomeBreakdown, x) == Count(Outcomes(crimes), x)
  {
    CrimeStats(|crimes|, Tally(Categories(crimes)), Tally(Outcomes(crimes)))
  }

  // ---------------------------------------------------------------------
  // Filtering and filter options
  // ---------------------------------------------------------------------

  /** A row passes a filter when every non-empty field of the filter equals
      the row's postcode, category and outcome label respectively. */
  predicate Matches(row: CrimeTableData, f: CrimeFilter) {
    && (f.postcode == "" || row.postcode == f.postcode)
    && (f.category == "" || row.crime.category == f.category)
    && (f.outcome == "" || OutcomeLabel(row.crime) == f.outcome)
  }

  const NoFilter := CrimeFilter("", "", "")

  /** `filterCrimes`: the matching rows, in their original order, with their multiplicities. */
  function FilterCrimes(crimes: seq<CrimeTableData>, f: CrimeFilter): (r: seq<CrimeTableData>)
    ensures forall row :: row in r <==> row in crimes && Matches(row, f)
    ensures forall row :: multiset(r)[row] == if Matches(row, f) then multiset(crimes)[row] else 0
    ensures IsSubseq(r, crimes)
  {
    Filter(crimes, (row: CrimeTableData) => Matches(row, f))
  }

  /** The empty filter shows every row. */
  lemma FilterNothing(crimes: seq<CrimeTableData>)
    ensures FilterCrimes(crimes, NoFilter) == crimes
  {
    FilterKeepsAll(crimes, (row: CrimeTableData) => Matches(row, NoFilter));
  }

  /** Filtering again by the same filter changes nothing. */
  lemma FilterCrimesIdempotent(crimes: seq<CrimeTableData>, f: CrimeFilter)
    ensures FilterCrimes(FilterCrimes(crimes, f), f) == FilterCrimes(crimes, f)
  {
    FilterIdempotent(crimes, (row: CrimeTableData) => Matches(row, f));
  }

  /** An "Unknown" outcome filter selects exactly the rows with no outcome
      recorded (or one literally called "Unknown" or empty). */
  lemma UnknownOutcomeFilter(crimes: seq<CrimeTableData>, row: CrimeTableData)
    ensures row in FilterCrimes(crimes, CrimeFilter("", "", "Unknown")) <==>
      row in crimes &&
      (row.crime.outcomeStatus.None? || row.crime.outcomeStatus.value.category in {"", "Unknown"})
  {
  }

  datatype UniqueValues = UniqueValues(postcodes: seq<string>, categories: seq<string>, outcomes: seq<string>)

  /** `getUniqueValues`: each distinct postcode, category and outcome label
      that some row carries, once, in first-seen order. */
  function GetUniqueValues(crimes: seq<CrimeTableData>): (r: UniqueValues)
    ensures Distinct(r.postcodes) && Distinct(r.categories) && Distinct(r.outcomes)
    ensures forall x :: x in r.postcodes <==> exists i :: 0 <= i < |crimes| && crimes[i].postcode == x
    ensures forall x :: x in r.categories <==> exists i :: 0 <= i < |crimes| && crimes[i].crime.category == x
    ensures forall x :: x in r.outcomes <==> exists i :: 0 <= i < |crimes| && OutcomeLabel(crimes[i].crime) == x
  {
    var ps := Postcodes(crimes);
    var cs := Categories(crimes);
    var os := Outcomes(crimes);
    assert forall x :: x in ps <==> exists i :: 0 <= i < |crimes| && crimes[i].postcode == x by {
      forall x | x in ps ensures exists i :: 0 <= i < |crimes| && crimes[i].postcode == x {
        var i :| 0 <= i < |ps| && ps[i] == x;
      }
      forall x | exists i :: 0 <= i < |crimes| && crimes[i].postcode == x ensures x in ps {
        var i :| 0 <= i < |crimes| && crimes[i].postcode == x;
        assert ps[i] == x;
      }
    }
    assert forall x :: x in cs <==> exists i :: 0 <= i < |crimes| && crimes[i].crime.category == x by {
      forall x | x in cs ensures exists i :: 0 <= i < |crimes| && crimes[i].crime.category == x {
        var i :| 0 <= i < |cs| && cs[i] == x;
      }
      forall x | exists i :: 0 <= i < |crimes| && crimes[i].crime.category == x ensures x in cs {
        var i :| 0 <= i < |crimes| && crimes[i].crime.category == x;
        assert cs[i] == x;
      }
    }
    assert forall x :: x in os <==> exists i :: 0 <= i < |crimes| && OutcomeLabel(crimes[i].crime) == x by {
      forall x | x in os ensures exists i :: 0 <= i < |crimes| && OutcomeLabel(crimes[i].crime) == x {
        var i :| 0 <= i < |os| && os[i] == x;
      }
      forall x | exists i :: 0 <= i < |crimes| && OutcomeLabel(crimes[i].crime) == x ensures x in os {
        var i :| 0 <= i < |crimes| && OutcomeLabel(crimes[i].crime) == x;
        assert os[i] == x;
      }
    }
    UniqueValues(Dedup(ps), Dedup(cs), Dedup(os))
  }

  /** Every offered filter option selects at least one row: picking a
      postcode, category or outcome from the options never empties the table. */
  lemma UniqueValuesAreRealised(crimes: seq<CrimeTableData>, x: string)
    requires x != ""
    ensures x in GetUniqueValues(crimes).postcodes ==> FilterCrimes(crimes, CrimeFilter(x, "", "")) != []
    ensures x in GetUniqueValues(crimes).categories ==> FilterCrimes(crimes, CrimeFilter("", x, "")) != []
    ensures x in GetUniqueValues(crimes).outcomes ==> FilterCrimes(crimes, CrimeFilter("", "", x)) != []
  {
    var u := GetUniqueValues(crimes);
    if x in u.postcodes {
      var i :| 0 <= i < |crimes| && crimes[i].postcode == x;
      RowSelects(crimes, i, CrimeFilter(x, "", ""));
    }
    if x in u.categories {
      var i :| 0 <= i < |crimes| && crimes[i].crime.category == x;
      RowSelects(crimes, i, CrimeFilter("", x, ""));
    }
    if x in u.outcomes {
      var i :| 0 <= i < |crimes| && OutcomeLabel(crimes[i].crime) == x;
      RowSelects(crimes, i, CrimeFilter("", "", x));
    }
  }

  lemma RowSelects(crimes: seq<CrimeTableData>, i: nat, f: CrimeFilter)
    requires i < |crimes| && Matches(crimes[i], f)
    ensures FilterCrimes(crimes, f) != []
  {
    assert crimes[i] in FilterCrimes(crimes, f);
  }
}
