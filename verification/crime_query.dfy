/** The search pipeline (src/hooks/useCrimeData.ts): expanding a month
    range into month keys, the query function that resolves postcodes and
    fetches every month for every valid one, the query key, and the mapping
    of a query error to the message the context shows.

    A month is its index `year * 12 + (month - 1)`. Timestamps are minutes
    from the start of month index 0, so only their differences matter. */
module CrimeQuery {
  import opened Wrappers
  import opened Types
  import opened Text
  import opened Seqs
  import ApiService
  import PostcodeApi
  import CrimeApi

  // ---------------------------------------------------------------------
  // Month keys
  // ---------------------------------------------------------------------

  /** Four digits, a dash and two digits. */
  predicate IsMonthShape(text: string) {
    |text| == 7 && AllDigits(text[..4]) && text[4] == '-' && AllDigits(text[5..])
  }

  /** The month a bound names. The model accepts only `YYYY-MM` with a
      month 01..12, giving that month's index; `new Date(text + "-01")`
      also accepts some other shapes through its lenient fallback parser. */
  function ParseMonth(text: string): (r: Option<nat>)
    ensures r.Some? <==> IsMonthShape(text) && 1 <= DecimalValue(text[5..]) <= 12
    ensures r.Some? ==> r.value == DecimalValue(text[..4]) * 12 + DecimalValue(text[5..]) - 1
    ensures r.Some? ==> r.value < 10000 * 12
  {
    if IsMonthShape(text) then
      DecimalValueBounds(text[..4]);
      assert Pow10(4) == 10000;
      var year := DecimalValue(text[..4]);
      var month := DecimalValue(text[5..]);
      if 1 <= month <= 12 then Some(year * 12 + month - 1) else None
    else None
  }

  /** The index a bound parses to encodes its year and its month. */
  lemma ParseMonthFields(text: string)
    requires ParseMonth(text).Some?
    ensures ParseMonth(text).value / 12 == DecimalValue(text[..4])
    ensures ParseMonth(text).value % 12 + 1 == DecimalValue(text[5..])
  {
  }

  /** `String(n).padStart(2, "0")` */
  function Pad2(n: nat): (r: string)
    ensures |r| >= 2 && AllDigits(r)
  {
    var t := DecimalText(n);
    if |t| < 2 then "0" + t else t
  }

  /** `${getFullYear()}-${month padded}` for the month with index `k`. The
      year is printed as a plain number, so years below 1000 get fewer than
      four digits. */
  function MonthKey(k: nat): string
  {
    DecimalText(k / 12) + "-" + Pad2(k % 12 + 1)
  }

  lemma Pad2Month(m: nat)
    requires 1 <= m <= 12
    ensures |Pad2(m)| == 2 && DecimalValue(Pad2(m)) == m
  {
    DecimalRoundTrip(m);
    if m >= 10 {
      assert DecimalText(m) == DecimalText(1) + [DigitChar(m % 10)];
    } else {
      var t := DecimalText(m);
      assert ("0" + t)[..1] == "0";
      assert DecimalValue(("0" + t)[..1]) == 0;
    }
  }

  /** Keys of months with a four-digit year parse back to their index. */
  lemma MonthKeyRoundTrip(k: nat)
    requires 1000 * 12 <= k < 10000 * 12
    ensures |MonthKey(k)| == 7
    ensures ParseMonth(MonthKey(k)) == Some(k)
  {
    var y := DecimalText(k / 12);
    var p := Pad2(k % 12 + 1);
    DecimalTextFourDigits(k / 12);
    Pad2Month(k % 12 + 1);
    DecimalRoundTrip(k / 12);
    var key := MonthKey(k);
    assert key[..4] == y && key[5..] == p;
  }

  /** A parsable key whose year has no leading zero is the key of its own index. */
  lemma MonthKeyOfParse(text: string)
    requires ParseMonth(text).Some? && text[0] != '0'
    ensures MonthKey(ParseMonth(text).value) == text
  {
    var k := ParseMonth(text).value;
    var year := text[..4];
    var month := text[5..];
    DecimalTextOfValue(year);
    var m := DecimalValue(month);
    assert k % 12 + 1 == m;
    DecimalRoundTrip(m);
    if month[0] == '0' {
      assert month == "0" + month[1..];
      assert DecimalValue(month) == DigitValue(month[1]) by {
        assert month[..1] == "0";
      }
      assert DecimalText(m) == month[1..];
    } else {
      DecimalTextOfValue(month);
      DecimalLeadingNonZero(month[..1]);
      assert m >= 10 by {
        assert DecimalValue(month) == DecimalValue(month[..1]) * 10 + DigitValue(month[1]);
      }
    }
    assert text == year + "-" + month;
  }

  // ---------------------------------------------------------------------
  // Month ranges
  // ---------------------------------------------------------------------

  /** Keys of the months with indices `from` to `to` inclusive, ascending. */
  function MonthsBetween(from: nat, to: int): (r: seq<string>)
    ensures |r| == if from <= to then to - from + 1 else 0
    ensures forall i :: 0 <= i < |r| ==> r[i] == MonthKey(from + i)
  {
    Tabulate(MonthKey, from, to)
  }

  /** A range splits at any month inside it. */
  lemma MonthsBetweenSplit(from: nat, mid: nat, to: int)
    requires from <= mid <= to
    ensures MonthsBetween(from, to) == MonthsBetween(from, mid) + MonthsBetween(mid + 1, to)
  {
    TabulateSplit(MonthKey, from, mid, to);
  }

  /** The first month of a non-empty range, then the rest. */
  lemma MonthsBetweenCons(from: nat, to: int)
    requires from <= to
    ensures MonthsBetween(from, to) == [MonthKey(from)] + MonthsBetween(from + 1, to)
  {
    if from < to {
      MonthsBetweenSplit(from, from, to);
    }
  }

  /** `getMonthsBetween`, with the month arithmetic done in UTC: every month
      from the start to the end inclusive, in ascending order; none when the
      start is after the end or either bound does not parse. */
  function GetMonthsBetween(startDate: string, endDate: string): (r: seq<string>)
    ensures ParseMonth(startDate).None? || ParseMonth(endDate).None? ==> r == []
    ensures ParseMonth(startDate).Some? && ParseMonth(endDate).Some? ==>
      var from := ParseMonth(startDate).value;
      var to := ParseMonth(endDate).value;
      r == MonthsBetween(from, to)
  {
    var from := ParseMonth(startDate);
    var to := ParseMonth(endDate);
    if from.Some? && to.Some? then MonthsBetween(from.value, to.value) else []
  }

  /** One month in, one month out. */
  lemma MonthsBetweenSameMonth(m: string)
    requires ParseMonth(m).Some? && m[0] != '0'
    ensures GetMonthsBetween(m, m) == [m]
  {
    MonthKeyOfParse(m);
  }

  /** A start after the end gives no months at all. */
  lemma MonthsBetweenReversed(startDate: string, endDate: string)
    requires ParseMonth(startDate).Some? && ParseMonth(endDate).Some?
    requires ParseMonth(startDate).value > ParseMonth(endDate).value
    ensures GetMonthsBetween(startDate, endDate) == []
  {
  }

  /** A parsable month whose year has no leading zero lies in years 1000..9999. */
  lemma FourDigitYear(text: string)
    requires ParseMonth(text).Some? && text[0] != '0'
    ensures 1000 * 12 <= ParseMonth(text).value < 10000 * 12
  {
    DecimalValueBounds(text[..4]);
    assert text[..4][0] == text[0];
    assert Pow10(3) == 1000;
  }

  /** For years without a leading zero, the range starts at the start month
      and ends at the end month. */
  lemma MonthsBetweenEnds(startDate: string, endDate: string)
    requires ParseMonth(startDate).Some? && ParseMonth(endDate).Some?
    requires startDate[0] != '0' && endDate[0] != '0'
    requires ParseMonth(startDate).value <= ParseMonth(endDate).value
    ensures var r := GetMonthsBetween(startDate, endDate);
      r[0] == startDate && r[|r| - 1] == endDate
  {
    var from := ParseMonth(startDate).value;
    var to := ParseMonth(endDate).value;
    assert MonthKey(from) == startDate by { MonthKeyOfParse(startDate); }
    assert MonthKey(to) == endDate by { MonthKeyOfParse(endDate); }
    assert GetMonthsBetween(startDate, endDate) == MonthsBetween(from, to);
    RangeFirstLast(from, to, startDate, endDate);
  }

  lemma RangeFirstLast(from: nat, to: nat, first: string, last: string)
    requires from <= to && MonthKey(from) == first && MonthKey(to) == last
    ensures var r := MonthsBetween(from, to);
      r[0] == first && r[|r| - 1] == last
  {
  }

  /** For four-digit years, every key is `YYYY-MM` and the keys step by
      exactly one month. */
  lemma MonthsBetweenConsecutive(startDate: string, endDate: string)
    requires ParseMonth(startDate).Some? && ParseMonth(endDate).Some?
    requires startDate[0] != '0' && endDate[0] != '0'
    ensures var r := GetMonthsBetween(startDate, endDate);
      forall i :: 0 <= i < |r| ==> |r[i]| == 7 && ParseMonth(r[i]) == Some(ParseMonth(startDate).value + i)
  {
    var from, to := ParseMonth(startDate).value, ParseMonth(endDate).value;
    assert 1000 * 12 <= from && to < 10000 * 12 by {
      FourDigitYear(startDate);
      FourDigitYear(endDate);
    }
    RangeConsecutive(from, to, GetMonthsBetween(startDate, endDate));
  }

  lemma RangeConsecutive(from: nat, to: int, r: seq<string>)
    requires 1000 * 12 <= from && to < 10000 * 12 && r == MonthsBetween(from, to)
    ensures forall i :: 0 <= i < |r| ==> |r[i]| == 7 && ParseMonth(r[i]) == Some(from + i)
  {
    forall i | 0 <= i < |r|
      ensures |r[i]| == 7 && ParseMonth(r[i]) == Some(from + i)
    {
      RangeKeyParses(from, to, i);
    }
  }

  lemma RangeKeyParses(from: nat, to: int, i: nat)
    requires 1000 * 12 <= from && to < 10000 * 12 && i < |MonthsBetween(from, to)|
    ensures |MonthsBetween(from, to)[i]| == 7 && ParseMonth(MonthsBetween(from, to)[i]) == Some(from + i)
  {
    var key := MonthsBetween(from, to)[i];
    assert key == MonthKey(from + i);
    KeyParses(from + i, key);
  }

  lemma KeyParses(k: nat, key: string)
    requires 1000 * 12 <= k < 10000 * 12 && key == MonthKey(k)
    ensures |key| == 7 && ParseMonth(key) == Some(k)
  {
    MonthKeyRoundTrip(k);
  }

  // ---------------------------------------------------------------------
  // The range as the source computes it, in local time
  // ---------------------------------------------------------------------

  predicate IsLeapYear(y: nat) {
    y % 4 == 0 && (y % 100 != 0 || y % 400 == 0)
  }

  function MonthDays(k: nat): (d: nat)
    ensures 28 <= d <= 31
  {
    var m := k % 12 + 1;
    if m == 2 then (if IsLeapYear(k / 12) then 29 else 28)
    else if m == 4 || m == 6 || m == 9 || m == 11 then 30
    else 31
  }

  /** UTC midnight starting month `k`, in minutes from month index 0. */
  function MonthStart(k: nat): nat
  {
    if k == 0 then 0 else MonthStart(k - 1) + MonthDays(k - 1) * 1440
  }

  lemma {:induction false} MonthStartGrows(j: nat, k: nat)
    requires j < k
    ensures MonthStart(j) + 1440 <= MonthStart(k)
  {
    var d := MonthDays(k - 1);
    assert MonthStart(k) == MonthStart(k - 1) + d * 1440;
    assert d * 1440 >= 1440;
    if j + 1 < k {
      MonthStartGrows(j, k - 1);
    }
  }

  /** `utcOffset(k)`: minutes east of UTC in force in the user's time zone on
      the first of local month `k`, at the time of day the loop keeps. The
      model covers UTC and zones east of it. */
  ghost predicate EastOfUtc(utcOffset: nat -> int) {
    forall k: nat :: 0 <= utcOffset(k) < 1440
  }

  /** The loop from local month `k` on: `current` is the first of month `k`
      at local time of day `timeOfDay`; it is kept while its instant is not
      after the end bound, UTC midnight on the first of month `to`. */
  function LocalMonthsFrom(k: nat, timeOfDay: int, to: nat, utcOffset: nat -> int): (r: seq<string>)
    requires 0 <= timeOfDay < 1440 && EastOfUtc(utcOffset)
    decreases MonthStart(to) + 1440 - MonthStart(k)
  {
    var current := MonthStart(k) + timeOfDay - utcOffset(k);
    if current <= MonthStart(to) then
      [MonthKey(k)] + LocalMonthsFrom(k + 1, timeOfDay, to, utcOffset)
    else []
  }

  /** `getMonthsBetween` as written: both bounds are UTC midnight, but the
      month is read and advanced with the local-time `getMonth` and
      `setMonth`, which keep the local time of day of the start. */
  function GetMonthsBetweenLocal(startDate: string, endDate: string, utcOffset: nat -> int): (r: seq<string>)
    requires EastOfUtc(utcOffset)
    ensures ParseMonth(startDate).None? || ParseMonth(endDate).None? ==> r == []
  {
    match (ParseMonth(startDate), ParseMonth(endDate))
    case (Some(from), Some(to)) => LocalMonthsFrom(from, utcOffset(from), to, utcOffset)
    case _ => []
  }

  lemma {:induction false} LocalMonthsFromCharacterised(k: nat, timeOfDay: int, to: nat, utcOffset: nat -> int)
    requires 0 <= timeOfDay < 1440 && EastOfUtc(utcOffset)
    ensures LocalMonthsFrom(k, timeOfDay, to, utcOffset)
         == MonthsBetween(k, if timeOfDay <= utcOffset(to) then to else to - 1)
    decreases MonthStart(to) + 1440 - MonthStart(k)
  {
    var last := if timeOfDay <= utcOffset(to) then to else to - 1;
    var current := MonthStart(k) + timeOfDay - utcOffset(k);
    if k < to {
      MonthStartGrows(k, to);
      MonthStartGrows(k, k + 1);
      assert current <= MonthStart(to);
      LocalMonthsFromCharacterised(k + 1, timeOfDay, to, utcOffset);
      MonthsBetweenCons(k, last);
    } else if k == to {
      if current <= MonthStart(to) {
        MonthStartGrows(to, k + 1);
        assert LocalMonthsFrom(k + 1, timeOfDay, to, utcOffset) == [];
        MonthsBetweenCons(k, last);
      }
    } else {
      MonthStartGrows(to, k);
    }
  }

  /** As written, the range loses its last month exactly when the zone's
      offset on the first of the start month exceeds that on the first of the
      end month (a summer-time start and a winter-time end); otherwise it is
      the inclusive range. */
  lemma LocalRangeCharacterised(startDate: string, endDate: string, utcOffset: nat -> int)
    requires EastOfUtc(utcOffset)
    requires ParseMonth(startDate).Some? && ParseMonth(endDate).Some?
    ensures var from := ParseMonth(startDate).value;
            var to := ParseMonth(endDate).value;
      GetMonthsBetweenLocal(startDate, endDate, utcOffset)
        == MonthsBetween(from, if utcOffset(from) <= utcOffset(to) then to else to - 1)
  {
    var from := ParseMonth(startDate).value;
    LocalMonthsFromCharacterised(from, utcOffset(from), ParseMonth(endDate).value, utcOffset);
  }

  /** In UTC, or any zone whose offset does not shrink from the start month
      to the end month, the loop as written gives the inclusive range. */
  lemma LocalRangeAgreesWithoutOffsetDrop(startDate: string, endDate: string, utcOffset: nat -> int)
    requires EastOfUtc(utcOffset)
    requires ParseMonth(startDate).Some? && ParseMonth(endDate).Some? ==>
      utcOffset(ParseMonth(startDate).value) <= utcOffset(ParseMonth(endDate).value)
    ensures GetMonthsBetweenLocal(startDate, endDate, utcOffset) == GetMonthsBetween(startDate, endDate)
  {
    if ParseMonth(startDate).Some? && ParseMonth(endDate).Some? {
      LocalRangeCharacterised(startDate, endDate, utcOffset);
    }
  }

  /** British Summer Time as seen on the first of each month of 2024:
      +60 minutes from April to October, 0 otherwise. */
  function London2024(k: nat): int {
    if 2024 * 12 + 3 <= k <= 2024 * 12 + 9 then 60 else 0
  }

  /** The month a `YYYY-MM` bound names, digit by digit. */
  lemma ParseMonthDigits(text: string)
    requires IsMonthShape(text)
    ensures var y := DigitValue(text[0]) * 1000 + DigitValue(text[1]) * 100 + DigitValue(text[2]) * 10 + DigitValue(text[3]);
      var m := DigitValue(text[5]) * 10 + DigitValue(text[6]);
      ParseMonth(text) == if 1 <= m <= 12 then Some(y * 12 + m - 1) else None
  {
    var year := text[..4];
    var month := text[5..];
    assert year[..3][..2][..1][..0] == [];
    assert DecimalValue(year) == DecimalValue(year[..3]) * 10 + DigitValue(text[3]);
    assert DecimalValue(year[..3]) == DecimalValue(year[..3][..2]) * 10 + DigitValue(text[2]);
    assert DecimalValue(year[..3][..2]) == DecimalValue(year[..3][..2][..1]) * 10 + DigitValue(text[1]);
    assert DecimalValue(year[..3][..2][..1]) == DigitValue(text[0]);
    assert DecimalValue(month) == DecimalValue(month[..1]) * 10 + DigitValue(text[6]);
    assert DecimalValue(month[..1]) == DigitValue(text[5]);
  }

  lemma July2024()
    ensures ParseMonth("2024-07") == Some(2024 * 12 + 6)
  {
    ParseMonthDigits("2024-07");
  }

  lemma December2024()
    ensures ParseMonth("2024-12") == Some(2024 * 12 + 11)
  {
    ParseMonthDigits("2024-12");
  }

  /** A range of four-digit-year months holds no key of a later month. */
  lemma MonthsBetweenMissesLater(from: nat, to: int, later: string)
    requires 1000 * 12 <= from && to < 10000 * 12
    requires ParseMonth(later).Some? && ParseMonth(later).value > to
    ensures later !in MonthsBetween(from, to)
  {
    var r := MonthsBetween(from, to);
    forall i | 0 <= i < |r|
      ensures r[i] != later
    {
      RangeKeyParses(from, to, i);
    }
  }

  /** When the offset drops between the first of the start month and the
      first of a later end month, the loop as written yields one month fewer
      than the range holds, and the end month is the one missing. */
  lemma LocalRangeDropsEndMonth(startDate: string, endDate: string, utcOffset: nat -> int)
    requires EastOfUtc(utcOffset)
    requires ParseMonth(startDate).Some? && ParseMonth(endDate).Some?
    requires startDate[0] != '0' && endDate[0] != '0'
    requires ParseMonth(startDate).value < ParseMonth(endDate).value
    requires utcOffset(ParseMonth(startDate).value) > utcOffset(ParseMonth(endDate).value)
    ensures var r := GetMonthsBetween(startDate, endDate);
      |r| == ParseMonth(endDate).value - ParseMonth(startDate).value + 1 && r[|r| - 1] == endDate
    ensures var l := GetMonthsBetweenLocal(startDate, endDate, utcOffset);
      |l| == ParseMonth(endDate).value - ParseMonth(startDate).value && endDate !in l
  {
    MonthsBetweenEnds(startDate, endDate);
    LocalRangeMissesEnd(startDate, endDate, utcOffset);
  }

  lemma LocalRangeMissesEnd(startDate: string, endDate: string, utcOffset: nat -> int)
    requires EastOfUtc(utcOffset)
    requires ParseMonth(startDate).Some? && ParseMonth(endDate).Some?
    requires startDate[0] != '0'
    requires ParseMonth(startDate).value < ParseMonth(endDate).value
    requires utcOffset(ParseMonth(startDate).value) > utcOffset(ParseMonth(endDate).value)
    ensures var l := GetMonthsBetweenLocal(startDate, endDate, utcOffset);
      |l| == ParseMonth(endDate).value - ParseMonth(startDate).value && endDate !in l
  {
    var from := ParseMonth(startDate).value;
    var to := ParseMonth(endDate).value;
    assert 1000 * 12 <= from by { FourDigitYear(startDate); }
    var l := GetMonthsBetweenLocal(startDate, endDate, utcOffset);
    assert l == MonthsBetween(from, to - 1) by {
      LocalRangeCharacterised(startDate, endDate, utcOffset);
    }
    RangeBeforeMisses(from, to, l, endDate);
  }

  /** The months strictly before `to` are `to - from` keys, none of them `to`'s. */
  lemma RangeBeforeMisses(from: nat, to: nat, l: seq<string>, end: string)
    requires 1000 * 12 <= from < to && ParseMonth(end) == Some(to) && l == MonthsBetween(from, to - 1)
    ensures |l| == to - from && end !in l
  {
    MonthsBetweenMissesLater(from, to - 1, end);
  }

  /** July to December 2024 in London: six months are meant, five are
      produced, and December is the one missing. */
  lemma LondonSummerToWinterDropsLastMonth(startDate: string, endDate: string)
    requires startDate == "2024-07" && endDate == "2024-12"
    ensures EastOfUtc(London2024)
    ensures |GetMonthsBetween(startDate, endDate)| == 6
    ensures |GetMonthsBetweenLocal(startDate, endDate, London2024)| == 5
    ensures endDate !in GetMonthsBetweenLocal(startDate, endDate, London2024)
  {
    July2024();
    December2024();
    LocalRangeDropsEndMonth(startDate, endDate, London2024);
  }

  // ---------------------------------------------------------------------
  // The query
  // ---------------------------------------------------------------------

  datatype QueryData = QueryData(crimes: seq<CrimeTableData>, validPostcodes: seq<PostcodeSearchResult>)

  /** The rows of every month in `months`, month after month. */
  function FetchMonths(valid: seq<PostcodeSearchResult>, months: seq<string>, fetch: CrimeApi.Fetcher,
                       formatDate: string -> string): seq<CrimeTableData>
  {
    if |months| == 0 then []
    else CrimeApi.GetCrimeDataForPostcodes(valid, months[0], fetch, formatDate)
         + FetchMonths(valid, months[1..], fetch, formatDate)
  }

  /** Every row fetched belongs to one of the valid resolutions searched. */
  lemma {:induction false} FetchMonthsFromValid(valid: seq<PostcodeSearchResult>, months: seq<string>,
                                                fetch: CrimeApi.Fetcher, formatDate: string -> string)
    ensures forall row :: row in FetchMonths(valid, months, fetch, formatDate) ==>
      exists pc :: pc in valid && pc.valid && row.postcode == pc.postcode
  {
    if |months| > 0 {
      FetchMonthsFromValid(valid, months[1..], fetch, formatDate);
    }
  }

  lemma {:induction false} FetchMonthsAppend(valid: seq<PostcodeSearchResult>, a: seq<string>, b: seq<string>,
                                             fetch: CrimeApi.Fetcher, formatDate: string -> string)
    ensures FetchMonths(valid, a + b, fetch, formatDate)
         == FetchMonths(valid, a, fetch, formatDate) + FetchMonths(valid, b, fetch, formatDate)
  {
    if |a| > 0 {
      assert (a + b)[0] == a[0];
      assert (a + b)[1..] == a[1..] + b;
      FetchMonthsAppend(valid, a[1..], b, fetch, formatDate);
      var head := CrimeApi.GetCrimeDataForPostcodes(valid, a[0], fetch, formatDate);
      SeqAssoc(head, FetchMonths(valid, a[1..], fetch, formatDate), FetchMonths(valid, b, fetch, formatDate));
    } else {
      assert a + b == b;
    }
  }

  const NoValidPostcodes := "No valid postcodes provided"

  /** The `queryFn` of the crime query: nothing to do for no postcodes; a
      failure when no postcode resolves; otherwise the rows of every month of
      the range, in month order, together with the valid resolutions. */
  function QueryFn(postcodes: seq<string>, dateFrom: string, dateTo: string,
                   get: string -> ApiService.HttpOutcome<ApiService.LookupBody>, parseFloat: string -> real,
                   fetch: CrimeApi.Fetcher, formatDate: string -> string): (r: Result<QueryData, string>)
    ensures |postcodes| == 0 ==> r == Success(QueryData([], []))
    ensures r.Failure? ==> r.error == NoValidPostcodes
    ensures r.Success? ==>
      && (forall pc :: pc in r.value.validPostcodes ==> pc.valid)
      && IsSubseq(r.value.validPostcodes, PostcodeApi.ResolveAll(postcodes, get, parseFloat))
      && (forall row :: row in r.value.crimes ==>
            exists pc :: pc in r.value.validPostcodes && row.postcode == pc.postcode)
    ensures r.Success? && |postcodes| > 0 ==>
      && |r.value.validPostcodes| > 0
      && forall pc :: pc in PostcodeApi.ResolveAll(postcodes, get, parseFloat) && pc.valid ==> pc in r.value.validPostcodes
    ensures r.Failure? <==>
      |postcodes| > 0 && forall pc :: pc in PostcodeApi.ResolveAll(postcodes, get, parseFloat) ==> !pc.valid
  {
    if |postcodes| == 0 then Success(QueryData([], []))
    else
      var results := PostcodeApi.ResolveAll(postcodes, get, parseFloat);
      var valid := Filter(results, CrimeApi.IsValid);
      if |valid| == 0 then Failure(NoValidPostcodes)
      else
        assert valid[0] in results;
        FetchMonthsFromValid(valid, GetMonthsBetween(dateFrom, dateTo), fetch, formatDate);
        Success(QueryData(FetchMonths(valid, GetMonthsBetween(dateFrom, dateTo), fetch, formatDate), valid))
  }

  /** With no postcodes, nothing is looked up or fetched: the result does not
      depend on any oracle or on the dates. */
  lemma QueryWithoutPostcodes(dateFrom: string, dateTo: string, dateFrom2: string, dateTo2: string,
                              get1: string -> ApiService.HttpOutcome<ApiService.LookupBody>,
                              get2: string -> ApiService.HttpOutcome<ApiService.LookupBody>, parseFloat: string -> real,
                              fetch1: CrimeApi.Fetcher, fetch2: CrimeApi.Fetcher, formatDate: string -> string)
    ensures QueryFn([], dateFrom, dateTo, get1, parseFloat, fetch1, formatDate)
         == QueryFn([], dateFrom2, dateTo2, get2, parseFloat, fetch2, formatDate)
  {
  }

  /** When no postcode resolves, no crime is requested: the failure does not
      depend on the crime service or the dates. */
  lemma QueryWithoutValidPostcodes(postcodes: seq<string>, dateFrom: string, dateTo: string,
                                   get: string -> ApiService.HttpOutcome<ApiService.LookupBody>, parseFloat: string -> real,
                                   fetch1: CrimeApi.Fetcher, fetch2: CrimeApi.Fetcher, formatDate: string -> string)
    requires |postcodes| > 0
    requires forall i :: 0 <= i < |postcodes| ==> PostcodeApi.Resolve(postcodes[i], get, parseFloat).valid == false
    ensures QueryFn(postcodes, dateFrom, dateTo, get, parseFloat, fetch1, formatDate) == Failure(NoValidPostcodes)
    ensures QueryFn(postcodes, dateFrom, dateTo, get, parseFloat, fetch1, formatDate)
         == QueryFn(postcodes, "", "", get, parseFloat, fetch2, formatDate)
  {
    var results := PostcodeApi.ResolveAll(postcodes, get, parseFloat);
    forall pc | pc in results ensures !pc.valid {
      var i :| 0 <= i < |results| && results[i] == pc;
      PostcodeApi.ResolveAllPointwise(postcodes, get, parseFloat, i);
    }
  }

  /** The crimes of a range are the crimes of its first part followed by
      those of the rest: months are fetched in ascending order and each
      month's rows are appended whole. */
  lemma QueryMonthsConcatenate(valid: seq<PostcodeSearchResult>, from: nat, mid: nat, to: nat,
                               fetch: CrimeApi.Fetcher, formatDate: string -> string)
    requires from <= mid < to
    ensures FetchMonths(valid, MonthsBetween(from, to), fetch, formatDate)
         == FetchMonths(valid, MonthsBetween(from, mid), fetch, formatDate)
          + FetchMonths(valid, MonthsBetween(mid + 1, to), fetch, formatDate)
  {
    MonthsBetweenSplit(from, mid, to);
    FetchMonthsAppend(valid, MonthsBetween(from, mid), MonthsBetween(mid + 1, to), fetch, formatDate);
  }

  /** The rows of each month in `months`, one batch per month. */
  function MonthResults(valid: seq<PostcodeSearchResult>, months: seq<string>, fetch: CrimeApi.Fetcher,
                        formatDate: string -> string): (r: seq<seq<CrimeTableData>>)
    ensures |r| == |months|
    ensures forall i :: 0 <= i < |r| ==> r[i] == CrimeApi.GetCrimeDataForPostcodes(valid, months[i], fetch, formatDate)
  {
    seq(|months|, i requires 0 <= i < |months| => CrimeApi.GetCrimeDataForPostcodes(valid, months[i], fetch, formatDate))
  }

  /** The month loop appends each month's batch in turn: the rows are the
      month batches flattened in month order. */
  lemma {:induction false} FetchMonthsIsFlatten(valid: seq<PostcodeSearchResult>, months: seq<string>,
                                                fetch: CrimeApi.Fetcher, formatDate: string -> string)
    ensures FetchMonths(valid, months, fetch, formatDate) == Flatten(MonthResults(valid, months, fetch, formatDate))
  {
    if |months| > 0 {
      FetchMonthsIsFlatten(valid, months[1..], fetch, formatDate);
      var all := MonthResults(valid, months, fetch, formatDate);
      var rest := MonthResults(valid, months[1..], fetch, formatDate);
      forall i | 0 <= i < |rest|
        ensures all[1..][i] == rest[i]
      {
        assert months[1..][i] == months[i + 1];
      }
      SameElements(all[1..], rest);
    }
  }

  /** A successful search for some postcodes reports exactly the valid
      resolutions, in input order, and its rows are the month batches for
      them over the range, flattened in ascending month order. */
  lemma QueryRows(postcodes: seq<string>, dateFrom: string, dateTo: string,
                  get: string -> ApiService.HttpOutcome<ApiService.LookupBody>, parseFloat: string -> real,
                  fetch: CrimeApi.Fetcher, formatDate: string -> string)
    requires QueryFn(postcodes, dateFrom, dateTo, get, parseFloat, fetch, formatDate).Success? && |postcodes| > 0
    ensures var valid := Filter(PostcodeApi.ResolveAll(postcodes, get, parseFloat), CrimeApi.IsValid);
      QueryFn(postcodes, dateFrom, dateTo, get, parseFloat, fetch, formatDate)
        == Success(QueryData(Flatten(MonthResults(valid, GetMonthsBetween(dateFrom, dateTo), fetch, formatDate)), valid))
  {
    var valid := Filter(PostcodeApi.ResolveAll(postcodes, get, parseFloat), CrimeApi.IsValid);
    FetchMonthsIsFlatten(valid, GetMonthsBetween(dateFrom, dateTo), fetch, formatDate);
  }

  /** A search over a single month is that month's rows for the valid resolutions. */
  lemma QuerySingleMonth(postcodes: seq<string>, month: string,
                         get: string -> ApiService.HttpOutcome<ApiService.LookupBody>, parseFloat: string -> real,
                         fetch: CrimeApi.Fetcher, formatDate: string -> string)
    requires ParseMonth(month).Some? && month[0] != '0'
    requires QueryFn(postcodes, month, month, get, parseFloat, fetch, formatDate).Success? && |postcodes| > 0
    ensures var valid := Filter(PostcodeApi.ResolveAll(postcodes, get, parseFloat), CrimeApi.IsValid);
      QueryFn(postcodes, month, month, get, parseFloat, fetch, formatDate)
        == Success(QueryData(CrimeApi.GetCrimeDataForPostcodes(valid, month, fetch, formatDate), valid))
  {
    var valid := Filter(PostcodeApi.ResolveAll(postcodes, get, parseFloat), CrimeApi.IsValid);
    assert QueryFn(postcodes, month, month, get, parseFloat, fetch, formatDate)
        == Success(QueryData(FetchMonths(valid, GetMonthsBetween(month, month), fetch, formatDate), valid));
    MonthsBetweenSameMonth(month);
    FetchOneMonth(valid, month, fetch, formatDate);
  }

  lemma FetchOneMonth(valid: seq<PostcodeSearchResult>, month: string, fetch: CrimeApi.Fetcher,
                      formatDate: string -> string)
    ensures FetchMonths(valid, [month], fetch, formatDate) == CrimeApi.GetCrimeDataForPostcodes(valid, month, fetch, formatDate)
  {
    var rows := CrimeApi.GetCrimeDataForPostcodes(valid, month, fetch, formatDate);
    assert FetchMonths(valid, [month], fetch, formatDate) == rows + FetchMonths(valid, [], fetch, formatDate);
    assert rows + [] == rows;
  }

  lemma January2024()
    ensures ParseMonth("2024-01") == Some(2024 * 12)
  {
    ParseMonthDigits("2024-01");
  }

  /** One postcode that resolves, one month, and a crime service answering
      with three records: three rows, all attributed to that postcode, and
      statistics counting three crimes. */
  lemma SingleSearchScenario(postcode: string, month: string,
                             get: string -> ApiService.HttpOutcome<ApiService.LookupBody>, parseFloat: string -> real,
                             fetch: CrimeApi.Fetcher, formatDate: string -> string)
    requires postcode == "SW1A1AA" && month == "2024-01"
    requires get(postcode).Responded? && get(postcode).body.status == "match"
    requires var d := get(postcode).body.data;
      fetch(parseFloat(d.latitude), parseFloat(d.longitude), month).Responded?
    requires var d := get(postcode).body.data;
      |fetch(parseFloat(d.latitude), parseFloat(d.longitude), month).body| == 3
    ensures QueryFn([postcode], month, month, get, parseFloat, fetch, formatDate).Success?
    ensures var q := QueryFn([postcode], month, month, get, parseFloat, fetch, formatDate).value;
      && |q.crimes| == 3
      && CrimeApi.CalculateStats(q.crimes).totalCrimes == 3
      && |q.validPostcodes| == 1
      && forall row :: row in q.crimes ==> row.postcode == get(postcode).body.data.postcode
  {
    var results := PostcodeApi.ResolveAll([postcode], get, parseFloat);
    PostcodeApi.ResolveAllPointwise([postcode], get, parseFloat, 0);
    var pc := results[0];
    assert results == [pc];
    assert Filter(results, CrimeApi.IsValid) == [pc];
    January2024();
    QuerySingleMonth([postcode], month, get, parseFloat, fetch, formatDate);
    CrimeApi.GetCrimeDataSingle(pc, month, fetch, formatDate);
  }

  // ---------------------------------------------------------------------
  // Query key and error message
  // ---------------------------------------------------------------------

  /** `["crimeData", postcodes, searchTrigger]` */
  datatype QueryKey = QueryKey(name: string, postcodes: seq<string>, searchTrigger: int)

  function QueryKeyOf(s: SearchState, searchTrigger: int): QueryKey {
    QueryKey("crimeData", s.postcodes, searchTrigger)
  }

  /** The query runs only when there is at least one postcode. */
  predicate Enabled(s: SearchState) {
    |s.postcodes| > 0
  }

  /** The query is disabled exactly when its function would answer the empty
      result without a lookup; an enabled query either fails or reports at
      least one valid postcode. */
  lemma EnabledIffWork(s: SearchState, get: string -> ApiService.HttpOutcome<ApiService.LookupBody>,
                       parseFloat: string -> real, fetch: CrimeApi.Fetcher, formatDate: string -> string)
    ensures !Enabled(s) <==> QueryFn(s.postcodes, s.dateFrom, s.dateTo, get, parseFloat, fetch, formatDate) == Success(QueryData([], []))
  {
  }

  /** Two states share a query, and so a cached result, exactly when their
      postcodes and trigger agree; the dates are not part of the key, so a
      date change alone reuses the cache until the trigger moves. */
  lemma QueryKeyIdentifies(s1: SearchState, t1: int, s2: SearchState, t2: int)
    ensures QueryKeyOf(s1, t1) == QueryKeyOf(s2, t2) <==> s1.postcodes == s2.postcodes && t1 == t2
  {
  }

  /** What the query left behind: an `Error` with a message, some other thrown value. */
  datatype Thrown = ThrownError(message: string) | ThrownValue

  /** The message the context shows for the query's error; none when there is no error. */
  function ErrorMessage(error: Option<Thrown>): (r: Option<string>)
    ensures r.None? <==> error.None?
    ensures error.Some? && error.value.ThrownError? ==> r == Some(error.value.message)
    ensures error == Some(ThrownValue) ==> r == Some("An error occurred")
  {
    match error
    case None => None
    case Some(ThrownError(m)) => Some(m)
    case Some(ThrownValue) => Some("An error occurred")
  }

  /** The error a query result leaves: the pipeline throws an `Error`. */
  function QueryError(r: Result<QueryData, string>): Option<Thrown> {
    if r.Failure? then Some(ThrownError(r.error)) else None
  }

  /** A failed search shows "No valid postcodes provided"; a successful one clears the error. */
  lemma QueryErrorMessage(postcodes: seq<string>, dateFrom: string, dateTo: string,
                          get: string -> ApiService.HttpOutcome<ApiService.LookupBody>, parseFloat: string -> real,
                          fetch: CrimeApi.Fetcher, formatDate: string -> string)
    ensures var r := QueryFn(postcodes, dateFrom, dateTo, get, parseFloat, fetch, formatDate);
      ErrorMessage(QueryError(r)) == if r.Failure? then Some(NoValidPostcodes) else None
  {
  }
}
