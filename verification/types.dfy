/** The records the dashboard passes around: crime records as the crime-data
    service returns them, the enriched table rows, postcode lookup data and
    results, the search state and the history entries. Numbers that are
    only ever compared or passed on are `int`/`real`; coordinates of crime
    records stay strings as they arrive. */
module Types {
  import opened Wrappers

  datatype Street = Street(id: int, name: string)

  datatype Location = Location(latitude: string, longitude: string, street: Street)

  datatype OutcomeStatus = OutcomeStatus(category: string, date: string)

  /** One street-level crime; `outcomeStatus` is `None` when no outcome is recorded. */
  datatype CrimeData = CrimeData(
    category: string,
    locationType: string,
    location: Location,
    context: string,
    outcomeStatus: Option<OutcomeStatus>,
    persistentId: string,
    id: int,
    locationSubtype: string,
    month: string)

  /** A crime row for display: the fetched record unchanged, plus the postcode
      whose search produced it, a readable month and the flattened street name. */
  datatype CrimeTableData = CrimeTableData(
    crime: CrimeData,
    postcode: string,
    displayDate: string,
    streetName: string)

  /** One `[name, value]` pair of a count-by-label record. */
  datatype Entry = Entry(name: string, value: nat)

  /** A count-by-label record, in the insertion order `Object.entries` reports. */
  type Breakdown = seq<Entry>

  datatype CrimeStats = CrimeStats(
    totalCrimes: nat,
    categoryBreakdown: Breakdown,
    outcomeBreakdown: Breakdown)

  /** Table filters; the empty string means "no constraint", as does an absent field. */
  datatype CrimeFilter = CrimeFilter(postcode: string, category: string, outcome: string)

  /** Postcode details after the lookup response has been normalised. */
  datatype PostcodeData = PostcodeData(
    postcode: string,
    status: string,
    usertype: string,
    easting: int,
    northing: int,
    positionalQualityIndicator: int,
    country: string,
    latitude: string,
    longitude: string,
    postcodeNoSpace: string,
    postcodeFixedWidthSeven: string,
    postcodeFixedWidthEight: string,
    postcodeArea: string,
    postcodeDistrict: string,
    postcodeSector: string,
    outcode: string,
    incode: string)

  datatype PostcodeResponse = PostcodeResponse(status: int, result: PostcodeData)

  /** The outcome of resolving one postcode; when `valid` is false the
      coordinates are the sentinel 0, 0. */
  datatype PostcodeSearchResult = PostcodeSearchResult(
    postcode: string,
    latitude: real,
    longitude: real,
    valid: bool)

  datatype ApiError = ApiError(message: string, status: int, code: string)

  datatype SearchState = SearchState(
    postcodes: seq<string>,
    dateFrom: string,
    dateTo: string,
    isLoading: bool,
    error: Option<string>)

  datatype PostcodeHistoryItem = PostcodeHistoryItem(
    postcode: string,
    searchDate: string,
    timestamp: int)
}
