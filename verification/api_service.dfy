/** The low-level service over the two HTTP APIs (src/services/api.ts):
    error classification, normalisation of a postcode lookup response, the
    crime fetch, and the batch lookup that keeps only successes. The HTTP
    GET itself is an oracle: callers pass in what each request produced. */
module ApiService {
  import opened Wrappers
  import opened Types
  import opened Text

  /** The HTTP response attached to a failed request; `dataError` is the
      `error` field of its body, if any. */
  datatype ErrorResponse = ErrorResponse(dataError: Option<string>, status: int, statusText: string)

  /** A caught error: an HTTP client error that got a response, or whose
      request was sent without a response, or a plain `Error` with neither. */
  datatype CaughtError = CaughtError(response: Option<ErrorResponse>, requestSent: bool, message: string)

  /** What one HTTP GET produced. */
  datatype HttpOutcome<T> = Responded(body: T) | RequestFailed(error: CaughtError)

  /** The `data` object of a lookup response; optional fields may be absent. */
  datatype RawPostcodeData = RawPostcodeData(
    postcode: string,
    latitude: string,
    longitude: string,
    status: Option<string>,
    usertype: Option<string>,
    easting: Option<int>,
    northing: Option<int>,
    positionalQualityIndicator: Option<int>,
    country: Option<string>,
    postcodeNoSpace: Option<string>,
    postcodeFixedWidthSeven: Option<string>,
    postcodeFixedWidthEight: Option<string>,
    postcodeArea: Option<string>,
    postcodeDistrict: Option<string>,
    postcodeSector: Option<string>,
    outcode: Option<string>,
    incode: Option<string>)

  /** A lookup response body: `status` is "match" when the postcode exists. */
  datatype LookupBody = LookupBody(status: string, data: RawPostcodeData)

  const NetworkErrorMessage := "Network error - please check your connection"

  /** A plain `Error` raised by the service's own code. */
  function PlainError(message: string): CaughtError {
    CaughtError(None, false, message)
  }

  /** JavaScript's `n || 0` on an optional number. */
  function IntOrZero(o: Option<int>): int {
    if o.Some? then o.value else 0
  }

  /** Classifies a caught error: a response's own status, no response at
      all (status 0, NETWORK_ERROR), or anything else (status 0,
      UNKNOWN_ERROR). The message is never empty. */
  function HandleError(e: CaughtError): (r: ApiError)
    ensures |r.message| > 0
    ensures e.response.Some? ==>
      && r.status == e.response.value.status
      && r.code == e.response.value.statusText
      && r.message == (if e.response.value.dataError.Some? && e.response.value.dataError.value != ""
                       then e.response.value.dataError.value else "API request failed")
    ensures e.response.None? ==> r.status == 0
    ensures e.response.None? && e.requestSent ==>
      r.message == NetworkErrorMessage && r.code == "NETWORK_ERROR"
    ensures e.response.None? && !e.requestSent ==>
      r.code == "UNKNOWN_ERROR" && r.message == (if e.message != "" then e.message else "An unexpected error occurred")
  {
    if e.response.Some? then
      ApiError(OrElse(e.response.value.dataError, "API request failed"),
               e.response.value.status, e.response.value.statusText)
    else if e.requestSent then
      ApiError(NetworkErrorMessage, 0, "NETWORK_ERROR")
    else
      ApiError(OrElse(Some(e.message), "An unexpected error occurred"), 0, "UNKNOWN_ERROR")
  }

  /** The three classes are told apart by `code` and `status` alone, as
      long as the server's own status is not 0. */
  lemma HandleErrorClassification(e: CaughtError)
    requires e.response.Some? ==> e.response.value.status != 0
    ensures HandleError(e).status == 0 <==> e.response.None?
    ensures e.response.None? ==>
      (HandleError(e).code == "NETWORK_ERROR" <==> e.requestSent)
    ensures e.response.Some? && e.response.value.dataError.Some? && e.response.value.dataError.value != "" ==>
      HandleError(e).message == e.response.value.dataError.value
  {
  }

  /** The normalised record for a "match" response: postcode and
      coordinates copied verbatim, every missing or falsy optional field
      replaced by its default. */
  function NormalisePostcodeData(d: RawPostcodeData): (r: PostcodeData)
    ensures r.postcode == d.postcode && r.latitude == d.latitude && r.longitude == d.longitude
    ensures r.status == (if Truthy(d.status) then d.status.value else "live")
    ensures r.usertype == (if Truthy(d.usertype) then d.usertype.value else "small")
    ensures r.country == (if Truthy(d.country) then d.country.value else "England")
    ensures r.easting == (if d.easting.Some? then d.easting.value else 0)
    ensures r.northing == (if d.northing.Some? then d.northing.value else 0)
    ensures r.positionalQualityIndicator ==
      (if d.positionalQualityIndicator.Some? then d.positionalQualityIndicator.value else 0)
    ensures r.postcodeNoSpace == (if Truthy(d.postcodeNoSpace) then d.postcodeNoSpace.value else RemoveSpaces(d.postcode))
    ensures !Truthy(d.postcodeNoSpace) ==> NoSpace(r.postcodeNoSpace)
    ensures r.postcodeFixedWidthSeven ==
      (if Truthy(d.postcodeFixedWidthSeven) then d.postcodeFixedWidthSeven.value else d.postcode)
    ensures r.postcodeFixedWidthEight ==
      (if Truthy(d.postcodeFixedWidthEight) then d.postcodeFixedWidthEight.value else d.postcode)
    ensures r.postcodeArea == (if Truthy(d.postcodeArea) then d.postcodeArea.value else "")
    ensures r.postcodeDistrict == (if Truthy(d.postcodeDistrict) then d.postcodeDistrict.value else "")
    ensures r.postcodeSector == (if Truthy(d.postcodeSector) then d.postcodeSector.value else "")
    ensures r.outcode == (if Truthy(d.outcode) then d.outcode.value else "")
    ensures r.incode == (if Truthy(d.incode) then d.incode.value else "")
    ensures r.status != "" && r.usertype != "" && r.country != ""
  {
    PostcodeData(
      postcode := d.postcode,
      status := OrElse(d.status, "live"),
      usertype := OrElse(d.usertype, "small"),
      easting := IntOrZero(d.easting),
      northing := IntOrZero(d.northing),
      positionalQualityIndicator := IntOrZero(d.positionalQualityIndicator),
      country := OrElse(d.country, "England"),
      latitude := d.latitude,
      longitude := d.longitude,
      postcodeNoSpace := OrElse(d.postcodeNoSpace, RemoveSpaces(d.postcode)),
      postcodeFixedWidthSeven := OrElse(d.postcodeFixedWidthSeven, d.postcode),
      postcodeFixedWidthEight := OrElse(d.postcodeFixedWidthEight, d.postcode),
      postcodeArea := OrElse(d.postcodeArea, ""),
      postcodeDistrict := OrElse(d.postcodeDistrict, ""),
      postcodeSector := OrElse(d.postcodeSector, ""),
      outcode := OrElse(d.outcode, ""),
      incode := OrElse(d.incode, ""))
  }

  /** A normalised record written back as a response with every field present. */
  function AsRaw(p: PostcodeData): RawPostcodeData {
    RawPostcodeData(
      p.postcode, p.latitude, p.longitude, Some(p.status), Some(p.usertype),
      Some(p.easting), Some(p.northing), Some(p.positionalQualityIndicator),
      Some(p.country), Some(p.postcodeNoSpace), Some(p.postcodeFixedWidthSeven),
      Some(p.postcodeFixedWidthEight), Some(p.postcodeArea), Some(p.postcodeDistrict),
      Some(p.postcodeSector), Some(p.outcode), Some(p.incode))
  }

  predicate Truthy(o: Option<string>) {
    o.Some? && o.value != ""
  }

  /** Every optional field is present and truthy. */
  predicate Complete(d: RawPostcodeData) {
    && Truthy(d.status) && Truthy(d.usertype) && Truthy(d.country)
    && d.easting.Some? && d.northing.Some? && d.positionalQualityIndicator.Some?
    && Truthy(d.postcodeNoSpace) && Truthy(d.postcodeFixedWidthSeven) && Truthy(d.postcodeFixedWidthEight)
    && Truthy(d.postcodeArea) && Truthy(d.postcodeDistrict) && Truthy(d.postcodeSector)
    && Truthy(d.outcode) && Truthy(d.incode)
  }

  /** Defaults only fill gaps: a complete response is kept field for field. */
  lemma NormaliseKeepsCompleteData(d: RawPostcodeData)
    requires Complete(d)
    ensures AsRaw(NormalisePostcodeData(d)) == d
  {
  }

  /** Normalising is idempotent: a normalised record fed back through the
      mapping comes out unchanged, because every default is itself a
      fixed point of the defaulting rule. */
  lemma NormaliseIdempotent(d: RawPostcodeData)
    ensures NormalisePostcodeData(AsRaw(NormalisePostcodeData(d))) == NormalisePostcodeData(d)
  {
  }

  /** `validatePostcode`: a "match" body becomes status 200 with the
      normalised data; any other body becomes the UNKNOWN_ERROR "Postcode
      not found"; a failed request is classified by `HandleError`. */
  function ValidatePostcode(outcome: HttpOutcome<LookupBody>): (r: Result<PostcodeResponse, ApiError>)
    ensures r.Success? <==> outcome.Responded? && outcome.body.status == "match"
    ensures r.Success? ==>
      && r.value.status == 200
      && r.value.result.postcode == outcome.body.data.postcode
      && r.value.result.latitude == outcome.body.data.latitude
      && r.value.result.longitude == outcome.body.data.longitude
    ensures outcome.Responded? && outcome.body.status != "match" ==>
      r == Failure(ApiError("Postcode not found", 0, "UNKNOWN_ERROR"))
    ensures outcome.RequestFailed? ==> r == Failure(HandleError(outcome.error))
  {
    match outcome
    case RequestFailed(e) => Failure(HandleError(e))
    case Responded(body) =>
      if body.status == "match" then
        Success(PostcodeResponse(200, NormalisePostcodeData(body.data)))
      else
        Failure(HandleError(PlainError("Postcode not found")))
  }

  /** `getCrimeData`: the response array, or the classified error. */
  function GetCrimeData(outcome: HttpOutcome<seq<CrimeData>>): (r: Result<seq<CrimeData>, ApiError>)
    ensures r.Success? <==> outcome.Responded?
    ensures r.Success? ==> r.value == outcome.body
  {
    match outcome
    case Responded(crimes) => Success(crimes)
    case RequestFailed(e) => Failure(HandleError(e))
  }

  /** The response for one postcode if its lookup succeeded. */
  function SuccessOf(postcode: string, get: string -> HttpOutcome<LookupBody>): seq<PostcodeResponse>
  {
    match ValidatePostcode(get(postcode))
    case Success(v) => [v]
    case Failure(_) => []
  }

  /** `validateMultiplePostcodes`: only the successful lookups, in input order. */
  function ValidateMultiplePostcodes(postcodes: seq<string>, get: string -> HttpOutcome<LookupBody>)
    : (r: seq<PostcodeResponse>)
    ensures |r| <= |postcodes|
    ensures forall x :: x in r ==> x.status == 200
    ensures forall x :: x in r ==> exists p :: p in postcodes && ValidatePostcode(get(p)) == Success(x)
    ensures |r| == |postcodes| <==> forall p :: p in postcodes ==> ValidatePostcode(get(p)).Success?
  {
    if |postcodes| == 0 then []
    else
      var rest := ValidateMultiplePostcodes(postcodes[1..], get);
      assert forall p :: p in postcodes <==> p == postcodes[0] || p in postcodes[1..] by {
        assert postcodes == [postcodes[0]] + postcodes[1..];
      }
      SuccessOf(postcodes[0], get) + rest
  }

  /** Results of a concatenated input are the concatenated results: input
      order is preserved and no lookup affects another. */
  lemma {:induction false} ValidateMultipleAppend(a: seq<string>, b: seq<string>, get: string -> HttpOutcome<LookupBody>)
    ensures ValidateMultiplePostcodes(a + b, get) == ValidateMultiplePostcodes(a, get) + ValidateMultiplePostcodes(b, get)
  {
    if |a| > 0 {
      assert (a + b)[0] == a[0];
      assert (a + b)[1..] == a[1..] + b;
      ValidateMultipleAppend(a[1..], b, get);
    } else {
      assert a + b == b;
    }
  }
}
