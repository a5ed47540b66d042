# Crime dashboard core, modelled in Dafny

The dashboard takes a list of UK postcodes and a month range from the
user. It resolves each postcode to coordinates through a postcode lookup
service and fetches street-level crimes month by month for every valid
postcode. The results are shown as a summary, two charts, a sortable and
filterable table, and a map of markers grouped by location. Search state
(postcodes, dates, recent searches) lives in a context, and postcodes and
dates are mirrored into the page's query parameters.

This project models the pure logic under the user interface as Dafny
functions over immutable datatypes. Each module follows one source file:

- `Types` holds the records of `src/types/*.ts`.
- `ApiService` (`src/services/api.ts`) covers error classification, the lookup-response mapping with its defaults, and the success-only batch lookup.
- `PostcodeApi` (`src/services/postcodeApi.ts`) covers postcode formatting and input parsing, the resolution of one postcode to a search result, and the order-preserving batch settle mapping.
- `CrimeApi` (`src/services/crimeApi.ts`) covers fetching and enriching crimes per valid postcode, statistics, filtering and unique values.
- `CrimeQuery` (`src/hooks/useCrimeData.ts`) covers month-range expansion, the search pipeline, the query key and the error message.
- `SearchContext` (`src/contexts/SearchContext.tsx`) covers the reducer, the trigger counter, the recent-search history, and reading and writing the query parameters.
- `SearchBar`, `CrimeTable`, `CrimeMap` and `Charts` cover the decision logic of the corresponding components.
- `Text`, `Seqs`, `Sorting` and `Wrappers` are the string, sequence, stable-sort and option/result building blocks these rest on.

The two network services become function parameters:

- `get` answers a postcode lookup with a response body or a failed request.
- `fetch` answers a crime request for coordinates and a month.

`parseFloat` and the locale date formatter are function parameters too. A month
`YYYY-MM` is the integer `year * 12 + month - 1`. A breakdown of counts
(`Record<string, number>` in the source) is a sequence of name/count
entries in first-insertion order, the order `Object.entries` gives for
non-numeric keys.

## Model

| member | source | states |
|---|---|---|
| ApiService.HandleError | src/services/api.ts:23-43 | With a response: that status, its statusText as code, and the message is data.error when that is non-empty and "API request failed" otherwise. Request sent, no response: "Network error - please check your connection", status 0, NETWORK_ERROR. Otherwise: the error's own message when non-empty and "An unexpected error occurred" otherwise, status 0, UNKNOWN_ERROR. |
| ApiService.HandleErrorClassification | src/services/api.ts:23-43 | Status 0 exactly when there was no response (responses carry a non-zero status). Without a response, the code is NETWORK_ERROR exactly when the request was sent. A non-empty data.error is reported verbatim. |
| ApiService.NormalisePostcodeData | src/services/api.ts:58-76 | Missing or empty fields take their defaults: status "live", usertype "small", country "England", 0 for easting, northing and quality, "" for area, district, sector, outcode and incode. The no-space form defaults to the postcode with whitespace removed, and both fixed-width forms default to the postcode. |
| ApiService.NormaliseKeepsCompleteData | src/services/api.ts:58-76 | A response with every optional field present and truthy is kept field for field. |
| ApiService.NormaliseIdempotent | src/services/api.ts:58-76 | Normalising an already normalised record changes nothing. |
| ApiService.ValidatePostcode | src/services/api.ts:45-85 | Succeeds exactly for a "match" response, with status 200 and postcode, latitude and longitude copied. Any other status fails with "Postcode not found", 0, UNKNOWN_ERROR. A failed request fails with its classified error. |
| ApiService.GetCrimeData | src/services/api.ts:87-104 | Succeeds exactly when the request answered, returning the body unchanged. |
| ApiService.ValidateMultiplePostcodes | src/services/api.ts:106-121 | Only successful lookups, each the response of some input. The result has at most as many entries as inputs, and exactly as many when every lookup succeeds. |
| ApiService.ValidateMultipleAppend | src/services/api.ts:106-121 | The batch of a concatenation is the concatenation of the batches, so successes keep input order. |
| PostcodeApi.FormatPostcode | src/services/postcodeApi.ts:46-48 | The result has no whitespace and no lower-case letter, is no longer than the input, and has a comma iff the input does. |
| PostcodeApi.FormatFixedPoints | src/services/postcodeApi.ts:46-48 | Formatting leaves a string unchanged iff it is already whitespace-free and upper-case. |
| PostcodeApi.FormatIdempotent | src/services/postcodeApi.ts:46-48 | Formatting twice is formatting once. |
| PostcodeApi.FormatPostcodeAppend | src/services/postcodeApi.ts:46-48 | Formatting works character by character: the format of a concatenation is the concatenation of the formats. |
| PostcodeApi.FormatPostcodeChar | src/services/postcodeApi.ts:47 | A whitespace character formats to nothing; any other character to its upper-case form. |
| PostcodeApi.FormatSpaceFree | src/services/postcodeApi.ts:47 | Text without whitespace formats to its upper-cased self. |
| PostcodeApi.FormatDropsSpace | src/services/postcodeApi.ts:47 | A space between two parts is dropped and the parts are formatted on their own. |
| PostcodeApi.FormatWord | src/services/postcodeApi.ts:47 | A whitespace-free word formats to the text holding the upper-case form of each of its characters. |
| PostcodeApi.FormatExample | src/services/postcodeApi.ts:46-48 | "sw1a 1aa" formats to "SW1A1AA". |
| PostcodeApi.FormatSpacedExample | src/services/postcodeApi.ts:46-48 | " m1 1aa" formats to "M11AA". |
| PostcodeApi.FormatOfTrim | src/services/postcodeApi.ts:53 | Trimming before formatting changes nothing, since formatting drops all whitespace. |
| PostcodeApi.ParseSegment | src/services/postcodeApi.ts:53-54 | A comma segment yields one postcode exactly when formatting the trimmed segment leaves text, and that postcode is that text; otherwise it yields nothing. |
| PostcodeApi.ParseSegmentFormats | src/services/postcodeApi.ts:53-54 | A segment yields its format when that is non-empty and nothing otherwise, whatever whitespace surrounds it. |
| PostcodeApi.SegmentParses | src/services/postcodeApi.ts:52-53 | One parse per comma segment, in order, the i-th being the parse of the i-th segment. |
| PostcodeApi.ParseSegments | src/services/postcodeApi.ts:52-54 | The kept postcodes are never more than the segments. |
| PostcodeApi.ParseSegmentsIsFlatten | src/services/postcodeApi.ts:52-54 | Mapping then filtering the empty results is the concatenation of the per-segment parses. |
| PostcodeApi.ParseSegmentsAppend | src/services/postcodeApi.ts:52-54 | The parse of two runs of segments is the parse of the first followed by the parse of the second. |
| PostcodeApi.ParsePostcodeInput | src/services/postcodeApi.ts:50-55 | The result is the concatenation, in segment order, of the parses of the comma segments; every postcode in it is non-empty, formatted and comma-free, and there are at most (number of commas + 1). |
| PostcodeApi.ParseInputSingle | src/services/postcodeApi.ts:50-55 | Input without a comma is a single segment. |
| PostcodeApi.ParseInputComma | src/services/postcodeApi.ts:50-55 | The parse of input whose first comma follows `a` is the parse of `a` followed by the parse of the rest. |
| PostcodeApi.ParseExample | src/services/postcodeApi.ts:50-55 | "sw1a 1aa, , m1 1aa" parses to ["SW1A1AA", "M11AA"]: the empty middle segment is dropped. |
| PostcodeApi.ParsedPostcodesWellFormed | src/services/postcodeApi.ts:50-55 | Every parsed postcode is non-empty, whitespace-free, upper-case and comma-free. There are at most (number of commas + 1) of them. |
| PostcodeApi.ParseSegmentIgnoresSpace | src/services/postcodeApi.ts:53 | A leading space in a segment does not change what it parses to. |
| PostcodeApi.ParseOfJoin | src/services/postcodeApi.ts:50-55 | Joining well-formed postcodes with ", " and parsing gives back the same list, in order. |
| PostcodeApi.ParseRoundTrip | src/services/postcodeApi.ts:50-55 | Parsing the ", "-join of a parse reproduces that parse. |
| PostcodeApi.InvalidResult | src/services/postcodeApi.ts:15-20 | The sentinel is invalid and carries the raw input postcode. |
| PostcodeApi.ValidatePostcode | src/services/postcodeApi.ts:5-22 | Valid exactly when the lookup succeeded, then with the response's postcode and parsed coordinates. Otherwise it is the invalid sentinel for the raw input. |
| PostcodeApi.ValidateMultiplePostcodes | src/services/postcodeApi.ts:24-44 | One result per input in input order. A fulfilled entry is its value, and a rejected entry at index i is the sentinel carrying postcodes[i]. |
| PostcodeApi.Resolve | src/hooks/useCrimeData.ts:50-52 | A postcode resolves valid exactly when its lookup answered "match", then with the looked-up postcode and parsed coordinates; otherwise it is the invalid sentinel for the input. |
| PostcodeApi.ResolveAll | src/hooks/useCrimeData.ts:50-52 | One resolution per input, in input order, each the resolution of that input alone. |
| PostcodeApi.ResolveAllPointwise | src/hooks/useCrimeData.ts:50-52 | The i-th resolution is valid iff the lookup of the i-th postcode matched, and then carries the looked-up postcode. Otherwise it is the sentinel for that input. |
| CrimeApi.Contribution | src/services/crimeApi.ts:16-36 | A failed request contributes nothing. Otherwise one row per fetched crime, in response order: the crime unchanged, the resolution's postcode, the street name and the formatted month. |
| CrimeApi.GetCrimeDataForPostcodes | src/services/crimeApi.ts:6-41 | Every row was fetched for a valid resolution. When no resolution is valid, the result is empty. |
| CrimeApi.GetCrimeDataAppend | src/services/crimeApi.ts:39-40 | The rows for a concatenation of resolutions are the concatenation of their rows, so the output is in resolution order. |
| CrimeApi.GetCrimeDataSingle | src/services/crimeApi.ts:10-36 | A single resolution contributes its fetched rows if valid and nothing otherwise. |
| CrimeApi.GetCrimeDataIgnoresInvalid | src/services/crimeApi.ts:10 | The result depends only on requests made for valid resolutions. |
| CrimeApi.OutcomeLabel | src/services/crimeApi.ts:52 | The outcome's category when present and non-empty. The label is "Unknown" exactly when the outcome is null, empty or literally "Unknown". |
| CrimeApi.BumpProperties | src/services/crimeApi.ts:47 | Counting one more label adds 1 to that label's count and 0 to every other. A new label is appended after the existing names, and the total grows by 1. |
| CrimeApi.Tally | src/services/crimeApi.ts:46-55 | The names are the distinct labels in first-seen order. Each count is the number of occurrences of its label, every count is at least 1, and the counts sum to the number of labels. |
| CrimeApi.CalculateStats | src/services/crimeApi.ts:43-62 | The total is the number of crimes. Category and outcome counts equal their occurrence counts, with "Unknown" for a missing outcome, and each breakdown sums to the total. |
| CrimeApi.FilterCrimes | src/services/crimeApi.ts:64-87 | Keeps a row iff it matches every non-empty filter field. The result is an order-preserving subsequence with each kept row's multiplicity. |
| CrimeApi.FilterNothing | src/services/crimeApi.ts:72-86 | With every filter field empty, filtering is the identity. |
| CrimeApi.FilterCrimesIdempotent | src/services/crimeApi.ts:72-86 | Filtering twice equals filtering once. |
| CrimeApi.UnknownOutcomeFilter | src/services/crimeApi.ts:79-84 | The outcome filter "Unknown" keeps exactly the rows whose outcome is null, empty or "Unknown". |
| CrimeApi.GetUniqueValues | src/services/crimeApi.ts:97-109 | Each list is duplicate-free and contains exactly the postcodes, categories or outcome labels present. |
| CrimeApi.UniqueValuesAreRealised | src/services/crimeApi.ts:97-109 | Selecting any listed non-empty value as a filter leaves at least one row. |
| CrimeQuery.ParseMonth | src/hooks/useCrimeData.ts:11-12 | A bound is accepted iff it has the shape YYYY-MM with a month from 01 to 12. It then denotes month index year*12 + month - 1. |
| CrimeQuery.ParseMonthFields | src/hooks/useCrimeData.ts:16-17 | The year and the month can be read back from a parsed month index. |
| CrimeQuery.MonthKeyRoundTrip | src/hooks/useCrimeData.ts:16-18 | A month key of a four-digit year has seven characters (YYYY-MM, zero-padded month) and parses back to its index. |
| CrimeQuery.MonthKeyOfParse | src/hooks/useCrimeData.ts:16-18 | Printing a parsed bound with a four-digit year gives back the bound's text. |
| CrimeQuery.MonthsBetween | src/hooks/useCrimeData.ts:14-20 | index(to) - index(from) + 1 keys for an ordered range, none otherwise. The i-th key is the key of month from + i. |
| CrimeQuery.GetMonthsBetween | src/hooks/useCrimeData.ts:9-23 | An unparsable bound gives no months. Otherwise the result is the ascending month range between the two bounds. |
| CrimeQuery.MonthsBetweenSameMonth | src/hooks/useCrimeData.ts:9-23 | The range from a month to itself is that month alone. |
| CrimeQuery.MonthsBetweenReversed | src/hooks/useCrimeData.ts:15 | A start after the end gives no months. |
| CrimeQuery.MonthsBetweenEnds | src/hooks/useCrimeData.ts:14-20 | An ordered range starts with the start bound's text and ends with the end bound's text. |
| CrimeQuery.MonthsBetweenConsecutive | src/hooks/useCrimeData.ts:14-20 | Every key in the range is a seven-character YYYY-MM that parses to start + i, so the months are consecutive and ascending. |
| CrimeQuery.MonthsBetweenSplit | src/hooks/useCrimeData.ts:14-20 | A range splits at any inner month into two adjacent ranges. |
| CrimeQuery.GetMonthsBetweenLocal | src/hooks/useCrimeData.ts:9-23 | The loop as written on local-time dates: an unparsable bound gives no months. |
| CrimeQuery.LocalMonthsFromCharacterised | src/hooks/useCrimeData.ts:14-20 | The local-time loop walks consecutive months and stops at the end month, or one month earlier when its time of day has passed the end bound's. |
| CrimeQuery.LocalRangeCharacterised | src/hooks/useCrimeData.ts:9-23 | The local loop gives the months from start to end, minus the end month when the start month's UTC offset is larger than the end month's. |
| CrimeQuery.LocalRangeAgreesWithoutOffsetDrop | src/hooks/useCrimeData.ts:9-23 | Unless the offset shrinks between the bounds, the loop as written agrees with the month-index range. |
| CrimeQuery.LocalRangeDropsEndMonth | src/hooks/useCrimeData.ts:14-19 | When the offset shrinks between the bounds, the loop as written returns one month fewer and misses the end month, while the month-index range ends with it. |
| CrimeQuery.LondonSummerToWinterDropsLastMonth | src/hooks/useCrimeData.ts:14-19 | With London's 2024 offsets, "2024-07".."2024-12" gives 6 months by index but 5 from the loop as written, without "2024-12". |
| CrimeQuery.QueryFn | src/hooks/useCrimeData.ts:44-74 | No postcodes gives empty data. The query fails, with "No valid postcodes provided", exactly when postcodes were given and none resolves valid. On success every valid resolution is reported in input order, and every crime belongs to a reported postcode. |
| CrimeQuery.QueryWithoutPostcodes | src/hooks/useCrimeData.ts:45-47 | With no postcodes the result does not depend on the dates, the lookup or the crime service. |
| CrimeQuery.QueryWithoutValidPostcodes | src/hooks/useCrimeData.ts:53-57 | If no postcode resolves valid, the query fails whatever the dates and the crime service. |
| CrimeQuery.MonthResults | src/hooks/useCrimeData.ts:65-71 | One batch per month, each the crimes of the valid resolutions for that month. |
| CrimeQuery.FetchMonthsIsFlatten | src/hooks/useCrimeData.ts:63-71 | The accumulated crimes are the per-month batches concatenated in month order. |
| CrimeQuery.QueryMonthsConcatenate | src/hooks/useCrimeData.ts:65-71 | The crimes of a month range are those of its first part followed by those of the rest. |
| CrimeQuery.FetchMonthsFromValid | src/hooks/useCrimeData.ts:65-71 | Every accumulated crime carries the postcode of a valid resolution. |
| CrimeQuery.QueryRows | src/hooks/useCrimeData.ts:60-73 | A successful query returns the valid resolutions and the concatenation of per-month batches over the month range. |
| CrimeQuery.QuerySingleMonth | src/hooks/useCrimeData.ts:60-73 | A one-month range returns exactly that month's crimes for the valid resolutions. |
| CrimeQuery.SingleSearchScenario | src/hooks/useCrimeData.ts:44-74 | A matching postcode whose area has three crimes in January 2024 gives three rows, all for that postcode, and a total of 3. |
| CrimeQuery.QueryKeyIdentifies | src/hooks/useCrimeData.ts:43 | Two states share a query key iff postcodes and trigger agree; the dates are not part of it. |
| CrimeQuery.EnabledIffWork | src/hooks/useCrimeData.ts:44-75 | The query is disabled exactly when its function answers the empty result, so an enabled query always looks something up. |
| CrimeQuery.ErrorMessage | src/hooks/useCrimeData.ts:93-100 | An Error shows its message, a non-Error shows "An error occurred", and no error clears the message. |
| CrimeQuery.QueryErrorMessage | src/hooks/useCrimeData.ts:93-100 | A failed search shows "No valid postcodes provided", and a successful one clears the error. |
| SearchContext.ApplyQuery | src/hooks/useCrimeData.ts:80-100 | Success replaces crimes and valid postcodes, and failure keeps them. The error shown is the query's error message. History, trigger and postcodes are untouched. |
| SearchContext.Reduce | src/contexts/SearchContext.tsx:52-67 | Each action replaces exactly its own field and leaves the other four unchanged. |
| SearchContext.ReduceAlgebra | src/contexts/SearchContext.tsx:52-67 | Dispatching an action twice is dispatching it once. Actions on different fields commute, and a later action on the same field wins. |
| SearchContext.InitialStateQueriesNothing | src/contexts/SearchContext.tsx:40-50 | The initial state has no postcodes, so the query is disabled, and its range is the default month alone. |
| SearchContext.TriggerSearch | src/contexts/SearchContext.tsx:230-232 | The trigger grows by exactly 1, and nothing else changes. |
| SearchContext.TriggerSearchRefetches | src/contexts/SearchContext.tsx:230-232 | A triggered search always has a new query key, and differs from the old provider only in the trigger. |
| SearchContext.AddToHistory | src/contexts/SearchContext.tsx:184-198 | The new entry comes first, with the search's dateFrom. No older entry for that postcode remains, and the survivors are a subsequence of the old list. The length is between 1 and 10. |
| SearchContext.AddToHistoryDistinct | src/contexts/SearchContext.tsx:193-194 | A history without repeated postcodes stays without them. |
| SearchContext.AddExistingDoesNotGrow | src/contexts/SearchContext.tsx:193-194 | Re-adding a postcode already present does not lengthen the history. |
| SearchContext.RemoveUndoesAdd | src/contexts/SearchContext.tsx:184-204 | Adding then removing a postcode leaves the old history without it, cut to 9 entries. |
| SearchContext.AddToHistoryKeepsOld | src/contexts/SearchContext.tsx:193-196 | Every entry after the first was already in the history. |
| SearchContext.AddAllDistinct | src/contexts/SearchContext.tsx:184-198 | Adding distinct postcodes one by one leaves the last ten, most recent first. |
| SearchContext.AddFreshToHistory | src/contexts/SearchContext.tsx:184-198 | A new postcode goes in front of the old postcodes, cut to ten. |
| SearchContext.RemoveFromHistory | src/contexts/SearchContext.tsx:200-204 | Removes exactly the entries for that postcode. Every other entry keeps its multiplicity and relative order. |
| SearchContext.RemoveFromHistoryShrinks | src/contexts/SearchContext.tsx:200-204 | The history gets shorter iff the postcode was in it. |
| SearchContext.ClearHistory | src/contexts/SearchContext.tsx:206-208 | The history becomes empty. |
| SearchContext.TrimAll | src/contexts/SearchContext.tsx:114-117 | Each comma part is trimmed in place; nothing is dropped or upper-cased. |
| SearchContext.ReadParams | src/contexts/SearchContext.tsx:105-133 | A non-empty `postcodes` becomes its trimmed comma parts. Each date comes from its own parameter, else from the legacy `date`, else stays at its default. Loading and error are untouched. |
| SearchContext.SetOrDelete | src/contexts/SearchContext.tsx:148-175 | A truthy value is set and an empty one deletes the parameter. Every other parameter is unchanged. |
| SearchContext.WriteParams | src/contexts/SearchContext.tsx:135-182 | Nothing is written iff every parameter already has its wanted value. A write sets the comma-joined postcodes or deletes them when the list is empty. It sets or deletes each date, always removes the legacy `date` and keeps unrelated parameters. |
| SearchContext.AfterWriteHolds | src/contexts/SearchContext.tsx:135-182 | After the write, every parameter holds its wanted value. |
| SearchContext.ParamsRoundTrip | src/contexts/SearchContext.tsx:115-175 | Reading back the written parameters restores the postcodes and both dates from any starting state. This needs a non-empty list of trimmed, comma-free postcodes and non-empty dates. |
| SearchContext.WriteParamsSettles | src/contexts/SearchContext.tsx:135-182 | A second write right after a write changes nothing. |
| SearchBar.Validate | src/components/SearchBar/SearchBar.tsx:37-49 | Shows "Please enter at least one valid postcode" iff the input is not blank and parses to nothing. |
| SearchBar.Decide | src/components/SearchBar/SearchBar.tsx:51-64 | Blank input is rejected with "Please enter at least one postcode". Unparsable input is rejected with "Please enter at least one valid postcode". Otherwise the parse is accepted, and it is non-empty. |
| SearchBar.DecideAcceptsParsable | src/components/SearchBar/SearchBar.tsx:37-64 | A search is accepted iff the input parses to at least one postcode. The live validation agrees with the submit decision on every non-blank input. |
| SearchBar.BlankParsesToNothing | src/components/SearchBar/SearchBar.tsx:52-61 | Blank input parses to no postcodes. |
| SearchBar.Submit | src/components/SearchBar/SearchBar.tsx:51-64 | A rejection sets the message and leaves the search unchanged. An acceptance sets postcodes to the parse and changes nothing else. |
| SearchBar.Resync | src/components/SearchBar/SearchBar.tsx:32-35 | The input text becomes the postcodes joined with ", ", which for well-formed postcodes parses back to exactly those postcodes. The validation error is kept. |
| SearchBar.ResyncAfterSubmit | src/components/SearchBar/SearchBar.tsx:32-64 | After a submitted search, the resynced text parses to the same postcodes, shows no error and would submit the same search. |
| SearchBar.SubmittedSearchSurvivesReload | src/components/SearchBar/SearchBar.tsx:51-64 | A submitted search, written to the parameters and read back, restores its postcodes and dates. |
| SearchBar.ChangeDate | src/components/SearchBar/SearchBar.tsx:71-85 | Sets only the chosen date. It adds one to the trigger iff postcodes are present. |
| SearchBar.ChangeDateRequeries | src/components/SearchBar/SearchBar.tsx:71-85 | A date change produces a new query key iff the query is enabled. |
| CrimeTable.Compare | src/components/CrimeTable/CrimeTable.tsx:19-29 | A missing value ties. Otherwise the result is 0 iff the values are equal, and its sign follows string order, reversed for descending. |
| CrimeTable.CompareAntisymmetric | src/components/CrimeTable/CrimeTable.tsx:24-27 | Swapping the operands negates the comparison. |
| CrimeTable.BeforeMeaning | src/components/CrimeTable/CrimeTable.tsx:21-28 | One row may precede another iff their column values are in order for the direction. |
| CrimeTable.BeforeIsTotalPreorder | src/components/CrimeTable/CrimeTable.tsx:21-28 | That ordering is total and transitive for every column and direction. |
| CrimeTable.SortedCrimes | src/components/CrimeTable/CrimeTable.tsx:19-29 | The shown rows are a permutation of the filtered crimes. |
| CrimeTable.SortedCrimesOrdered | src/components/CrimeTable/CrimeTable.tsx:19-29 | Shown rows are non-decreasing by the sort column ascending, and non-increasing descending. |
| CrimeTable.SortedCrimesStable | src/components/CrimeTable/CrimeTable.tsx:19-29 | Rows with equal sort values keep their filtered order. |
| CrimeTable.HandleSort | src/components/CrimeTable/CrimeTable.tsx:41-48 | The current column flips direction, and a new column sorts ascending. Filters are untouched. |
| CrimeTable.HandleSortTwice | src/components/CrimeTable/CrimeTable.tsx:41-48 | Clicking the current header twice restores the table state. |
| CrimeTable.HandleSortForgets | src/components/CrimeTable/CrimeTable.tsx:41-48 | Clicking two different headers in turn leaves the second column ascending. |
| CrimeTable.HandleFilter | src/components/CrimeTable/CrimeTable.tsx:50-58 | Only the named filter changes, and the sort is untouched. |
| CrimeTable.ClearFilters | src/components/CrimeTable/CrimeTable.tsx:60-62 | All three filters become empty, and the sort is untouched. |
| CrimeTable.ClearFiltersShowsAll | src/components/CrimeTable/CrimeTable.tsx:60-62 | After clearing, the table shows every crime. |
| CrimeTable.ClickFilterKeepsRow | src/components/CrimeTable/CrimeTable.tsx:183-221 | Filtering by a shown row's own value keeps that row, and every remaining row carries that value. |
| CrimeTable.MenuOptions | src/components/CrimeTable/CrimeTable.tsx:31-39 | Outcome options use the "Unknown" fallback, so none is empty. |
| CrimeTable.MenuOptionsFirstSeenOrder | src/components/CrimeTable/CrimeTable.tsx:31-39 | Options are duplicate-free, in order of first occurrence in the crimes. |
| CrimeMap.GroupCrimes | src/components/CrimeMap/CrimeMap.tsx:64-91 | The group keys are the distinct locations in first-seen order. Each group holds exactly the crimes at its key, in input order, and takes its first crime's postcode. |
| CrimeMap.AddCrime | src/components/CrimeMap/CrimeMap.tsx:66-79 | A crime at a known location joins that group and the group count stays; at a new location one group is added, with that key, at the end. Groups at other locations are untouched. |
| CrimeMap.AddCrimeStep | src/components/CrimeMap/CrimeMap.tsx:66-89 | Adding one more crime to a correct grouping keeps it correct. |
| CrimeMap.GroupsPartition | src/components/CrimeMap/CrimeMap.tsx:64-91 | A crime is in a group iff it has that group's location. Every crime has a group, and no two groups share a location. |
| CrimeMap.GroupSizesSum | src/components/CrimeMap/CrimeMap.tsx:64-91 | Group sizes sum to the number of crimes. |
| CrimeMap.SameGroupIffSameLocation | src/components/CrimeMap/CrimeMap.tsx:67 | Equal coordinates give equal keys, and for comma-free latitudes equal keys mean equal coordinates. |
| CrimeMap.PopupOutcome | src/components/CrimeMap/CrimeMap.tsx:129 | The outcome category when present and non-empty, otherwise "Unknown outcome". |
| CrimeMap.PopupOf | src/components/CrimeMap/CrimeMap.tsx:112-142 | A popup lists the first min(10, n) crimes of its group. "n-10 more" is shown iff n > 10, and together they account for every crime. |
| CrimeMap.Popups | src/components/CrimeMap/CrimeMap.tsx:112-142 | One popup per group, in group order. |
| CrimeMap.View | src/components/CrimeMap/CrimeMap.tsx:52-62 | The no-data alert is shown iff there are no crimes. |
| CrimeMap.ViewMarkers | src/components/CrimeMap/CrimeMap.tsx:64-142 | With crimes, there is one non-empty marker per distinct location, and the markers cover every crime. |
| Charts.Ranked | src/components/CrimeOverview/CategoryChart.tsx:30 | Ranking is a permutation of the entries. |
| Charts.RankedNonIncreasing | src/components/CrimeOverview/CategoryChart.tsx:30 | Ranked counts are non-increasing. |
| Charts.RankedStable | src/components/CrimeOverview/CategoryChart.tsx:30 | Entries with equal counts keep their original order. |
| Charts.OutcomeChartData | src/components/CrimeOverview/OutcomeChart.tsx:16-19 | Every entry is shown, as a permutation of the data. |
| Charts.OutcomeChartShowsEveryEntry | src/components/CrimeOverview/OutcomeChart.tsx:16-19 | Outcome slices have non-increasing values and are exactly the data's entries. Each value is data[name], and names are distinct. |
| Charts.CategoryChartData | src/components/CrimeOverview/CategoryChart.tsx:27-31 | Exactly min(10, number of keys) entries, each one of the data. |
| Charts.CategoryChartIsTopTen | src/components/CrimeOverview/CategoryChart.tsx:27-31 | Category slices are non-increasing, and every dropped entry counts no more than any kept one. Kept and dropped together are the data. |
| Charts.CategoryNamesDistinct | src/components/CrimeOverview/CategoryChart.tsx:28-29 | No two category slices name the same key. |
| Charts.SliceColours | src/components/CrimeOverview/CategoryChart.tsx:60-64 | Slice i gets colour i mod 10. |
| Charts.CategoryColoursDistinct | src/components/CrimeOverview/CategoryChart.tsx:14-25 | The ten palette colours differ, so no two category slices share a colour. |
| Charts.CategoryView | src/components/CrimeOverview/CategoryChart.tsx:33-40 | The empty state is shown iff the data has no entries, otherwise the top-ten chart. |
| Charts.OutcomeView | src/components/CrimeOverview/OutcomeChart.tsx:21-28 | The empty state is shown iff the data has no entries, otherwise the full chart. |
| Charts.OutcomeChartOfStats | src/components/CrimeOverview/OutcomeChart.tsx:16-19 | Charting the statistics gives one slice per distinct outcome, its value the number of crimes with that outcome. |
| Charts.CategoryChartOfStats | src/components/CrimeOverview/CategoryChart.tsx:27-31 | Charting the statistics gives min(10, distinct categories) slices with distinct names, each valued at its number of crimes. |
| Text.RemoveSpaces | src/services/postcodeApi.ts:47 | No whitespace remains, and every other character of the input is kept. |
| Text.Upper | src/services/postcodeApi.ts:47 | Same length, each character replaced by its upper-case form, so no lower-case letter remains and whitespace and commas keep their positions. |
| Text.ToUpper | src/services/postcodeApi.ts:47 | A lower-case letter becomes the capital 32 code points below it; every other character is unchanged. |
| Text.UpperAppend | src/services/postcodeApi.ts:47 | Upper-casing a concatenation is concatenating the upper-cased parts. |
| Text.Trim | src/services/postcodeApi.ts:53 | The result has no leading or trailing whitespace and is a slice of the input with only whitespace cut on either side. |
| Text.RemoveSpacesOfTrim | src/services/postcodeApi.ts:53 | Removing whitespace after trimming is removing it without trimming. |
| Text.Split | src/contexts/SearchContext.tsx:115 | Exactly one more part than separators, none holding the separator. |
| Text.SplitJoin | src/contexts/SearchContext.tsx:115-150 | Splitting the join of separator-free parts gives back the parts. |
| Text.SplitNoSeparator | src/services/postcodeApi.ts:52 | Text without the separator splits into itself alone. |
| Text.LexLessTransitive | src/components/CrimeTable/CrimeTable.tsx:25-26 | String order is transitive. |
| Text.LexLessTotal | src/components/CrimeTable/CrimeTable.tsx:25-26 | Of two different strings, one is before the other. |

## Left out

- HTTP transport, axios instances, timeouts and base URLs (`src/services/api.ts:11-21`, `93-99`): the two services are function parameters answering each request with a body or a failure.
- Promise concurrency: `Promise.all` and `Promise.allSettled` are modelled only by their order-preserving result lists.
- CrimeQuery.QueryFn: react-query's caching, `staleTime`, `retry: 2` and refetching (`src/hooks/useCrimeData.ts:76-77`) and the `isLoading` flag (`89-91`) are not modelled. Only the key, the enabled rule and the query function are.
- CrimeQuery.QueryFn: builds its months with the month-index range GetMonthsBetween, the corrected reading of `getMonthsBetween`. The loop as written, on local-time dates, is modelled separately by GetMonthsBetweenLocal (see Findings).
- CrimeQuery.GetMonthsBetweenLocal: covers UTC and zones east of it only (the `EastOfUtc` precondition). West of UTC, `new Date("YYYY-MM-01")` is the previous local day, so the loop shifts every month back; "2024-01".."2024-03" in UTC-5 gives ["2023-12", "2024-01"]. That case is not modelled.
- CrimeQuery.ParseMonth: accepts only the exact shape YYYY-MM. JavaScript's `Date` falls back to a lenient parser for other text (for instance "2024-1"), and dates read from the page's parameters reach it unchecked. Those lenient readings are not modelled.
- CrimeQuery.MonthKeyRoundTrip: years below 1000 print unpadded through `${year}`, so the YYYY-MM shape is stated for four-digit years only.
- Text.Trim: `IsSpace`, `Trim` and the whitespace removal recognise ASCII whitespace only, where JavaScript's `trim` and `\s` also recognise Unicode spaces.
- Text.Upper: upper-cases ASCII letters only, where `toUpperCase` maps all of Unicode.
- Text.LexLess: compares Unicode scalar values. JavaScript's `<` and `>` on strings compare UTF-16 code units, which differ for characters beyond the Basic Multilingual Plane.
- CrimeApi.Tally: keeps names in first-insertion order. `Object.entries` lists integer-like keys first in ascending order, and on a `{}` accumulator the key "constructor" reads the prototype's function rather than 0. Neither quirk is modelled, so the chart order is exact only for non-numeric names other than the prototype's.
- SearchContext.ReadParams: query parameters are a map with one value per name. URLSearchParams allows repeated names, and `get` returns the first; that is not modelled.
- `parseFloat` and the locale date formatter `formatCrimeDate` are function parameters. NaN coordinates are not distinguished.
- The default month from the wall clock is a parameter of the initial state.
- The `isInitializing` ref, effect ordering, localStorage persistence with its JSON fallback, `window.history.replaceState` and the debounce timer are lifecycle and I/O. The debounced input is an argument.
- SearchContext.AddToHistory: none of the modelled files calls `addToHistory`, so the model proves its properties but does not attach it to the search pipeline.
- The resolver passes postcodes to the lookup as given. Postcodes read from the page's parameters are only trimmed, not formatted. The model follows this.
- CrimeMap.SameGroupIffSameLocation: the key `lat + "," + lng` can merge two locations whose latitude contains a comma, so the converse direction requires comma-free latitudes.
- The map centre (a floating-point average), marker coordinates, chart percentage labels and all Leaflet, recharts and react-bootstrap rendering.
- `src/components/CrimeOverview/CrimeOverview.tsx`, `src/components/PostcodeHistory/PostcodeHistory.tsx` and `src/App.tsx` are not part of this model: they present already-modelled results or wire the application together.

## Findings

| source | as written | input that shows it | evidently intended | confidence | as-written member | corrected member |
|---|---|---|---|---|---|---|
| src/hooks/useCrimeData.ts:14-19 | The end bound is UTC midnight of the end month, but the loop steps with local `getMonth`/`setMonth`. When the start month's local offset is larger than the end month's, the cursor reaches the end month at a local time past the bound, and the end month is left out. | In Europe/London, "2024-07".."2024-12": the cursor starts at 1 July 01:00 BST. In December it is 1 December 01:00 GMT, after the bound of 1 December 00:00 UTC, so the months are July to November. | Every month from the start bound to the end bound inclusive. | not executed | CrimeQuery.LondonSummerToWinterDropsLastMonth | CrimeQuery.MonthsBetweenEnds |
