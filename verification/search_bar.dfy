/** The search bar (src/components/SearchBar/SearchBar.tsx): the decision
    taken when a search is submitted, the validation message shown while
    typing, the rule that a date change re-runs the search, and the
    re-sync of the text box from the context's postcodes. The 300 ms
    debounce is left to the caller: the debounced text is a parameter. */
module SearchBar {
  import opened Wrappers
  import opened Types
  import opened Text
  import PostcodeApi
  import CrimeQuery
  import SearchContext

  const EmptyInputMessage := "Please enter at least one postcode"
  const NoValidInputMessage := "Please enter at least one valid postcode"

  /** The component's own state: the text box and the validation message. */
  datatype Bar = Bar(inputValue: string, validationError: Option<string>)

  /** The text is empty or whitespace only. */
  predicate Blank(text: string) {
    Trim(text) == ""
  }

  /** The message shown for the debounced text while typing: none for blank
      text, one when the text holds no postcode at all, none otherwise. */
  function Validate(debounced: string): (r: Option<string>)
    ensures r.Some? <==> !Blank(debounced) && |PostcodeApi.ParsePostcodeInput(debounced)| == 0
    ensures r.Some? ==> r.value == NoValidInputMessage
  {
    if !Blank(debounced) then
      if |PostcodeApi.ParsePostcodeInput(debounced)| == 0 then Some(NoValidInputMessage) else None
    else None
  }

  /** What `handleSearch` decides for the debounced text. */
  datatype Decision = Reject(message: string) | Accept(postcodes: seq<string>)

  function Decide(debounced: string): (r: Decision)
    ensures r.Reject? && Blank(debounced) ==> r.message == EmptyInputMessage
    ensures r.Reject? && !Blank(debounced) ==> r.message == NoValidInputMessage
    ensures r.Accept? ==> r.postcodes == PostcodeApi.ParsePostcodeInput(debounced) && |r.postcodes| > 0
  {
    if Blank(debounced) then Reject(EmptyInputMessage)
    else
      var parsed := PostcodeApi.ParsePostcodeInput(debounced);
      if |parsed| == 0 then Reject(NoValidInputMessage) else Accept(parsed)
  }

  /** `handleSearch`: a rejection shows its message and leaves the context
      alone; an acceptance sets the context's postcodes and nothing else. */
  function Submit(bar: Bar, p: SearchContext.Provider, debounced: string): (r: (Bar, SearchContext.Provider))
    ensures Decide(debounced).Reject? ==> r == (bar.(validationError := Some(Decide(debounced).message)), p)
    ensures Decide(debounced).Accept? ==>
      && r.0 == bar
      && r.1 == p.(search := p.search.(postcodes := PostcodeApi.ParsePostcodeInput(debounced)))
  {
    match Decide(debounced)
    case Reject(message) => (bar.(validationError := Some(message)), p)
    case Accept(ps) => (bar, p.(search := SearchContext.Reduce(p.search, SearchContext.SetPostcodes(ps))))
  }

  /** Blank text parses to no postcode, so a search is accepted exactly when
      the text holds at least one postcode, and a text the typing check lets
      through is either blank or accepted. */
  lemma DecideAcceptsParsable(debounced: string)
    ensures Decide(debounced).Accept? <==> |PostcodeApi.ParsePostcodeInput(debounced)| > 0
    ensures Validate(debounced).None? <==> Blank(debounced) || Decide(debounced).Accept?
    ensures Decide(debounced).Reject? && !Blank(debounced) ==> Validate(debounced) == Some(Decide(debounced).message)
  {
    if Blank(debounced) {
      BlankParsesToNothing(debounced);
    }
  }

  lemma BlankParsesToNothing(text: string)
    requires Blank(text)
    ensures PostcodeApi.ParsePostcodeInput(text) == []
  {
    var a, b :| 0 <= a <= b <= |text| && Trim(text) == text[a..b] && AllSpace(text[..a]) && AllSpace(text[b..]);
    assert AllSpace(text) by {
      forall i | 0 <= i < |text|
        ensures IsSpace(text[i])
      {
        if i < a {
          assert text[..a][i] == text[i];
        } else {
          assert text[b..][i - b] == text[i];
        }
      }
    }
    assert ',' !in text;
    SplitPrefix(text, "", ',');
    assert text + "" == text;
    assert Split(text, ',') == [text];
    assert PostcodeApi.ParseSegments([text]) == PostcodeApi.ParseSegment(text) + PostcodeApi.ParseSegments([]);
  }

  /** The text box after the context's postcodes change. */
  function Resync(bar: Bar, postcodes: seq<string>): (r: Bar)
    ensures r.inputValue == Join(postcodes, ", ")
    ensures r.validationError == bar.validationError
    ensures (forall i :: 0 <= i < |postcodes| ==> PostcodeApi.IsParsedPostcode(postcodes[i])) ==>
      PostcodeApi.ParsePostcodeInput(r.inputValue) == postcodes
  {
    var text := Join(postcodes, ", ");
    assert (forall i :: 0 <= i < |postcodes| ==> PostcodeApi.IsParsedPostcode(postcodes[i])) ==>
      PostcodeApi.ParsePostcodeInput(text) == postcodes by {
      if forall i :: 0 <= i < |postcodes| ==> PostcodeApi.IsParsedPostcode(postcodes[i]) {
        PostcodeApi.ParseOfJoin(postcodes);
      }
    }
    bar.(inputValue := text)
  }

  /** After an accepted search the text box is re-written from the new
      postcodes; that text parses back to the same postcodes and passes the
      typing check, so the search can be submitted again unchanged. */
  lemma ResyncAfterSubmit(bar: Bar, p: SearchContext.Provider, debounced: string)
    requires Decide(debounced).Accept?
    ensures var (b, q) := Submit(bar, p, debounced);
      var text := Resync(b, q.search.postcodes).inputValue;
      && PostcodeApi.ParsePostcodeInput(text) == q.search.postcodes
      && Validate(text).None?
      && Decide(text) == Decide(debounced)
  {
    PostcodeApi.ParsedPostcodesWellFormed(debounced);
    var ps := PostcodeApi.ParsePostcodeInput(debounced);
    PostcodeApi.ParseOfJoin(ps);
    DecideAcceptsParsable(Join(ps, ", "));
  }

  /** An accepted search survives a reload: once the page's query
      parameters are written from the new state, reading them back yields
      the accepted postcodes and the current dates. */
  lemma SubmittedSearchSurvivesReload(bar: Bar, p: SearchContext.Provider, debounced: string,
                                      params: SearchContext.Params, start: SearchState)
    requires Decide(debounced).Accept?
    requires p.search.dateFrom != "" && p.search.dateTo != ""
    ensures var q := Submit(bar, p, debounced).1;
      var back := SearchContext.ReadParams(SearchContext.AfterWrite(params, q.search), start);
      back.postcodes == q.search.postcodes && back.dateFrom == p.search.dateFrom && back.dateTo == p.search.dateTo
  {
    PostcodeApi.ParsedPostcodesWellFormed(debounced);
    var q := Submit(bar, p, debounced).1;
    var ps := q.search.postcodes;
    assert ps[0] != "";
    forall i | 0 <= i < |ps|
      ensures IsTrimmed(ps[i]) && ',' !in ps[i]
    {
      assert PostcodeApi.IsParsedPostcode(ps[i]);
    }
    SearchContext.ParamsRoundTrip(params, q.search, start);
  }

  datatype DateField = From | To

  /** `handleDateFromChange` / `handleDateToChange`: the chosen date is set,
      and the search re-runs only when there are postcodes to search. */
  function ChangeDate(p: SearchContext.Provider, field: DateField, value: string): (r: SearchContext.Provider)
    ensures field.From? ==> r.search.dateFrom == value && r.search.dateTo == p.search.dateTo
    ensures field.To? ==> r.search.dateTo == value && r.search.dateFrom == p.search.dateFrom
    ensures r.search.postcodes == p.search.postcodes
    ensures r.searchTrigger == if |p.search.postcodes| > 0 then p.searchTrigger + 1 else p.searchTrigger
  {
    var action := if field.From? then SearchContext.SetDateFrom(value) else SearchContext.SetDateTo(value);
    var q := p.(search := SearchContext.Reduce(p.search, action));
    if |p.search.postcodes| > 0 then SearchContext.TriggerSearch(q) else q
  }

  /** A date change starts a new query exactly when a query is enabled:
      the key moves through the trigger, since the dates are not in it. */
  lemma ChangeDateRequeries(p: SearchContext.Provider, field: DateField, value: string)
    ensures var r := ChangeDate(p, field, value);
      CrimeQuery.QueryKeyOf(r.search, r.searchTrigger) != CrimeQuery.QueryKeyOf(p.search, p.searchTrigger)
      <==> CrimeQuery.Enabled(p.search)
  {
    var r := ChangeDate(p, field, value);
    CrimeQuery.QueryKeyIdentifies(r.search, r.searchTrigger, p.search, p.searchTrigger);
  }
}
