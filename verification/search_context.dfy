/** The search context (src/contexts/SearchContext.tsx): the search-state
    reducer and its initial state, the recent-search history, the search
    trigger counter, and the mapping between the search state and the
    page's query parameters. The clock, local storage and the browser
    history are left to the caller: the current month and the current time
    are parameters, and the query parameters are a map from name to value. */
module SearchContext {
  import opened Wrappers
  import opened Types
  import opened Text
  import opened Seqs
  import CrimeQuery

  // ---------------------------------------------------------------------
  // Reducer
  // ---------------------------------------------------------------------

  datatype Action =
    | SetPostcodes(postcodes: seq<string>)
    | SetDateFrom(dateFrom: string)
    | SetDateTo(dateTo: string)
    | SetLoading(loading: bool)
    | SetError(error: Option<string>)

  /** The state a fresh context starts in; `defaultDate` is the current
      month as `YYYY-MM`. */
  function InitialState(defaultDate: string): SearchState {
    SearchState([], defaultDate, defaultDate, false, None)
  }

  /** `searchReducer`: each action overwrites its own field. */
  function Reduce(state: SearchState, action: Action): (r: SearchState)
    ensures r.postcodes == if action.SetPostcodes? then action.postcodes else state.postcodes
    ensures r.dateFrom == if action.SetDateFrom? then action.dateFrom else state.dateFrom
    ensures r.dateTo == if action.SetDateTo? then action.dateTo else state.dateTo
    ensures r.isLoading == if action.SetLoading? then action.loading else state.isLoading
    ensures r.error == if action.SetError? then action.error else state.error
  {
    match action
    case SetPostcodes(p) => state.(postcodes := p)
    case SetDateFrom(d) => state.(dateFrom := d)
    case SetDateTo(d) => state.(dateTo := d)
    case SetLoading(l) => state.(isLoading := l)
    case SetError(e) => state.(error := e)
  }

  /** Which field an action writes. */
  function Target(action: Action): nat {
    match action
    case SetPostcodes(_) => 0
    case SetDateFrom(_) => 1
    case SetDateTo(_) => 2
    case SetLoading(_) => 3
    case SetError(_) => 4
  }

  /** Dispatching the same action twice is dispatching it once, and actions
      on different fields may be dispatched in either order. */
  lemma ReduceAlgebra(state: SearchState, a: Action, b: Action)
    ensures Reduce(Reduce(state, a), a) == Reduce(state, a)
    ensures Target(a) != Target(b) ==> Reduce(Reduce(state, a), b) == Reduce(Reduce(state, b), a)
    ensures Target(a) == Target(b) ==> Reduce(Reduce(state, a), b) == Reduce(state, b)
  {
  }

  /** A fresh context searches nothing, so its query is disabled, and its
      range is the single current month. */
  lemma InitialStateQueriesNothing(defaultDate: string)
    requires CrimeQuery.ParseMonth(defaultDate).Some? && defaultDate[0] != '0'
    ensures !CrimeQuery.Enabled(InitialState(defaultDate))
    ensures CrimeQuery.GetMonthsBetween(InitialState(defaultDate).dateFrom, InitialState(defaultDate).dateTo) == [defaultDate]
  {
    CrimeQuery.MonthsBetweenSameMonth(defaultDate);
  }

  // ---------------------------------------------------------------------
  // The provider's state and the search trigger
  // ---------------------------------------------------------------------

  datatype Provider = Provider(
    search: SearchState,
    crimes: seq<CrimeTableData>,
    validPostcodes: seq<PostcodeSearchResult>,
    history: seq<PostcodeHistoryItem>,
    searchTrigger: int)

  function InitialProvider(defaultDate: string): Provider {
    Provider(InitialState(defaultDate), [], [], [], 0)
  }

  /** `triggerSearch`: one more search request. */
  function TriggerSearch(p: Provider): (r: Provider)
    ensures r.searchTrigger == p.searchTrigger + 1
    ensures r.search == p.search && r.crimes == p.crimes && r.validPostcodes == p.validPostcodes
    ensures r.history == p.history
  {
    p.(searchTrigger := p.searchTrigger + 1)
  }

  /** Triggering changes the query key, so the query runs again even for
      the same postcodes, and touches nothing else. */
  lemma TriggerSearchRefetches(p: Provider)
    ensures CrimeQuery.QueryKeyOf(TriggerSearch(p).search, TriggerSearch(p).searchTrigger)
         != CrimeQuery.QueryKeyOf(p.search, p.searchTrigger)
    ensures TriggerSearch(p).(searchTrigger := p.searchTrigger) == p
  {
    CrimeQuery.QueryKeyIdentifies(TriggerSearch(p).search, TriggerSearch(p).searchTrigger, p.search, p.searchTrigger);
  }

  /** What the crime query's effects publish: a result replaces the crimes
      and valid postcodes and clears the error; a failure sets the error and
      keeps the last published crimes. */
  function ApplyQuery(p: Provider, r: Result<CrimeQuery.QueryData, string>): (q: Provider)
    ensures q.history == p.history && q.searchTrigger == p.searchTrigger
    ensures q.search.postcodes == p.search.postcodes
    ensures q.search.error == CrimeQuery.ErrorMessage(CrimeQuery.QueryError(r))
    ensures r.Success? ==> q.crimes == r.value.crimes && q.validPostcodes == r.value.validPostcodes
    ensures r.Failure? ==> q.crimes == p.crimes && q.validPostcodes == p.validPostcodes
  {
    var message := CrimeQuery.ErrorMessage(CrimeQuery.QueryError(r));
    match r
    case Success(d) => p.(crimes := d.crimes, validPostcodes := d.validPostcodes,
                          search := Reduce(p.search, SetError(message)))
    case Failure(_) => p.(search := Reduce(p.search, SetError(message)))
  }

  // ---------------------------------------------------------------------
  // Recent-search history
  // ---------------------------------------------------------------------

  const HistoryLimit := 10

  function HistoryPostcodes(h: seq<PostcodeHistoryItem>): seq<string> {
    seq(|h|, i requires 0 <= i < |h| => h[i].postcode)
  }

  predicate OtherPostcode(postcode: string, item: PostcodeHistoryItem) {
    item.postcode != postcode
  }

  /** `removeFromHistory`: every entry for `postcode` dropped, the rest kept in order. */
  function RemoveFromHistory(history: seq<PostcodeHistoryItem>, postcode: string): (r: seq<PostcodeHistoryItem>)
    ensures forall item :: item in r <==> item in history && item.postcode != postcode
    ensures forall item :: multiset(r)[item] == if item.postcode == postcode then 0 else multiset(history)[item]
    ensures IsSubseq(r, history)
  {
    Filter(history, item => OtherPostcode(postcode, item))
  }

  /** Removing shortens the history exactly when the postcode is in it. */
  lemma RemoveFromHistoryShrinks(history: seq<PostcodeHistoryItem>, postcode: string)
    ensures |RemoveFromHistory(history, postcode)| < |history| <==> postcode in HistoryPostcodes(history)
  {
    var r := RemoveFromHistory(history, postcode);
    var hp := HistoryPostcodes(history);
    FilterKeepsAll(history, item => OtherPostcode(postcode, item));
    if postcode in hp {
      var i :| 0 <= i < |hp| && hp[i] == postcode;
      assert history[i] in history && history[i] !in r;
      assert r != history;
      SubseqSameLength(r, history);
    } else {
      forall item | item in history
        ensures OtherPostcode(postcode, item)
      {
        var i :| 0 <= i < |history| && history[i] == item;
        assert hp[i] == item.postcode;
      }
    }
  }

  /** `addToHistory`: a new entry for `postcode`, dated with the search's
      start month and the time `now`, goes first; older entries for the same
      postcode go; at most ten entries are kept. */
  function AddToHistory(history: seq<PostcodeHistoryItem>, postcode: string, dateFrom: string, now: int)
    : (r: seq<PostcodeHistoryItem>)
    ensures 1 <= |r| <= HistoryLimit
    ensures r[0] == PostcodeHistoryItem(postcode, dateFrom, now)
    ensures forall i :: 1 <= i < |r| ==> r[i].postcode != postcode
    ensures IsSubseq(r[1..], history)
  {
    var item := PostcodeHistoryItem(postcode, dateFrom, now);
    var rest := RemoveFromHistory(history, postcode);
    var r := Take([item] + rest, HistoryLimit);
    var tail := Take(rest, HistoryLimit - 1);
    TakeConsTail(item, rest, HistoryLimit);
    PrefixIsSubseq(rest, |tail|);
    SubseqTransitive(tail, rest, history);
    assert forall i :: 1 <= i < |r| ==> r[i].postcode != postcode by {
      forall i | 1 <= i < |r|
        ensures r[i].postcode != postcode
      {
        assert r[i] == tail[i - 1];
        assert tail[i - 1] in rest;
      }
    }
    r
  }

  /** `clearHistory` */
  function ClearHistory(history: seq<PostcodeHistoryItem>): (r: seq<PostcodeHistoryItem>)
    ensures |r| == 0
  {
    []
  }

  /** Adding keeps a history free of repeated postcodes free of them; adding
      a postcode already present never lengthens it. */
  lemma AddToHistoryDistinct(history: seq<PostcodeHistoryItem>, postcode: string, dateFrom: string, now: int)
    requires Distinct(HistoryPostcodes(history))
    ensures Distinct(HistoryPostcodes(AddToHistory(history, postcode, dateFrom, now)))
  {
    var r := AddToHistory(history, postcode, dateFrom, now);
    SubseqDistinctPostcodes(r[1..], history);
    assert r == [r[0]] + r[1..];
    ConsDistinctPostcodes(r[0], r[1..]);
  }

  lemma ConsDistinctPostcodes(x: PostcodeHistoryItem, tail: seq<PostcodeHistoryItem>)
    requires Distinct(HistoryPostcodes(tail))
    requires forall i :: 0 <= i < |tail| ==> tail[i].postcode != x.postcode
    ensures Distinct(HistoryPostcodes([x] + tail))
  {
    var rp := HistoryPostcodes([x] + tail);
    var tp := HistoryPostcodes(tail);
    forall i, j | 0 <= i < j < |rp|
      ensures rp[i] != rp[j]
    {
      assert rp[j] == tp[j - 1];
      if i > 0 {
        assert rp[i] == tp[i - 1];
      }
    }
  }

  /** Searching again for a postcode already in the history never lengthens it. */
  lemma AddExistingDoesNotGrow(history: seq<PostcodeHistoryItem>, postcode: string, dateFrom: string, now: int)
    requires postcode in HistoryPostcodes(history)
    ensures |AddToHistory(history, postcode, dateFrom, now)| <= |history|
  {
    RemoveFromHistoryShrinks(history, postcode);
  }

  /** Removing an entry just added leaves the entries that survived the
      add: everything else that was there, up to nine of them. */
  lemma RemoveUndoesAdd(history: seq<PostcodeHistoryItem>, postcode: string, dateFrom: string, now: int)
    ensures RemoveFromHistory(AddToHistory(history, postcode, dateFrom, now), postcode)
         == Take(RemoveFromHistory(history, postcode), HistoryLimit - 1)
  {
    var rest := RemoveFromHistory(history, postcode);
    var item := PostcodeHistoryItem(postcode, dateFrom, now);
    var r := AddToHistory(history, postcode, dateFrom, now);
    assert r == [item] + r[1..];
    assert r[1..] == Take(rest, HistoryLimit - 1) by {
      TakeConsTail(item, rest, HistoryLimit);
    }
    FilterAppend([item], r[1..], i => OtherPostcode(postcode, i));
    FilterKeepsAll(r[1..], i => OtherPostcode(postcode, i));
  }

  /** Every entry of the history the add leaves behind, apart from the new
      one, is an entry of the history before it. */
  lemma AddToHistoryKeepsOld(history: seq<PostcodeHistoryItem>, postcode: string, dateFrom: string, now: int)
    ensures forall item :: item in AddToHistory(history, postcode, dateFrom, now)[1..] ==> item in history
  {
    var r := AddToHistory(history, postcode, dateFrom, now);
    SubseqMembers(r[1..], history);
  }

  /** Recording searches for `ps`, one after another, into an empty history. */
  function AddAll(ps: seq<string>, dateFrom: string, now: int): seq<PostcodeHistoryItem>
  {
    if |ps| == 0 then [] else AddToHistory(AddAll(ps[..|ps| - 1], dateFrom, now), ps[|ps| - 1], dateFrom, now)
  }

  /** Searching distinct postcodes one after another lists the ten most
      recent, newest first. */
  lemma {:induction false} AddAllDistinct(ps: seq<string>, dateFrom: string, now: int)
    requires Distinct(ps)
    ensures HistoryPostcodes(AddAll(ps, dateFrom, now)) == Take(Reverse(ps), HistoryLimit)
  {
    if |ps| > 0 {
      var init := ps[..|ps| - 1];
      var x := ps[|ps| - 1];
      var h := AddAll(init, dateFrom, now);
      assert Distinct(init) by {
        forall i, j | 0 <= i < j < |init|
          ensures init[i] != init[j]
        {
          assert init[i] == ps[i] && init[j] == ps[j];
        }
      }
      AddAllDistinct(init, dateFrom, now);
      assert x !in init by {
        forall i | 0 <= i < |init|
          ensures init[i] != x
        {
          assert init[i] == ps[i];
        }
      }
      forall item | item in h
        ensures item.postcode != x
      {
        var i :| 0 <= i < |h| && h[i] == item;
        assert HistoryPostcodes(h)[i] == item.postcode;
        assert item.postcode in Reverse(init);
        ReverseMembers(init, item.postcode);
      }
      AddFreshToHistory(h, x, dateFrom, now);
      TakeConsTake(x, Reverse(init), HistoryLimit);
    }
  }

  /** Adding a postcode not yet in the history puts it in front of the
      postcodes already there, ten at most. */
  lemma AddFreshToHistory(h: seq<PostcodeHistoryItem>, x: string, dateFrom: string, now: int)
    requires forall item :: item in h ==> item.postcode != x
    ensures HistoryPostcodes(AddToHistory(h, x, dateFrom, now)) == Take([x] + HistoryPostcodes(h), HistoryLimit)
  {
    FilterKeepsAll(h, item => OtherPostcode(x, item));
    assert RemoveFromHistory(h, x) == h;
    var item := PostcodeHistoryItem(x, dateFrom, now);
    var r := Take([item] + h, HistoryLimit);
    var hp := HistoryPostcodes(r);
    var want := Take([x] + HistoryPostcodes(h), HistoryLimit);
    assert |hp| == |want|;
    forall i | 0 <= i < |hp|
      ensures hp[i] == want[i]
    {
      if i > 0 {
        assert r[i] == h[i - 1];
      }
    }
    SameElements(hp, want);
  }

  // ---------------------------------------------------------------------
  // Sequence facts used above
  // ---------------------------------------------------------------------

  lemma {:induction false} SubseqDistinctPostcodes(a: seq<PostcodeHistoryItem>, b: seq<PostcodeHistoryItem>)
    requires IsSubseq(a, b) && Distinct(HistoryPostcodes(b))
    ensures Distinct(HistoryPostcodes(a))
    decreases |b|
  {
    if |a| > 0 {
      var bp := HistoryPostcodes(b);
      assert Distinct(HistoryPostcodes(b[1..])) by {
        forall i, j | 0 <= i < j < |b| - 1
          ensures HistoryPostcodes(b[1..])[i] != HistoryPostcodes(b[1..])[j]
        {
          assert bp[i + 1] != bp[j + 1];
        }
      }
      var ap := HistoryPostcodes(a);
      if a[0] == b[0] && IsSubseq(a[1..], b[1..]) {
        SubseqDistinctPostcodes(a[1..], b[1..]);
        SubseqMembers(a[1..], b[1..]);
        forall i, j | 0 <= i < j < |a|
          ensures ap[i] != ap[j]
        {
          if i == 0 {
            assert a[j] == a[1..][j - 1];
            assert a[j] in b[1..];
            assert ap[0] == bp[0];
            var k :| 0 <= k < |b[1..]| && b[1..][k] == a[j];
            assert bp[k + 1] == ap[j];
          } else {
            assert ap[i] == HistoryPostcodes(a[1..])[i - 1];
            assert ap[j] == HistoryPostcodes(a[1..])[j - 1];
          }
        }
      } else {
        SubseqDistinctPostcodes(a, b[1..]);
      }
    }
  }

  // ---------------------------------------------------------------------
  // Query parameters
  // ---------------------------------------------------------------------

  type Params = map<string, string>

  /** `params.get(name)` */
  function Get(params: Params, name: string): Option<string> {
    if name in params then Some(params[name]) else None
  }

  /** The query-parameter value is present and not empty. */
  predicate Given(params: Params, name: string) {
    Truthy(Get(params, name))
  }

  predicate Truthy(o: Option<string>) {
    o.Some? && o.value != ""
  }

  function TrimAll(parts: seq<string>): (r: seq<string>)
    ensures |r| == |parts|
    ensures forall i :: 0 <= i < |r| ==> r[i] == Trim(parts[i])
  {
    seq(|parts|, i requires 0 <= i < |parts| => Trim(parts[i]))
  }

  /** The state after the mount-time read of the query parameters: a given
      `postcodes` is split on commas and each part trimmed (not upper-cased,
      empty parts kept); each date comes from its own parameter, else from
      the legacy `date`; anything not given keeps its value. */
  function ReadParams(params: Params, state: SearchState): (r: SearchState)
    ensures r.isLoading == state.isLoading && r.error == state.error
    ensures Given(params, "postcodes") ==>
      r.postcodes == TrimAll(Split(params["postcodes"], ','))
    ensures !Given(params, "postcodes") ==> r.postcodes == state.postcodes
    ensures r.dateFrom == if Given(params, "dateFrom") then params["dateFrom"]
                         else if Given(params, "date") then params["date"] else state.dateFrom
    ensures r.dateTo == if Given(params, "dateTo") then params["dateTo"]
                       else if Given(params, "date") then params["date"] else state.dateTo
  {
    var s1 := if Given(params, "postcodes")
      then Reduce(state, SetPostcodes(TrimAll(Split(params["postcodes"], ','))))
      else state;
    var s2 := if Given(params, "dateFrom") then Reduce(s1, SetDateFrom(params["dateFrom"]))
      else if Given(params, "date") then Reduce(s1, SetDateFrom(params["date"]))
      else s1;
    if Given(params, "dateTo") then Reduce(s2, SetDateTo(params["dateTo"]))
    else if Given(params, "date") then Reduce(s2, SetDateTo(params["date"]))
    else s2
  }

  /** `params.set(name, v)` for a truthy value, `params.delete(name)` otherwise. */
  function SetOrDelete(params: Params, name: string, value: Option<string>): (r: Params)
    ensures Truthy(value) ==> Get(r, name) == value
    ensures !Truthy(value) ==> Get(r, name) == None
    ensures forall k :: k != name ==> Get(r, k) == Get(params, k)
  {
    if Truthy(value) then params[name := value.value] else params - {name}
  }

  /** The value each parameter should have for `state`. */
  function WantedPostcodes(state: SearchState): Option<string> {
    if |state.postcodes| > 0 then Some(Join(state.postcodes, ",")) else None
  }

  function WantedDate(date: string): Option<string> {
    if date != "" then Some(date) else None
  }

  predicate InSync(params: Params, state: SearchState) {
    && Get(params, "postcodes") == WantedPostcodes(state)
    && Get(params, "dateFrom") == WantedDate(state.dateFrom)
    && Get(params, "dateTo") == WantedDate(state.dateTo)
  }

  /** The update-time write of the query parameters: nothing when every
      parameter already has its wanted value; otherwise each is set to it or
      deleted when it is empty, and the legacy `date` is removed. */
  function WriteParams(params: Params, state: SearchState): (r: Option<Params>)
    ensures r.None? <==> InSync(params, state)
    ensures r.Some? ==> Get(r.value, "date") == None
    ensures r.Some? ==> forall k :: k !in {"postcodes", "dateFrom", "dateTo", "date"} ==> Get(r.value, k) == Get(params, k)
    ensures r.Some? && Truthy(WantedPostcodes(state)) ==> Get(r.value, "postcodes") == WantedPostcodes(state)
    ensures r.Some? && |state.postcodes| == 0 ==> Get(r.value, "postcodes") == None
    ensures r.Some? ==> Get(r.value, "dateFrom") == WantedDate(state.dateFrom)
    ensures r.Some? ==> Get(r.value, "dateTo") == WantedDate(state.dateTo)
  {
    if InSync(params, state) then None
    else
      var p1 := SetOrDelete(params, "postcodes", WantedPostcodes(state));
      var p2 := SetOrDelete(p1, "dateFrom", WantedDate(state.dateFrom));
      var p3 := SetOrDelete(p2, "dateTo", WantedDate(state.dateTo));
      Some(SetOrDelete(p3, "date", None))
  }

  /** The parameters in effect after the write. */
  function AfterWrite(params: Params, state: SearchState): Params {
    var w := WriteParams(params, state);
    if w.Some? then w.value else params
  }

  /** A written state can be read back: for a non-empty list of trimmed,
      comma-free postcodes (other than the single empty one) and non-empty
      dates, reading the written parameters restores the postcodes and
      both dates, whatever state the read starts from. */
  lemma ParamsRoundTrip(params: Params, state: SearchState, start: SearchState)
    requires |state.postcodes| > 0 && state.postcodes != [""]
    requires forall i :: 0 <= i < |state.postcodes| ==> IsTrimmed(state.postcodes[i]) && ',' !in state.postcodes[i]
    requires state.dateFrom != "" && state.dateTo != ""
    ensures var r := ReadParams(AfterWrite(params, state), start);
      r.postcodes == state.postcodes && r.dateFrom == state.dateFrom && r.dateTo == state.dateTo
  {
    JoinNotEmpty(state.postcodes);
    AfterWriteHolds(params, state);
    SplitTrimJoin(state.postcodes);
  }

  lemma JoinNotEmpty(ps: seq<string>)
    requires |ps| > 0 && ps != [""]
    ensures Join(ps, ",") != ""
  {
    if |ps| == 1 {
      assert ps[0] != "";
    } else {
      assert Join(ps, ",") == ps[0] + "," + Join(ps[1..], ",");
    }
  }

  /** After a write, each parameter holds the value wanted for the state. */
  lemma AfterWriteHolds(params: Params, state: SearchState)
    requires state.postcodes != [""]
    ensures var after := AfterWrite(params, state);
      && Get(after, "postcodes") == WantedPostcodes(state)
      && Get(after, "dateFrom") == WantedDate(state.dateFrom)
      && Get(after, "dateTo") == WantedDate(state.dateTo)
  {
    if |state.postcodes| > 0 {
      JoinNotEmpty(state.postcodes);
    }
  }

  /** Splitting the comma-joined list of trimmed, comma-free postcodes and
      trimming each part gives the list back. */
  lemma SplitTrimJoin(ps: seq<string>)
    requires forall i :: 0 <= i < |ps| ==> IsTrimmed(ps[i]) && ',' !in ps[i]
    ensures |ps| > 0 ==> TrimAll(Split(Join(ps, ","), ',')) == ps
  {
    if |ps| > 0 {
      assert "," == [','];
      SplitJoin(ps, ',');
      var read := TrimAll(Split(Join(ps, ","), ','));
      forall i | 0 <= i < |ps|
        ensures read[i] == ps[i]
      {
        TrimOfTrimmed(ps[i]);
      }
    }
  }

  /** Writing is idempotent: right after a write, the parameters are in
      sync with the state and a second write changes nothing. */
  lemma WriteParamsSettles(params: Params, state: SearchState)
    requires state.postcodes != [""]
    ensures WriteParams(AfterWrite(params, state), state).None?
  {
    var ps := state.postcodes;
    if |ps| > 1 {
      assert Join(ps, ",") == ps[0] + "," + Join(ps[1..], ",");
    }
  }
}
