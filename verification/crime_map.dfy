/** The crime map (src/components/CrimeMap/CrimeMap.tsx): crimes grouped
    into one marker per location, and the popup each marker shows. Map
    tiles, marker positions (`parseFloat` of the coordinates) and the map
    centre (an average of floating-point coordinates) are not modelled. */
module CrimeMap {
  import opened Types
  import opened Seqs

  /** One marker: the location key, the postcode shown in its popup, and
      the crimes reported there. */
  datatype Group = Group(key: string, postcode: string, crimes: seq<CrimeTableData>)

  /** The grouping key `${latitude},${longitude}`. */
  function LocationKey(row: CrimeTableData): string {
    row.crime.location.latitude + "," + row.crime.location.longitude
  }

  function Keys(crimes: seq<CrimeTableData>): (r: seq<string>)
    ensures |r| == |crimes|
    ensures forall i :: 0 <= i < |r| ==> r[i] == LocationKey(crimes[i])
  {
    seq(|crimes|, i requires 0 <= i < |crimes| => LocationKey(crimes[i]))
  }

  function GroupKeys(groups: seq<Group>): (r: seq<string>)
    ensures |r| == |groups|
    ensures forall i :: 0 <= i < |r| ==> r[i] == groups[i].key
  {
    seq(|groups|, i requires 0 <= i < |groups| => groups[i].key)
  }

  /** The crimes at `key`, in input order. */
  function AtKey(crimes: seq<CrimeTableData>, key: string): (r: seq<CrimeTableData>)
    ensures forall row :: row in r <==> row in crimes && LocationKey(row) == key
  {
    if |crimes| == 0 then []
    else
      var last := crimes[|crimes| - 1];
      assert crimes == crimes[..|crimes| - 1] + [last];
      AtKey(crimes[..|crimes| - 1], key) + (if LocationKey(last) == key then [last] else [])
  }

  /** The grouping is right for `crimes`: one group per distinct key, in
      order of first appearance; each group holds exactly the crimes at its
      key, in input order, and is labelled with its first crime's postcode. */
  ghost predicate WellGrouped(crimes: seq<CrimeTableData>, groups: seq<Group>) {
    && GroupKeys(groups) == Dedup(Keys(crimes))
    && forall i :: 0 <= i < |groups| ==>
         && groups[i].crimes == AtKey(crimes, groups[i].key)
         && |groups[i].crimes| > 0
         && groups[i].postcode == groups[i].crimes[0].postcode
  }

  /** One step of the `reduce`: the crime joins the group of its key, or
      opens a new group at the end. */
  function AddCrime(groups: seq<Group>, row: CrimeTableData): (r: seq<Group>)
    ensures LocationKey(row) in GroupKeys(groups) ==> |r| == |groups|
    ensures LocationKey(row) !in GroupKeys(groups) ==> |r| == |groups| + 1
    ensures GroupKeys(r) == if LocationKey(row) in GroupKeys(groups) then GroupKeys(groups)
                            else GroupKeys(groups) + [LocationKey(row)]
    ensures forall i :: 0 <= i < |groups| && groups[i].key != LocationKey(row) ==> r[i] == groups[i]
  {
    var key := LocationKey(row);
    if key in GroupKeys(groups) then
      var j := FirstIndex(GroupKeys(groups), key);
      groups[j := groups[j].(crimes := groups[j].crimes + [row])]
    else
      groups + [Group(key, row.postcode, [row])]
  }

  /** `crimeGroupsArray`: the groups in the order `Object.values` lists
      them, which for these keys (never array indices, since they contain a
      comma) is the order they were created in. */
  function GroupCrimes(crimes: seq<CrimeTableData>): (r: seq<Group>)
    ensures WellGrouped(crimes, r)
  {
    if |crimes| == 0 then []
    else
      var groups := GroupCrimes(crimes[..|crimes| - 1]);
      AddCrimeStep(crimes, groups);
      AddCrime(groups, crimes[|crimes| - 1])
  }

  lemma AtKeySnoc(crimes: seq<CrimeTableData>, key: string)
    requires |crimes| > 0
    ensures AtKey(crimes, key) == AtKey(crimes[..|crimes| - 1], key)
      + (if LocationKey(crimes[|crimes| - 1]) == key then [crimes[|crimes| - 1]] else [])
  {
  }

  lemma AtKeyAbsent(crimes: seq<CrimeTableData>, key: string)
    requires key !in Keys(crimes)
    ensures AtKey(crimes, key) == []
  {
    forall k | 0 <= k < |crimes|
      ensures LocationKey(crimes[k]) != key
    {
      assert Keys(crimes)[k] == LocationKey(crimes[k]);
    }
  }

  /** How the distinct keys grow by one crime. */
  lemma DedupKeysSnoc(crimes: seq<CrimeTableData>)
    requires |crimes| > 0
    ensures var d := Dedup(Keys(crimes[..|crimes| - 1]));
      var key := LocationKey(crimes[|crimes| - 1]);
      Dedup(Keys(crimes)) == if key in d then d else d + [key]
  {
    assert Keys(crimes)[..|crimes| - 1] == Keys(crimes[..|crimes| - 1]);
  }

  lemma AddCrimeStep(crimes: seq<CrimeTableData>, groups: seq<Group>)
    requires |crimes| > 0
    requires WellGrouped(crimes[..|crimes| - 1], groups)
    ensures WellGrouped(crimes, AddCrime(groups, crimes[|crimes| - 1]))
  {
    var key := LocationKey(crimes[|crimes| - 1]);
    DedupKeysSnoc(crimes);
    var r := AddCrime(groups, crimes[|crimes| - 1]);
    if key in GroupKeys(groups) {
      AddToExistingGroup(crimes, groups);
    } else {
      AddNewGroup(crimes, groups);
    }
    assert GroupKeys(r) == Dedup(Keys(crimes));
  }

  lemma AddNewGroup(crimes: seq<CrimeTableData>, groups: seq<Group>)
    requires |crimes| > 0
    requires WellGrouped(crimes[..|crimes| - 1], groups)
    requires LocationKey(crimes[|crimes| - 1]) !in GroupKeys(groups)
    ensures var r := AddCrime(groups, crimes[|crimes| - 1]);
      && GroupKeys(r) == GroupKeys(groups) + [LocationKey(crimes[|crimes| - 1])]
      && forall i :: 0 <= i < |r| ==>
           && r[i].crimes == AtKey(crimes, r[i].key)
           && |r[i].crimes| > 0
           && r[i].postcode == r[i].crimes[0].postcode
  {
    var prefix := crimes[..|crimes| - 1];
    var row := crimes[|crimes| - 1];
    var key := LocationKey(row);
    var r := AddCrime(groups, row);
    assert r == groups + [Group(key, row.postcode, [row])];
    assert GroupKeys(r) == GroupKeys(groups) + [key];
    forall i | 0 <= i < |r|
      ensures r[i].crimes == AtKey(crimes, r[i].key) && |r[i].crimes| > 0 && r[i].postcode == r[i].crimes[0].postcode
    {
      AtKeySnoc(crimes, r[i].key);
      if i < |groups| {
        assert r[i] == groups[i];
        assert GroupKeys(groups)[i] != key;
      } else {
        AtKeyAbsent(prefix, key);
      }
    }
  }

  lemma AddToExistingGroup(crimes: seq<CrimeTableData>, groups: seq<Group>)
    requires |crimes| > 0
    requires WellGrouped(crimes[..|crimes| - 1], groups)
    requires LocationKey(crimes[|crimes| - 1]) in GroupKeys(groups)
    ensures var r := AddCrime(groups, crimes[|crimes| - 1]);
      && GroupKeys(r) == GroupKeys(groups)
      && forall i :: 0 <= i < |r| ==>
           && r[i].crimes == AtKey(crimes, r[i].key)
           && |r[i].crimes| > 0
           && r[i].postcode == r[i].crimes[0].postcode
  {
    var row := crimes[|crimes| - 1];
    var key := LocationKey(row);
    var r := AddCrime(groups, row);
    var j := FirstIndex(GroupKeys(groups), key);
    assert GroupKeys(r) == GroupKeys(groups);
    forall i | 0 <= i < |r|
      ensures r[i].crimes == AtKey(crimes, r[i].key) && |r[i].crimes| > 0 && r[i].postcode == r[i].crimes[0].postcode
    {
      AtKeySnoc(crimes, r[i].key);
      if i != j {
        assert GroupKeys(groups)[i] != GroupKeys(groups)[j];
      } else {
        assert r[j].crimes[0] == groups[j].crimes[0];
      }
    }
  }

  /** Each crime is in the group of its key and in no other, so the groups
      partition the crimes. */
  lemma GroupsPartition(crimes: seq<CrimeTableData>, row: CrimeTableData, i: nat)
    requires i < |GroupCrimes(crimes)|
    ensures row in GroupCrimes(crimes)[i].crimes <==> row in crimes && LocationKey(row) == GroupCrimes(crimes)[i].key
    ensures row in crimes ==> exists j :: 0 <= j < |GroupCrimes(crimes)| && GroupCrimes(crimes)[j].key == LocationKey(row)
    ensures forall j :: 0 <= j < |GroupCrimes(crimes)| && j != i ==> GroupCrimes(crimes)[j].key != GroupCrimes(crimes)[i].key
  {
    var g := GroupCrimes(crimes);
    if row in crimes {
      var k :| 0 <= k < |crimes| && crimes[k] == row;
      assert Keys(crimes)[k] == LocationKey(row);
      assert LocationKey(row) in GroupKeys(g);
      var j :| 0 <= j < |g| && GroupKeys(g)[j] == LocationKey(row);
    }
    forall j | 0 <= j < |g| && j != i
      ensures g[j].key != g[i].key
    {
      assert GroupKeys(g)[j] != GroupKeys(g)[i];
    }
  }

  function TotalSize(groups: seq<Group>): nat {
    if |groups| == 0 then 0 else TotalSize(groups[..|groups| - 1]) + |groups[|groups| - 1].crimes|
  }

  lemma TotalSizeUpdate(groups: seq<Group>, j: nat, g: Group)
    requires j < |groups|
    ensures TotalSize(groups[j := g]) == TotalSize(groups) - |groups[j].crimes| + |g.crimes|
    decreases |groups|
  {
    var n := |groups|;
    if j < n - 1 {
      assert groups[j := g][..n - 1] == groups[..n - 1][j := g];
      TotalSizeUpdate(groups[..n - 1], j, g);
    } else {
      assert groups[j := g][..n - 1] == groups[..n - 1];
    }
  }

  /** The group sizes add up to the number of crimes: no crime is lost or counted twice. */
  lemma {:induction false} GroupSizesSum(crimes: seq<CrimeTableData>)
    ensures TotalSize(GroupCrimes(crimes)) == |crimes|
  {
    if |crimes| > 0 {
      var prefix := crimes[..|crimes| - 1];
      var row := crimes[|crimes| - 1];
      var groups := GroupCrimes(prefix);
      GroupSizesSum(prefix);
      var key := LocationKey(row);
      if key in GroupKeys(groups) {
        var j := FirstIndex(GroupKeys(groups), key);
        TotalSizeUpdate(groups, j, groups[j].(crimes := groups[j].crimes + [row]));
      } else {
        var r := groups + [Group(key, row.postcode, [row])];
        assert r[..|r| - 1] == groups;
      }
    }
  }

  /** Two crimes share a marker exactly when their keys agree; equal
      coordinates always do, and with comma-free latitudes (the decimal
      strings the police API sends) equal keys mean equal coordinates. */
  lemma SameGroupIffSameLocation(a: CrimeTableData, b: CrimeTableData)
    ensures (a.crime.location.latitude == b.crime.location.latitude
             && a.crime.location.longitude == b.crime.location.longitude) ==> LocationKey(a) == LocationKey(b)
    ensures (',' !in a.crime.location.latitude && ',' !in b.crime.location.latitude
             && LocationKey(a) == LocationKey(b)) ==>
         a.crime.location.latitude == b.crime.location.latitude
         && a.crime.location.longitude == b.crime.location.longitude
  {
    var la, lb := a.crime.location.latitude, b.crime.location.latitude;
    if ',' !in la && ',' !in lb && LocationKey(a) == LocationKey(b) {
      SplitAtFirstComma(la, a.crime.location.longitude, lb, b.crime.location.longitude);
    }
  }

  lemma {:induction false} SplitAtFirstComma(x: string, y: string, u: string, v: string)
    requires ',' !in x && ',' !in u
    requires x + "," + y == u + "," + v
    ensures x == u && y == v
  {
    var s := x + "," + y;
    if |x| == 0 {
      assert s[1..] == y;
    } else {
      assert s[0] == x[0] && s[0] == u[0];
      assert s[1..] == x[1..] + "," + y == u[1..] + "," + v;
      SplitAtFirstComma(x[1..], y, u[1..], v);
      assert x == [x[0]] + x[1..];
      assert u == [u[0]] + u[1..];
    }
  }

  // ---------------------------------------------------------------------
  // Popups
  // ---------------------------------------------------------------------

  const PopupLimit := 10

  /** One listed crime: category, street and outcome. */
  datatype PopupLine = PopupLine(category: string, streetName: string, outcome: string)

  /** What a marker's popup shows: the heading's postcode and count, up to
      ten crime lines, and how many more there are when some are not listed. */
  datatype Popup = Popup(postcode: string, count: nat, lines: seq<PopupLine>, more: nat)

  /** The popup's own outcome fallback, `"Unknown outcome"`. */
  function PopupOutcome(c: CrimeData): (r: string)
    ensures r != ""
    ensures c.outcomeStatus.Some? && c.outcomeStatus.value.category != "" ==> r == c.outcomeStatus.value.category
    ensures (c.outcomeStatus.None? || c.outcomeStatus.value.category == "") ==> r == "Unknown outcome"
  {
    if c.outcomeStatus.Some? && c.outcomeStatus.value.category != "" then c.outcomeStatus.value.category
    else "Unknown outcome"
  }

  function Line(row: CrimeTableData): PopupLine {
    PopupLine(row.crime.category, row.streetName, PopupOutcome(row.crime))
  }

  function PopupOf(g: Group): (p: Popup)
    ensures p.postcode == g.postcode && p.count == |g.crimes|
    ensures |p.lines| == Min(PopupLimit, |g.crimes|)
    ensures forall i :: 0 <= i < |p.lines| ==> p.lines[i] == Line(g.crimes[i])
    ensures |p.lines| + p.more == |g.crimes|
    ensures p.more > 0 <==> |g.crimes| > PopupLimit
  {
    var shown := Take(g.crimes, PopupLimit);
    Popup(g.postcode, |g.crimes|, seq(|shown|, i requires 0 <= i < |shown| => Line(shown[i])),
          if |g.crimes| > PopupLimit then |g.crimes| - PopupLimit else 0)
  }

  function Popups(groups: seq<Group>): (r: seq<Popup>)
    ensures |r| == |groups|
    ensures forall i :: 0 <= i < |r| ==> r[i] == PopupOf(groups[i])
  {
    seq(|groups|, i requires 0 <= i < |groups| => PopupOf(groups[i]))
  }

  /** What the map section shows. */
  datatype MapView = NoDataAlert | Markers(popups: seq<Popup>)

  function View(crimes: seq<CrimeTableData>): (v: MapView)
    ensures v.NoDataAlert? <==> |crimes| == 0
  {
    if |crimes| == 0 then NoDataAlert
    else
      Markers(Popups(GroupCrimes(crimes)))
  }

  /** With crimes to show there is one marker per distinct location, its
      popup headed by the postcode of the first crime seen there, and the
      popup counts add up to the number of crimes. */
  lemma ViewMarkers(crimes: seq<CrimeTableData>)
    requires |crimes| > 0
    ensures var popups := View(crimes).popups;
      && |popups| == |Dedup(Keys(crimes))|
      && (forall i :: 0 <= i < |popups| ==> popups[i].count > 0)
      && TotalSize(GroupCrimes(crimes)) == |crimes|
  {
    var groups := GroupCrimes(crimes);
    assert |GroupKeys(groups)| == |Dedup(Keys(crimes))|;
    GroupSizesSum(crimes);
  }
}
