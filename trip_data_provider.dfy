/** BusTripDataProvider: the service that turns the parsed bus records into
    trips, indexes them by published line name and by vehicle ref, and answers
    look-ups by either name. */
module TripData {
  import opened Text
  import opened Lists
  import opened BusRecords
  import opened BusTrips
  import opened TripPipeline

  /** Every trip is well formed: what the GeoJSON builder asks of its input. */
  ghost predicate TripsValid(trips: seq<BusTrip>)
    reads set n | 0 <= n < |trips| :: trips[n].coords
    reads set n | 0 <= n < |trips| :: trips[n].allPointInfo
  {
    forall n {:trigger trips[n].Valid()} :: 0 <= n < |trips| ==> trips[n].Valid()
  }

  /** One trip per entry, in order, each built from the entry's records. */
  ghost predicate TripsMatch(trips: seq<BusTrip>, es: seq<TripEntry>)
  {
    && |trips| == |es|
    && forall n :: 0 <= n < |es| ==>
      && trips[n].records == es[n].records
      && |es[n].records| > 0
      && trips[n].publishedLineName == es[n].records[0].publishedLineName
      && trips[n].vehicleRef == es[n].records[0].vehicleRef
  }

  /** ps lists, in ascending order, exactly the positions of the entries filed under name. */
  predicate IsPositionsOf(ps: seq<int>, es: seq<TripEntry>, name: string, byLine: bool)
  {
    && (forall i :: 0 <= i < |ps| ==> 0 <= ps[i] < |es| && NameOf(es[ps[i]], byLine) == name)
    && (forall i, j :: 0 <= i < j < |ps| ==> ps[i] < ps[j])
    && (forall n :: 0 <= n < |es| && NameOf(es[n], byLine) == name ==> n in ps)
  }

  /** Collections.sort over a copy of a key set: the keys, ascending, each once. */
  method SortedKeys(m: map<string, seq<int>>) returns (r: seq<string>)
    ensures StrictlyAscending(r)
    ensures forall k :: k in r <==> k in m
  {
    r := [];
    var remaining := m.Keys;
    while remaining != {}
      invariant remaining <= m.Keys
      invariant StrictlyAscending(r)
      invariant forall k :: k in r <==> k in m && k !in remaining
      decreases |remaining|
    {
      var k :| k in remaining;
      r := InsertAscending(r, k);
      remaining := remaining - {k};
    }
  }

  class TripDataProvider {
    var busRecords: seq<BusRecord>
    var busRecordsMap: map<string, seq<BusRecord>>
    /** pubLineNameToTripIndex and vehRefToTripIndex: positions in the trip list. */
    var lineIndex: map<string, seq<int>>
    var vehicleIndex: map<string, seq<int>>
    var trips: seq<BusTrip>
    /** The addTrip calls made so far, in order. */
    ghost var entries: seq<TripEntry>

    /** Both indexes are what the addTrip calls so far have made of them. */
    ghost predicate IndexesFollow()
      reads this`lineIndex, this`vehicleIndex, this`entries
    {
      lineIndex == Index(entries, true) && vehicleIndex == Index(entries, false)
    }

    ghost predicate Valid()
      reads this`lineIndex, this`vehicleIndex, this`entries, this`trips
      reads set n | 0 <= n < |trips| :: trips[n].coords
      reads set n | 0 <= n < |trips| :: trips[n].allPointInfo
    {
      IndexesFollow() && TripsMatch(trips, entries) && TripsValid(trips)
    }

    /** Nothing has been added yet: no addTrip calls, so both indexes are empty. */
    ghost predicate Empty()
      reads this`lineIndex, this`vehicleIndex, this`entries
    {
      IndexesFollow() && entries == []
    }

    constructor ()
      ensures Valid() && Empty() && lineIndex == map[] && vehicleIndex == map[] && trips == []
      ensures busRecords == [] && busRecordsMap == map[]
    {
      busRecords := [];
      busRecordsMap := map[];
      lineIndex := map[];
      vehicleIndex := map[];
      trips := [];
      entries := [];
    }

    /** addTrip: builds the trip, appends it, and files its position under its
        line name and its vehicle ref, creating a key's list on first use. */
    method AddTrip(result: seq<BusTrip>, tripRecords: seq<BusRecord>, line: string, vehicle: string, fmt: Formats)
      returns (extended: seq<BusTrip>)
      modifies this`lineIndex, this`vehicleIndex, this`entries
      requires IndexesFollow() && TripsMatch(result, entries) && TripsValid(result)
      requires |tripRecords| > 0 && AllTimed(tripRecords)
      ensures entries == old(entries) + [TripEntry(line, vehicle, tripRecords)]
      ensures IndexesFollow() && TripsMatch(extended, entries) && TripsValid(extended)
      ensures |extended| == |result| + 1 && extended[..|result|] == result && fresh(extended[|result|])

    {
      var newTrip := new BusTrip(tripRecords, fmt);
      TripsValidSnoc(result, newTrip);
      ghost var e := TripEntry(line, vehicle, tripRecords);
      TripsMatchSnoc(result, entries, newTrip, e);
      extended := result + [newTrip];
      FileTrip(extended, line, vehicle, tripRecords);
    }

    /** The index updates of addTrip, for the trip just appended at the end of
        trips: putIfAbsent(name, new ArrayList) followed by get(name).add(index)
        in each index. The trips themselves are not touched. */
    method FileTrip(trips: seq<BusTrip>, line: string, vehicle: string, tripRecords: seq<BusRecord>)
      modifies this`lineIndex, this`vehicleIndex, this`entries
      requires IndexesFollow() && |trips| == |entries| + 1 && TripsValid(trips)
      ensures entries == old(entries) + [TripEntry(line, vehicle, tripRecords)]
      ensures IndexesFollow() && TripsValid(trips)
    {
      var index: int := |trips| - 1;
      var lineList := if line in lineIndex then lineIndex[line] else [];
      lineIndex := lineIndex[line := lineList + [index]];
      var vehicleList := if vehicle in vehicleIndex then vehicleIndex[vehicle] else [];
      vehicleIndex := vehicleIndex[vehicle := vehicleList + [index]];
      ghost var e := TripEntry(line, vehicle, tripRecords);
      IndexSnoc(entries, e, true);
      IndexSnoc(entries, e, false);
      entries := entries + [e];
    }

    /** The inner loop of constructTripsFromRecords over one group: a record
        opens a new trip when none is open or when isNewTrip holds against the
        previous record, and joins the open trip otherwise; the open trip is
        added when the next one opens and after the last record. */
    method AddGroupTrips(result: seq<BusTrip>, records: seq<BusRecord>, line: string, vehicle: string, fmt: Formats)
      returns (extended: seq<BusTrip>)
      modifies this`lineIndex, this`vehicleIndex, this`entries
      requires IndexesFollow() && TripsMatch(result, entries) && TripsValid(result) && AllTimed(records)
      ensures entries == old(entries) + RunEntries(line, vehicle, Segment(records))
      ensures IndexesFollow() && TripsMatch(extended, entries) && TripsValid(extended)
      ensures |extended| >= |result| && extended[..|result|] == result
      ensures busRecordsMap == old(busRecordsMap)

    {
      extended := result;
      var currentTripRecords: seq<BusRecord> := [];
      var prevRecord: Option<BusRecord> := None;

      for j := 0 to |records|
        invariant IndexesFollow() && TripsMatch(extended, entries) && TripsValid(extended)
        invariant |extended| >= |result| && extended[..|result|] == result
        invariant Walked(records, j, currentTripRecords, prevRecord, old(entries), entries, line, vehicle)
      {
        var record := records[j];
        if currentTripRecords == [] || IsNewTrip(prevRecord.value, record) {
          if currentTripRecords != [] {
            ghost var before := entries;
            OpenTripCurrent(records, j, currentTripRecords, old(entries), entries, line, vehicle);
            extended := AddTrip(extended, currentTripRecords, line, vehicle, fmt);
            OpenTripNew(records, j, currentTripRecords, old(entries), before, line, vehicle);
            assert entries == before + [TripEntry(line, vehicle, currentTripRecords)];
            currentTripRecords := [];
          } else {
            OpenTripFirst(records, old(entries), line, vehicle);
          }
          currentTripRecords := currentTripRecords + [record];
        } else {
          OpenTripJoin(records, j, currentTripRecords, old(entries), entries, line, vehicle);
          currentTripRecords := currentTripRecords + [record];
        }
        assert OpenTrip(records, j + 1, currentTripRecords, old(entries), entries, line, vehicle);
        prevRecord := Some(record);
      }

      if currentTripRecords != [] {
        ghost var before := entries;
        OpenTripCurrent(records, |records|, currentTripRecords, old(entries), entries, line, vehicle);
        extended := AddTrip(extended, currentTripRecords, line, vehicle, fmt);
        OpenTripClose(records, currentTripRecords, old(entries), before, line, vehicle);
      } else {
        assert |records| == 0;
      }
    }

    /** constructTripsFromRecords: visits every key of the grouping once, in
        the map's own (unspecified) order, taking the line name and the vehicle
        ref from the first two pieces of the key; order is the visiting order. */
    method ConstructTrips(fmt: Formats) returns (result: seq<BusTrip>, ghost order: seq<string>)
      modifies this`lineIndex, this`vehicleIndex, this`entries
      requires Empty() && WellFormedGroups(busRecordsMap)
      ensures Distinct(order) && forall k :: k in order <==> k in busRecordsMap
      ensures entries == AllEntries(busRecordsMap, order)
      ensures IndexesFollow() && TripsMatch(result, entries) && TripsValid(result)
    {
      result := [];
      order := [];
      var remaining := busRecordsMap.Keys;
      while remaining != {}
        invariant remaining <= busRecordsMap.Keys
        invariant forall k :: k in order <==> k in busRecordsMap && k !in remaining
        invariant Distinct(order)
        invariant entries == AllEntries(busRecordsMap, order)
        invariant IndexesFollow() && TripsMatch(result, entries) && TripsValid(result)
        decreases |remaining|
      {
        var tripCompositeKey :| tripCompositeKey in remaining;
        var records := busRecordsMap[tripCompositeKey];
        var publishLineName := JavaSplit(tripCompositeKey, '|')[0];
        var vehicleRef := JavaSplit(tripCompositeKey, '|')[1];

        result := AddGroupTrips(result, records, publishLineName, vehicleRef, fmt);

        AllEntriesSnoc(busRecordsMap, order, tripCompositeKey);
        DistinctSnoc(order, tripCompositeKey);
        order := order + [tripCompositeKey];
        remaining := remaining - {tripCompositeKey};
      }
    }

    /** The assignment of the built list to the trips field; no trip's arrays
        are written, so each trip stays well formed. */
    method StoreTrips(result: seq<BusTrip>)
      modifies this`trips
      requires IndexesFollow() && TripsMatch(result, entries) && TripsValid(result)
      ensures trips == result && Valid()
      ensures busRecords == old(busRecords) && busRecordsMap == old(busRecordsMap)
      ensures entries == old(entries) && lineIndex == old(lineIndex) && vehicleIndex == old(vehicleIndex)
    {
      trips := result;
    }

    /** initialiseData, with the parser's output as a parameter: group, then
        build the trips. Every valid record ends up in exactly one trip, and
        each trip can be found under its own line name and vehicle ref when
        these contain no "|". */
    method Initialise(parsed: seq<BusRecord>, fmt: Formats) returns (ghost order: seq<string>)
      modifies this`busRecords, this`busRecordsMap, this`lineIndex, this`vehicleIndex, this`entries, this`trips
      requires Empty()
      ensures Valid()
      ensures busRecords == parsed && busRecordsMap == GroupRecords(parsed)
      ensures Distinct(order) && forall k :: k in order <==> k in busRecordsMap
      ensures entries == AllEntries(busRecordsMap, order)
      ensures multiset(Flatten(RecordsOf(entries))) == multiset(FilterValid(parsed))
      ensures forall n :: 0 <= n < |trips| && '|' !in trips[n].publishedLineName && '|' !in trips[n].vehicleRef ==>
        entries[n].line == trips[n].publishedLineName && entries[n].vehicle == trips[n].vehicleRef
    {
      busRecords := parsed;
      busRecordsMap := GroupRecords(parsed);
      var result;
      result, order := ConstructTrips(fmt);
      StoreTrips(result);
      BuiltTrips(parsed, order, trips);
    }

    /** getTripByType: the trips filed under value in the index the type picks
        (publishedLineName, or else vehicleRef), ascending by position. An
        unknown value has no list in the index and the source fails on it;
        that is None here. */
    method GetTripByType(kind: string, value: string) returns (r: Option<seq<BusTrip>>)
      requires Valid()
      ensures var byLine := kind == "publishedLineName";
        r.None? <==> forall n :: 0 <= n < |entries| ==> NameOf(entries[n], byLine) != value
      ensures r.Some? ==> exists ps ::
        && IsPositionsOf(ps, entries, value, kind == "publishedLineName")
        && |r.value| == |ps| && forall i :: 0 <= i < |ps| ==> r.value[i] == trips[ps[i]]
      ensures r.Some? ==> TripsValid(r.value)
    {
      var byLine := kind == "publishedLineName";
      var index := if byLine then lineIndex else vehicleIndex;
      IndexIsPositions(entries, byLine);
      if value !in index {
        return None;
      }
      var tripIndexes := index[value];
      PositionsExact(entries, value, byLine);
      assert IsPositionsOf(tripIndexes, entries, value, byLine);
      var result: seq<BusTrip> := [];
      for i := 0 to |tripIndexes|
        invariant |result| == i && forall j :: 0 <= j < i ==> result[j] == trips[tripIndexes[j]]
      {
        result := result + [trips[tripIndexes[i]]];
      }
      SelectedValid(trips, tripIndexes, result);
      r := Some(result);
    }

    /** getTripByPublishedLineName. */
    method GetTripByPublishedLineName(publishedLineName: string) returns (r: Option<seq<BusTrip>>)
      requires Valid()
      ensures r.None? <==> forall n :: 0 <= n < |entries| ==> entries[n].line != publishedLineName
      ensures r.Some? ==> exists ps ::
        && IsPositionsOf(ps, entries, publishedLineName, true)
        && |r.value| == |ps| && forall i :: 0 <= i < |ps| ==> r.value[i] == trips[ps[i]]
      ensures r.Some? ==> TripsValid(r.value)
    {
      r := GetTripByType("publishedLineName", publishedLineName);
    }

    /** getTripByVehicleRef. */
    method GetTripByVehicleRef(vehicleRef: string) returns (r: Option<seq<BusTrip>>)
      requires Valid()
      ensures r.None? <==> forall n :: 0 <= n < |entries| ==> entries[n].vehicle != vehicleRef
      ensures r.Some? ==> exists ps ::
        && IsPositionsOf(ps, entries, vehicleRef, false)
        && |r.value| == |ps| && forall i :: 0 <= i < |ps| ==> r.value[i] == trips[ps[i]]
      ensures r.Some? ==> TripsValid(r.value)
    {
      assert "vehicleRef" != "publishedLineName" by { assert |"vehicleRef"| != |"publishedLineName"|; }
      r := GetTripByType("vehicleRef", vehicleRef);
    }

    /** getAllPublishedLineName: every line name some trip is filed under, sorted, once each. */
    method GetAllPublishedLineName() returns (r: seq<string>)
      requires Valid()
      ensures StrictlyAscending(r)
      ensures forall name :: name in r <==> exists n :: 0 <= n < |entries| && entries[n].line == name
    {
      IndexIsPositions(entries, true);
      r := SortedKeys(lineIndex);
    }

    /** getAllVehicleRef: every vehicle ref some trip is filed under, sorted, once each. */
    method GetAllVehicleRef() returns (r: seq<string>)
      requires Valid()
      ensures StrictlyAscending(r)
      ensures forall name :: name in r <==> exists n :: 0 <= n < |entries| && entries[n].vehicle == name
    {
      IndexIsPositions(entries, false);
      r := SortedKeys(vehicleIndex);
    }
  }

  /** The walk over a group after its first j records: nothing yet, or the
      previous record is the last one seen and its trip is open. */
  ghost predicate Walked(records: seq<BusRecord>, j: int, current: seq<BusRecord>, prev: Option<BusRecord>,
                         before: seq<TripEntry>, now: seq<TripEntry>, line: string, vehicle: string)
    requires AllTimed(records) && 0 <= j <= |records|
  {
    if j == 0 then current == [] && now == before
    else prev == Some(records[j - 1]) && OpenTrip(records, j, current, before, now, line, vehicle)
  }

  /** The state of the walk over a group after its first j records: the
      trips before the last one are added, the last one is still open. */
  ghost predicate OpenTrip(records: seq<BusRecord>, j: int, current: seq<BusRecord>,
                           before: seq<TripEntry>, now: seq<TripEntry>, line: string, vehicle: string)
    requires AllTimed(records) && 0 < j <= |records|
  {
    var runs := Segment(records[..j]);
    && current == runs[|runs| - 1]
    && now == before + RunEntries(line, vehicle, runs[..|runs| - 1])
  }

  lemma OpenTripFirst(records: seq<BusRecord>, before: seq<TripEntry>, line: string, vehicle: string)
    requires AllTimed(records) && 0 < |records|
    ensures OpenTrip(records, 1, [records[0]], before, before, line, vehicle)
  {
    assert records[..1] == [records[0]];
  }

  lemma OpenTripCurrent(records: seq<BusRecord>, j: int, current: seq<BusRecord>,
                        before: seq<TripEntry>, now: seq<TripEntry>, line: string, vehicle: string)
    requires AllTimed(records) && 0 < j <= |records|
    requires OpenTrip(records, j, current, before, now, line, vehicle)
    ensures |current| > 0 && AllTimed(current)
  {
    SegmentRunsTimed(records[..j]);
  }

  lemma OpenTripNew(records: seq<BusRecord>, j: int, current: seq<BusRecord>,
                    before: seq<TripEntry>, now: seq<TripEntry>, line: string, vehicle: string)
    requires AllTimed(records) && 0 < j < |records|
    requires OpenTrip(records, j, current, before, now, line, vehicle)
    requires IsNewTrip(records[j - 1], records[j])
    ensures OpenTrip(records, j + 1, [records[j]], before, now + [TripEntry(line, vehicle, current)], line, vehicle)
  {
    var runs := Segment(records[..j]);
    var g := records[..j + 1];
    assert g[..j] == records[..j] && g[j - 1] == records[j - 1];
    assert Segment(g) == runs + [[records[j]]];
    RunEntriesSnoc(line, vehicle, runs[..|runs| - 1], runs[|runs| - 1]);
    assert runs[..|runs| - 1] + [runs[|runs| - 1]] == runs;
    assert (runs + [[records[j]]])[..|runs|] == runs;
  }

  lemma OpenTripJoin(records: seq<BusRecord>, j: int, current: seq<BusRecord>,
                     before: seq<TripEntry>, now: seq<TripEntry>, line: string, vehicle: string)
    requires AllTimed(records) && 0 < j < |records|
    requires OpenTrip(records, j, current, before, now, line, vehicle)
    requires !IsNewTrip(records[j - 1], records[j])
    ensures OpenTrip(records, j + 1, current + [records[j]], before, now, line, vehicle)
  {
    var runs := Segment(records[..j]);
    var g := records[..j + 1];
    assert g[..j] == records[..j] && g[j - 1] == records[j - 1];
    var runs' := runs[..|runs| - 1] + [runs[|runs| - 1] + [records[j]]];
    assert Segment(g) == runs';
    assert runs'[..|runs'| - 1] == runs[..|runs| - 1];
  }

  lemma OpenTripClose(records: seq<BusRecord>, current: seq<BusRecord>,
                      before: seq<TripEntry>, now: seq<TripEntry>, line: string, vehicle: string)
    requires AllTimed(records) && 0 < |records|
    requires OpenTrip(records, |records|, current, before, now, line, vehicle)
    ensures now + [TripEntry(line, vehicle, current)] == before + RunEntries(line, vehicle, Segment(records))
  {
    assert records[..|records|] == records;
    var runs := Segment(records);
    var init, last := runs[..|runs| - 1], runs[|runs| - 1];
    assert init + [last] == runs;
    RunEntriesSnoc(line, vehicle, init, last);
    ConcatAssoc(before, RunEntries(line, vehicle, init), [TripEntry(line, vehicle, last)]);
  }

  lemma AllEntriesSnoc(m: map<string, seq<BusRecord>>, order: seq<string>, k: string)
    requires WellFormedGroups(m) && k in m && forall k' :: k' in order ==> k' in m
    ensures AllEntries(m, order + [k]) == AllEntries(m, order) + KeyEntries(m, k)
  {
    assert (order + [k])[..|order|] == order;
  }

  lemma DistinctSnoc(order: seq<string>, k: string)
    requires Distinct(order) && k !in order
    ensures Distinct(order + [k])
  {
  }

  lemma IndexSnoc(es: seq<TripEntry>, e: TripEntry, byLine: bool)
    ensures var m, name := Index(es, byLine), NameOf(e, byLine);
      Index(es + [e], byLine) == m[name := (if name in m then m[name] else []) + [|es|]]
  {
    assert (es + [e])[..|es|] == es;
  }

  lemma TripsMatchSnoc(trips: seq<BusTrip>, es: seq<TripEntry>, t: BusTrip, e: TripEntry)
    requires TripsMatch(trips, es)
    requires t.records == e.records && |e.records| > 0
    requires t.publishedLineName == e.records[0].publishedLineName && t.vehicleRef == e.records[0].vehicleRef
    ensures TripsMatch(trips + [t], es + [e])
  {
  }

  lemma TripsValidSnoc(trips: seq<BusTrip>, t: BusTrip)
    requires TripsValid(trips) && t.Valid()
    ensures TripsValid(trips + [t])
  {
    assert forall n :: 0 <= n < |trips| ==> (trips + [t])[n] == trips[n];
  }

  /** Trips picked by position from well-formed trips are well formed. */
  lemma SelectedValid(trips: seq<BusTrip>, ps: seq<int>, picked: seq<BusTrip>)
    requires TripsValid(trips)
    requires forall i :: 0 <= i < |ps| ==> 0 <= ps[i] < |trips|
    requires |picked| == |ps| && forall i :: 0 <= i < |ps| ==> picked[i] == trips[ps[i]]
    ensures TripsValid(picked)
  {
    forall i | 0 <= i < |picked|
      ensures picked[i].Valid()
    {
      assert trips[ps[i]].Valid();
    }
  }

  /** What initialiseData leaves behind: every valid record in exactly one
      trip, and every trip filed under its records' own names when these
      contain no "|". */
  lemma BuiltTrips(parsed: seq<BusRecord>, order: seq<string>, trips: seq<BusTrip>)
    requires Distinct(order) && forall k :: k in order <==> k in GroupRecords(parsed)
    requires TripsMatch(trips, AllEntries(GroupRecords(parsed), order))
    ensures var es := AllEntries(GroupRecords(parsed), order);
      && multiset(Flatten(RecordsOf(es))) == multiset(FilterValid(parsed))
      && forall n :: 0 <= n < |trips| && '|' !in trips[n].publishedLineName && '|' !in trips[n].vehicleRef ==>
           es[n].line == trips[n].publishedLineName && es[n].vehicle == trips[n].vehicleRef
  {
    TripsPartitionValidRecords(parsed, order);
    var es := AllEntries(GroupRecords(parsed), order);
    forall n | 0 <= n < |trips| && '|' !in trips[n].publishedLineName && '|' !in trips[n].vehicleRef
      ensures es[n].line == trips[n].publishedLineName && es[n].vehicle == trips[n].vehicleRef
    {
      EntryFacts(parsed, order, n);
    }
  }
}
