/** The pure steps of building trips out of position records: the validity
    filter, the stable sort by expected arrival, grouping under the composite
    key, cutting each group into trips at gaps of more than TRIP_WINDOW minutes,
    and the line-name and vehicle-ref indexes over the emitted trips. */
module TripPipeline {
  import opened Text
  import opened Lists
  import opened BusRecords
  import opened BusTrips

  /** TRIP_WINDOW, in whole minutes. */
  const TripWindow: int := 25

  // ---------------------------------------------------------------- filter

  /** isValidRecord: an expected arrival time, a proximity text other than
      "NA" and a distance from the stop. */
  predicate IsValidRecord(r: BusRecord)
  {
    r.expectedArrivalTime.Some? && r.arrivalProximityText != "NA" && r.distanceFromStop.Some?
  }

  /** filter(this::isValidRecord) */
  function FilterValid(rs: seq<BusRecord>): (r: seq<BusRecord>)
    ensures forall x :: x in r <==>
      x in rs && x.expectedArrivalTime.Some? && x.arrivalProximityText != "NA" && x.distanceFromStop.Some?
    ensures AllTimed(r)
  {
    FilterMembers(rs, IsValidRecord);
    Filter(rs, IsValidRecord)
  }

  /** The filter keeps the relative order of the records it keeps: it works
      piece by piece, and keeps a single record exactly when it is valid. */
  lemma FilterValidKeepsOrder(a: seq<BusRecord>, b: seq<BusRecord>, x: BusRecord)
    ensures FilterValid(a + b) == FilterValid(a) + FilterValid(b)
    ensures FilterValid([x]) == if IsValidRecord(x) then [x] else []
  {
    FilterConcat(a, b, IsValidRecord);
    assert [x][1..] == [];
  }

  // ---------------------------------------------------------------- stable sort

  /** Non-decreasing under BusRecordEntity.compareTo. */
  predicate Sorted(s: seq<BusRecord>)
  {
    forall i, j :: 0 <= i < j < |s| ==> ArrivesNoLater(s[i], s[j])
  }

  function TimeIs(t: Option<int>): BusRecord -> bool
  {
    (r: BusRecord) => r.expectedArrivalTime == t
  }

  lemma SortedCons(a: BusRecord, rest: seq<BusRecord>)
    requires Sorted(rest)
    requires forall y :: y in rest ==> ArrivesNoLater(a, y)
    ensures Sorted([a] + rest)
  {
    forall i, j | 0 <= i < j < |[a] + rest| ensures ArrivesNoLater(([a] + rest)[i], ([a] + rest)[j]) {
      assert ([a] + rest)[j] == rest[j - 1];
      if i > 0 {
        assert ([a] + rest)[i] == rest[i - 1];
      }
    }
  }

  /** Places x after the leading records of s that arrive no later than it. */
  function Insert(s: seq<BusRecord>, x: BusRecord): (r: seq<BusRecord>)
    ensures multiset(r) == multiset(s) + multiset{x}
  {
    if |s| == 0 then [x]
    else if TimeBefore(x.expectedArrivalTime, s[0].expectedArrivalTime) then [x] + s
    else
      assert s == [s[0]] + s[1..];
      [s[0]] + Insert(s[1..], x)
  }

  /** Inserting into a sorted list keeps it sorted. */
  lemma {:induction false} InsertSorted(s: seq<BusRecord>, x: BusRecord)
    requires Sorted(s)
    ensures Sorted(Insert(s, x))
  {
    if |s| == 0 {
    } else if TimeBefore(x.expectedArrivalTime, s[0].expectedArrivalTime) {
      forall y | y in s ensures ArrivesNoLater(x, y) {
        var j :| 0 <= j < |s| && s[j] == y;
        assert ArrivesNoLater(s[0], s[j]);
      }
      SortedCons(x, s);
    } else {
      SortedTail(s);
      InsertSorted(s[1..], x);
      var rest := Insert(s[1..], x);
      forall y | y in rest ensures ArrivesNoLater(s[0], y) {
        assert y in multiset(rest);
        if y != x {
          assert y in multiset(s[1..]);
          var j :| 0 <= j < |s[1..]| && s[1..][j] == y;
          assert ArrivesNoLater(s[0], s[j + 1]);
        }
      }
      SortedCons(s[0], rest);
    }
  }

  /** Insertion keeps, for every arrival time, the records with that time in
      their order, with x last among them. */
  lemma {:induction false} InsertKeepsTies(s: seq<BusRecord>, x: BusRecord, t: Option<int>)
    requires Sorted(s)
    ensures Filter(Insert(s, x), TimeIs(t)) == Filter(s, TimeIs(t)) + Filter([x], TimeIs(t))
  {
    if |s| == 0 {
      assert [x][1..] == [];
    } else if TimeBefore(x.expectedArrivalTime, s[0].expectedArrivalTime) {
      InsertFrontKeepsTies(s, x, t);
    } else {
      SortedTail(s);
      InsertKeepsTies(s[1..], x, t);
      InsertLaterKeepsTies(s, x, t);
    }
  }

  lemma InsertFrontKeepsTies(s: seq<BusRecord>, x: BusRecord, t: Option<int>)
    requires Sorted(s) && |s| > 0 && TimeBefore(x.expectedArrivalTime, s[0].expectedArrivalTime)
    ensures Filter(Insert(s, x), TimeIs(t)) == Filter(s, TimeIs(t)) + Filter([x], TimeIs(t))
  {
    var p := TimeIs(t);
    assert Insert(s, x) == [x] + s;
    FilterConcat([x], s, p);
    if p(x) {
      LaterThanTies(s, x, p);
    }
  }

  lemma InsertLaterKeepsTies(s: seq<BusRecord>, x: BusRecord, t: Option<int>)
    requires |s| > 0 && !TimeBefore(x.expectedArrivalTime, s[0].expectedArrivalTime)
    requires Filter(Insert(s[1..], x), TimeIs(t)) == Filter(s[1..], TimeIs(t)) + Filter([x], TimeIs(t))
    ensures Filter(Insert(s, x), TimeIs(t)) == Filter(s, TimeIs(t)) + Filter([x], TimeIs(t))
  {
    var p := TimeIs(t);
    var rest := Insert(s[1..], x);
    var h := if p(s[0]) then [s[0]] else [];
    var a, b := Filter(s[1..], p), Filter([x], p);
    var r := [s[0]] + rest;
    assert r[0] == s[0] && r[1..] == rest;
    assert Filter(r, p) == h + Filter(rest, p);
    assert Filter(r, p) == h + (a + b);
    assert Filter(s, p) == h + a;
    assert Insert(s, x) == r;
    ConcatAssoc(h, a, b);
  }

  lemma SortedTail(s: seq<BusRecord>)
    requires Sorted(s) && |s| > 0
    ensures Sorted(s[1..])
  {
    forall i, j | 0 <= i < j < |s[1..]| ensures ArrivesNoLater(s[1..][i], s[1..][j]) {
      assert s[1..][i] == s[i + 1] && s[1..][j] == s[j + 1];
    }
  }

  /** No record of a sorted list that starts after x has x's arrival time. */
  lemma LaterThanTies(s: seq<BusRecord>, x: BusRecord, p: BusRecord -> bool)
    requires Sorted(s) && |s| > 0
    requires TimeBefore(x.expectedArrivalTime, s[0].expectedArrivalTime)
    requires p == TimeIs(x.expectedArrivalTime)
    ensures Filter(s, p) == []
  {
    forall y | y in s ensures !p(y) {
      var j :| 0 <= j < |s| && s[j] == y;
      assert ArrivesNoLater(s[0], s[j]);
    }
    FilterNone(s, p);
  }

  /** The stream's sorted(): a stable sort, by insertion of each record in turn. */
  function SortByArrival(s: seq<BusRecord>): (r: seq<BusRecord>)
    ensures Sorted(r)
    ensures multiset(r) == multiset(s)
  {
    if |s| == 0 then []
    else
      assert s == s[..|s| - 1] + [s[|s| - 1]];
      InsertSorted(SortByArrival(s[..|s| - 1]), s[|s| - 1]);
      Insert(SortByArrival(s[..|s| - 1]), s[|s| - 1])
  }

  /** Stability: the records with any one arrival time keep their input order. */
  lemma {:induction false} SortIsStable(s: seq<BusRecord>, t: Option<int>)
    ensures Filter(SortByArrival(s), TimeIs(t)) == Filter(s, TimeIs(t))
  {
    if |s| > 0 {
      var init, x := s[..|s| - 1], s[|s| - 1];
      SortIsStable(init, t);
      InsertKeepsTies(SortByArrival(init), x, t);
      assert s == init + [x];
      FilterConcat(init, [x], TimeIs(t));
    }
  }

  lemma {:induction false} FilterKeepsSorted(s: seq<BusRecord>, p: BusRecord -> bool)
    requires Sorted(s)
    ensures Sorted(Filter(s, p))
  {
    if |s| > 0 {
      FilterKeepsSorted(s[1..], p);
      FilterMembers(s[1..], p);
      var rest := Filter(s[1..], p);
      assert forall y :: y in rest ==> ArrivesNoLater(s[0], y) by {
        forall y | y in rest ensures ArrivesNoLater(s[0], y) {
          var j :| 0 <= j < |s[1..]| && s[1..][j] == y;
          assert s[j + 1] == y;
        }
      }
    }
  }

  // ---------------------------------------------------------------- grouping

  /** createCompositeKey: line, vehicle, direction, origin and destination joined by "|". */
  function CompositeKey(r: BusRecord): string
  {
    Join([r.publishedLineName, r.vehicleRef, IntToDecimal(r.directionRef), r.originName, r.destinationName], '|')
  }

  lemma DecimalHasNoBar(i: int)
    ensures '|' !in IntToDecimal(i)
  {
    var d := IntToDecimal(i);
    assert forall k :: 0 <= k < |d| ==> d[k] != '|';
  }

  /** The pieces of a key are those of its five fields, the direction being one piece. */
  lemma KeyPieces(r: BusRecord)
    ensures Pieces(CompositeKey(r), '|') ==
      Pieces(r.publishedLineName, '|') + Pieces(r.vehicleRef, '|') + [IntToDecimal(r.directionRef)]
      + Pieces(r.originName, '|') + Pieces(r.destinationName, '|')
  {
    var d := IntToDecimal(r.directionRef);
    var parts := [r.publishedLineName, r.vehicleRef, d, r.originName, r.destinationName];
    DecimalHasNoBar(r.directionRef);
    PiecesOfPlain(d, '|');
    var j4 := Join([r.originName, r.destinationName], '|');
    assert [r.originName, r.destinationName][1..] == [r.destinationName];
    assert Join([r.destinationName], '|') == r.destinationName;
    assert j4 == r.originName + ['|'] + r.destinationName;
    var j3 := Join([d, r.originName, r.destinationName], '|');
    assert [d, r.originName, r.destinationName][1..] == [r.originName, r.destinationName];
    assert j3 == d + ['|'] + j4;
    var j2 := Join([r.vehicleRef, d, r.originName, r.destinationName], '|');
    assert [r.vehicleRef, d, r.originName, r.destinationName][1..] == [d, r.originName, r.destinationName];
    assert j2 == r.vehicleRef + ['|'] + j3;
    assert parts[1..] == [r.vehicleRef, d, r.originName, r.destinationName];
    assert CompositeKey(r) == r.publishedLineName + ['|'] + j2;
    PiecesOfSeparated(r.originName, r.destinationName, '|');
    PiecesOfSeparated(d, j4, '|');
    PiecesOfSeparated(r.vehicleRef, j3, '|');
    PiecesOfSeparated(r.publishedLineName, j2, '|');
  }

  /** Whatever the fields hold, splitting a key gives at least three pieces, so
      the look-ups at indexes 0 and 1 never fail. */
  lemma KeySplitLength(r: BusRecord)
    ensures |JavaSplit(CompositeKey(r), '|')| >= 3
  {
    var parts := [r.publishedLineName, r.vehicleRef, IntToDecimal(r.directionRef), r.originName, r.destinationName];
    JoinContainsSeparator(parts, '|');
    KeyPieces(r);
    var ps := Pieces(CompositeKey(r), '|');
    var at := |Pieces(r.publishedLineName, '|')| + |Pieces(r.vehicleRef, '|')|;
    assert ps[at] == IntToDecimal(r.directionRef);
  }

  /** When neither the line name nor the vehicle ref contains "|", the key
      splits back into them at indexes 0 and 1. */
  lemma KeySplitNames(r: BusRecord)
    requires '|' !in r.publishedLineName && '|' !in r.vehicleRef
    ensures |JavaSplit(CompositeKey(r), '|')| >= 3
    ensures JavaSplit(CompositeKey(r), '|')[0] == r.publishedLineName
    ensures JavaSplit(CompositeKey(r), '|')[1] == r.vehicleRef
  {
    KeySplitLength(r);
    KeyPieces(r);
    PiecesOfPlain(r.publishedLineName, '|');
    PiecesOfPlain(r.vehicleRef, '|');
    var parts := [r.publishedLineName, r.vehicleRef, IntToDecimal(r.directionRef), r.originName, r.destinationName];
    JoinContainsSeparator(parts, '|');
  }

  function KeyIs(k: string): BusRecord -> bool
  {
    (r: BusRecord) => CompositeKey(r) == k
  }

  /** Collectors.groupingBy(this::createCompositeKey): one list per key that
      occurs, holding that key's records in encounter order. */
  function GroupByKey(s: seq<BusRecord>): (g: map<string, seq<BusRecord>>)
    ensures forall x :: x in s ==> CompositeKey(x) in g
    ensures forall k :: k in g ==> |g[k]| > 0 && forall x :: x in g[k] ==> x in s && CompositeKey(x) == k
    ensures forall k, x :: k in g ==>
      multiset(g[k])[x] == if CompositeKey(x) == k then multiset(s)[x] else 0
  {
    var g := map k | k in (set r | r in s :: CompositeKey(r)) :: Filter(s, KeyIs(k));
    forall k | k in g ensures |g[k]| > 0 && forall x :: x in g[k] ==> x in s && CompositeKey(x) == k {
      var r :| r in s && CompositeKey(r) == k;
      KeyGroupMembers(s, k, r);
    }
    forall k, x | k in g ensures multiset(g[k])[x] == if CompositeKey(x) == k then multiset(s)[x] else 0 {
      FilterCount(s, KeyIs(k), x);
    }
    g
  }

  /** The records selected for a key that occurs: at least that record, all with the key. */
  lemma KeyGroupMembers(s: seq<BusRecord>, k: string, r: BusRecord)
    requires r in s && CompositeKey(r) == k
    ensures |Filter(s, KeyIs(k))| > 0
    ensures forall x :: x in Filter(s, KeyIs(k)) ==> x in s && CompositeKey(x) == k
  {
    FilterMembers(s, KeyIs(k));
    assert r in Filter(s, KeyIs(k));
  }

  /** groupRecordsByCompositeKey: filter, then sort, then group. Every group
      holds timed records, all valid and all with the group's key. */
  function GroupRecords(records: seq<BusRecord>): (g: map<string, seq<BusRecord>>)
    ensures WellFormedGroups(g)
    ensures forall k, x :: k in g && x in g[k] ==> x in FilterValid(records) && CompositeKey(x) == k
  {
    var v := FilterValid(records);
    var s := SortByArrival(v);
    SortedMembers(v);
    GroupsWellFormed(s);
    GroupByKey(s)
  }

  lemma SortedMembers(v: seq<BusRecord>)
    ensures forall x :: x in SortByArrival(v) <==> x in v
  {
    forall x ensures x in SortByArrival(v) <==> x in v {
      assert x in SortByArrival(v) <==> x in multiset(SortByArrival(v));
    }
  }

  /** Grouping timed records gives timed groups under keys of at least two pieces. */
  lemma GroupsWellFormed(s: seq<BusRecord>)
    requires AllTimed(s)
    ensures WellFormedGroups(GroupByKey(s))
  {
    var g := GroupByKey(s);
    forall k | k in g ensures AllTimed(g[k]) && |JavaSplit(k, '|')| >= 2 {
      assert g[k][0] in g[k];
      KeySplitLength(g[k][0]);
      forall i | 0 <= i < |g[k]| ensures g[k][i].expectedArrivalTime.Some? {
        assert g[k][i] in g[k];
      }
    }
  }

  /** Each group holds exactly the valid records with its key, with their
      multiplicities: nothing is lost or duplicated by the pipeline. */
  lemma GroupsPartitionValidRecords(records: seq<BusRecord>, x: BusRecord)
    ensures x in FilterValid(records) ==> CompositeKey(x) in GroupRecords(records)
    ensures forall k :: k in GroupRecords(records) ==>
      multiset(GroupRecords(records)[k])[x] ==
        if CompositeKey(x) == k then multiset(FilterValid(records))[x] else 0
  {
    var v := FilterValid(records);
    assert x in v ==> x in multiset(SortByArrival(v));
  }

  /** Each group is in non-decreasing arrival order, and records with equal
      arrival times keep their input order. */
  lemma GroupsSortedAndStable(records: seq<BusRecord>, k: string, t: Option<int>)
    requires k in GroupRecords(records)
    ensures Sorted(GroupRecords(records)[k])
    ensures Filter(GroupRecords(records)[k], TimeIs(t)) ==
      Filter(Filter(FilterValid(records), KeyIs(k)), TimeIs(t))
  {
    var v := FilterValid(records);
    var s := SortByArrival(v);
    assert GroupRecords(records)[k] == Filter(s, KeyIs(k));
    FilterKeepsSorted(s, KeyIs(k));
    FilterCommute(s, KeyIs(k), TimeIs(t));
    SortIsStable(v, t);
    FilterCommute(v, TimeIs(t), KeyIs(k));
  }

  // ---------------------------------------------------------------- segmentation

  /** ChronoUnit.MINUTES.between on times in seconds: whole minutes from a to
      b, truncated toward zero. */
  function MinutesBetween(a: int, b: int): (m: int)
    ensures a <= b ==> 0 <= m && 60 * m <= b - a < 60 * m + 60
    ensures b < a ==> m <= 0 && 60 * -m <= a - b < 60 * -m + 60
  {
    if a <= b then (b - a) / 60 else -((a - b) / 60)
  }

  /** isNewTrip: the gap from the previous record is more than TRIP_WINDOW minutes. */
  predicate IsNewTrip(prev: BusRecord, cur: BusRecord)
    requires prev.expectedArrivalTime.Some? && cur.expectedArrivalTime.Some?
  {
    MinutesBetween(prev.expectedArrivalTime.value, cur.expectedArrivalTime.value) > TripWindow
  }

  /** On a sorted group the gap rule is (t_cur - t_prev) / 60 > 25. */
  lemma SortedGap(prev: BusRecord, cur: BusRecord)
    requires prev.expectedArrivalTime.Some? && cur.expectedArrivalTime.Some?
    requires ArrivesNoLater(prev, cur)
    ensures IsNewTrip(prev, cur) <==>
      (cur.expectedArrivalTime.value - prev.expectedArrivalTime.value) / 60 > 25
  {
  }

  /** The trips the walk over one group emits, record by record: the first
      record opens a trip, and each later one opens a new trip when it is a new
      trip relative to the record before it, and joins the open trip otherwise. */
  function Segment(g: seq<BusRecord>): (runs: seq<seq<BusRecord>>)
    requires AllTimed(g)
    ensures |g| > 0 <==> |runs| > 0
    ensures forall q :: 0 <= q < |runs| ==> |runs[q]| > 0
  {
    if |g| == 0 then []
    else if |g| == 1 then [g]
    else
      var runs := Segment(g[..|g| - 1]);
      var x := g[|g| - 1];
      if IsNewTrip(g[|g| - 2], x) then runs + [[x]]
      else runs[..|runs| - 1] + [runs[|runs| - 1] + [x]]
  }

  /** Concatenating the trips gives the group back. */
  lemma {:induction false} SegmentFlattens(g: seq<BusRecord>)
    requires AllTimed(g)
    ensures Flatten(Segment(g)) == g
  {
    if |g| > 1 {
      var init := g[..|g| - 1];
      var runs := Segment(init);
      var x := g[|g| - 1];
      SegmentFlattens(init);
      assert g == init + [x];
      if !IsNewTrip(g[|g| - 2], x) {
        FlattenJoin(runs, x);
      }
    } else if |g| == 1 {
      assert Flatten([g]) == Flatten([]) + g;
    }
  }

  /** Inside one trip, consecutive records are at most TRIP_WINDOW minutes apart. */
  predicate WithinWindow(run: seq<BusRecord>)
    requires AllTimed(run)
  {
    forall i :: 0 < i < |run| ==> !IsNewTrip(run[i - 1], run[i])
  }

  /** Between the last record of one trip and the first of the next, the gap
      is more than TRIP_WINDOW minutes. */
  predicate Separated(runs: seq<seq<BusRecord>>)
    requires forall q :: 0 <= q < |runs| ==> |runs[q]| > 0 && AllTimed(runs[q])
  {
    forall q :: 0 < q < |runs| ==> Gap(runs[q - 1], runs[q])
  }

  predicate Gap(before: seq<BusRecord>, after: seq<BusRecord>)
    requires |before| > 0 && |after| > 0 && AllTimed(before) && AllTimed(after)
  {
    IsNewTrip(before[|before| - 1], after[0])
  }

  lemma {:induction false} SegmentRunsTimed(g: seq<BusRecord>)
    requires AllTimed(g)
    ensures forall q :: 0 <= q < |Segment(g)| ==> AllTimed(Segment(g)[q])
    ensures |g| > 0 ==> var runs := Segment(g); runs[|runs| - 1][|runs[|runs| - 1]| - 1] == g[|g| - 1]
  {
    if |g| > 1 {
      SegmentRunsTimed(g[..|g| - 1]);
    }
  }

  /** Every trip of runs keeps within the window. */
  predicate AllWithinWindow(runs: seq<seq<BusRecord>>)
    requires forall q :: 0 <= q < |runs| ==> AllTimed(runs[q])
  {
    forall q :: 0 <= q < |runs| ==> WithinWindow(runs[q])
  }

  /** A record that is not a new trip relative to the open trip's last record
      keeps the open trip within the window. */
  lemma JoinKeepsWindow(runs: seq<seq<BusRecord>>, x: BusRecord)
    requires |runs| > 0 && forall q :: 0 <= q < |runs| ==> |runs[q]| > 0 && AllTimed(runs[q])
    requires x.expectedArrivalTime.Some? && AllWithinWindow(runs)
    requires !IsNewTrip(runs[|runs| - 1][|runs[|runs| - 1]| - 1], x)
    ensures var runs' := runs[..|runs| - 1] + [runs[|runs| - 1] + [x]];
      (forall q :: 0 <= q < |runs'| ==> AllTimed(runs'[q])) && AllWithinWindow(runs')
  {
    var last := runs[|runs| - 1];
    var ext := last + [x];
    assert WithinWindow(last);
    forall i | 0 < i < |ext| ensures !IsNewTrip(ext[i - 1], ext[i]) {
      if i < |last| {
        assert ext[i - 1] == last[i - 1] && ext[i] == last[i];
      }
    }
    var runs' := runs[..|runs| - 1] + [ext];
    forall q | 0 <= q < |runs'| ensures AllTimed(runs'[q]) && WithinWindow(runs'[q]) {
      if q < |runs| - 1 {
        assert runs'[q] == runs[q];
      }
    }
  }

  /** A one-record trip is within the window. */
  lemma OpenKeepsWindow(runs: seq<seq<BusRecord>>, x: BusRecord)
    requires forall q :: 0 <= q < |runs| ==> AllTimed(runs[q])
    requires x.expectedArrivalTime.Some? && AllWithinWindow(runs)
    ensures var runs' := runs + [[x]];
      (forall q :: 0 <= q < |runs'| ==> AllTimed(runs'[q])) && AllWithinWindow(runs')
  {
    var runs' := runs + [[x]];
    forall q | 0 <= q < |runs'| ensures AllTimed(runs'[q]) && WithinWindow(runs'[q]) {
      if q < |runs| {
        assert runs'[q] == runs[q];
      }
    }
  }

  /** Inside every emitted trip, consecutive records are at most TRIP_WINDOW minutes apart. */
  lemma {:induction false} SegmentWithinWindow(g: seq<BusRecord>)
    requires AllTimed(g)
    ensures forall q :: 0 <= q < |Segment(g)| ==> AllTimed(Segment(g)[q])
    ensures AllWithinWindow(Segment(g))
  {
    SegmentRunsTimed(g);
    if |g| > 1 {
      var init := g[..|g| - 1];
      var x := g[|g| - 1];
      SegmentWithinWindow(init);
      SegmentRunsTimed(init);
      assert init[|init| - 1] == g[|g| - 2];
      if !IsNewTrip(g[|g| - 2], x) {
        JoinKeepsWindow(Segment(init), x);
      } else {
        OpenKeepsWindow(Segment(init), x);
      }
    }
  }

  /** Consecutive trips of one group are separated by more than TRIP_WINDOW minutes. */
  lemma {:induction false} SegmentSeparated(g: seq<BusRecord>)
    requires AllTimed(g)
    ensures forall q :: 0 <= q < |Segment(g)| ==> AllTimed(Segment(g)[q])
    ensures Separated(Segment(g))
  {
    SegmentRunsTimed(g);
    if |g| > 1 {
      var init := g[..|g| - 1];
      var runs := Segment(init);
      var x := g[|g| - 1];
      SegmentSeparated(init);
      SegmentRunsTimed(init);
      assert init[|init| - 1] == g[|g| - 2];
      if !IsNewTrip(g[|g| - 2], x) {
        JoinKeepsSeparated(runs, x);
      } else {
        OpenKeepsSeparated(runs, x);
      }
    }
  }

  lemma JoinKeepsSeparated(runs: seq<seq<BusRecord>>, x: BusRecord)
    requires |runs| > 0 && forall q :: 0 <= q < |runs| ==> |runs[q]| > 0 && AllTimed(runs[q])
    requires x.expectedArrivalTime.Some? && Separated(runs)
    ensures var runs' := runs[..|runs| - 1] + [runs[|runs| - 1] + [x]];
      (forall q :: 0 <= q < |runs'| ==> |runs'[q]| > 0 && AllTimed(runs'[q])) && Separated(runs')
  {
    var last := runs[|runs| - 1];
    var runs' := runs[..|runs| - 1] + [last + [x]];
    forall q | 0 <= q < |runs'| ensures |runs'[q]| > 0 && AllTimed(runs'[q]) {
      if q < |runs| - 1 { assert runs'[q] == runs[q]; }
    }
    forall q | 0 < q < |runs'| ensures Gap(runs'[q - 1], runs'[q]) {
      assert runs'[q - 1] == runs[q - 1];
      if q < |runs| - 1 {
        assert runs'[q] == runs[q];
      } else {
        assert runs'[q][0] == runs[q][0];
      }
    }
  }

  lemma OpenKeepsSeparated(runs: seq<seq<BusRecord>>, x: BusRecord)
    requires |runs| > 0 && forall q :: 0 <= q < |runs| ==> |runs[q]| > 0 && AllTimed(runs[q])
    requires x.expectedArrivalTime.Some? && Separated(runs)
    requires IsNewTrip(runs[|runs| - 1][|runs[|runs| - 1]| - 1], x)
    ensures var runs' := runs + [[x]];
      (forall q :: 0 <= q < |runs'| ==> |runs'[q]| > 0 && AllTimed(runs'[q])) && Separated(runs')
  {
    var runs' := runs + [[x]];
    forall q | 0 < q < |runs'| ensures Gap(runs'[q - 1], runs'[q]) {
      assert runs'[q - 1] == runs[q - 1];
      if q < |runs| {
        assert runs'[q] == runs[q];
      }
    }
  }

  /** TRIP_WINDOW on a small case: records at 10:00, 10:10 and 10:50 of one
      group make two trips, the first of two records. */
  lemma SegmentExample(a: BusRecord, b: BusRecord, c: BusRecord)
    requires a.expectedArrivalTime == Some(36000)
    requires b.expectedArrivalTime == Some(36600)
    requires c.expectedArrivalTime == Some(39000)
    ensures Segment([a, b, c]) == [[a, b], [c]]
  {
    assert [a, b, c][..2] == [a, b] && [a, b][..1] == [a];
    assert Segment([a]) == [[a]];
    assert !IsNewTrip(a, b) && IsNewTrip(b, c);
    assert [a] + [b] == [a, b];
    assert [[a]][..0] + [[a] + [b]] == [[a, b]];
    assert Segment([a, b]) == [[a, b]];
  }

  // ---------------------------------------------------------------- trips and indexes

  /** What one addTrip call records: the names it indexes the trip under and
      the records the trip is built from. */
  datatype TripEntry = TripEntry(line: string, vehicle: string, records: seq<BusRecord>)

  function NameOf(e: TripEntry, byLine: bool): string
  {
    if byLine then e.line else e.vehicle
  }

  /** The index after addTrip has been called once per entry, in order:
      putIfAbsent of an empty list, then an append of the new trip's position. */
  function Index(es: seq<TripEntry>, byLine: bool): map<string, seq<int>>
  {
    if |es| == 0 then map[]
    else
      var m := Index(es[..|es| - 1], byLine);
      var name := NameOf(es[|es| - 1], byLine);
      m[name := (if name in m then m[name] else []) + [|es| - 1]]
  }

  /** Reference definition: the positions of the entries with the given name, ascending. */
  function Positions(es: seq<TripEntry>, name: string, byLine: bool): seq<int>
  {
    if |es| == 0 then []
    else Positions(es[..|es| - 1], name, byLine) + (if NameOf(es[|es| - 1], byLine) == name then [|es| - 1] else [])
  }

  lemma {:induction false} PositionsNone(es: seq<TripEntry>, name: string, byLine: bool)
    requires forall n :: 0 <= n < |es| ==> NameOf(es[n], byLine) != name
    ensures Positions(es, name, byLine) == []
  {
    if |es| > 0 {
      var init := es[..|es| - 1];
      assert forall n :: 0 <= n < |init| ==> init[n] == es[n];
      PositionsNone(init, name, byLine);
    }
  }

  /** The positions are ascending, in range, exactly those of the entries with the name. */
  lemma {:induction false} PositionsExact(es: seq<TripEntry>, name: string, byLine: bool)
    ensures forall i :: 0 <= i < |Positions(es, name, byLine)| ==>
      0 <= Positions(es, name, byLine)[i] < |es| && NameOf(es[Positions(es, name, byLine)[i]], byLine) == name
    ensures forall i, j :: 0 <= i < j < |Positions(es, name, byLine)| ==>
      Positions(es, name, byLine)[i] < Positions(es, name, byLine)[j]
    ensures forall n :: 0 <= n < |es| && NameOf(es[n], byLine) == name ==> n in Positions(es, name, byLine)
  {
    if |es| > 0 {
      var init := es[..|es| - 1];
      PositionsExact(init, name, byLine);
      var rest := Positions(init, name, byLine);
      var tail := if NameOf(es[|es| - 1], byLine) == name then [|es| - 1] else [];
      var ps := rest + tail;
      assert ps == Positions(es, name, byLine);
      forall i | 0 <= i < |ps| ensures 0 <= ps[i] < |es| && NameOf(es[ps[i]], byLine) == name {
        if i < |rest| {
          assert ps[i] == rest[i] && init[rest[i]] == es[rest[i]];
        }
      }
      forall i, j | 0 <= i < j < |ps| ensures ps[i] < ps[j] {
        if j < |rest| {
          assert ps[i] == rest[i] && ps[j] == rest[j];
        } else {
          assert ps[i] == rest[i];
        }
      }
      forall n | 0 <= n < |es| && NameOf(es[n], byLine) == name ensures n in ps {
        if n < |init| {
          assert init[n] == es[n];
          assert n in rest;
        } else {
          assert ps[|rest|] == n;
        }
      }
    }
  }

  /** The index has a key for exactly the names that occur, and under each the
      positions of the trips with that name, in the order they were added. */
  lemma {:induction false} IndexIsPositions(es: seq<TripEntry>, byLine: bool)
    ensures forall name :: name in Index(es, byLine) <==> exists n :: 0 <= n < |es| && NameOf(es[n], byLine) == name
    ensures forall name :: name in Index(es, byLine) ==> Index(es, byLine)[name] == Positions(es, name, byLine)
  {
    if |es| > 0 {
      var init := es[..|es| - 1];
      IndexIsPositions(init, byLine);
      forall name ensures name in Index(es, byLine) <==> exists n :: 0 <= n < |es| && NameOf(es[n], byLine) == name {
        if name in Index(init, byLine) {
          var n :| 0 <= n < |init| && NameOf(init[n], byLine) == name;
          assert es[n] == init[n];
        }
        if exists n :: 0 <= n < |es| && NameOf(es[n], byLine) == name {
          var n :| 0 <= n < |es| && NameOf(es[n], byLine) == name;
          if n < |init| {
            assert init[n] == es[n];
          }
        }
      }
      forall name | name in Index(es, byLine) ensures Index(es, byLine)[name] == Positions(es, name, byLine) {
        if name !in Index(init, byLine) {
          PositionsNone(init, name, byLine);
        }
      }
    }
  }

  /** The trips one group contributes, all under the names taken from its key. */
  function RunEntries(line: string, vehicle: string, runs: seq<seq<BusRecord>>): (es: seq<TripEntry>)
    ensures |es| == |runs|
    ensures forall q :: 0 <= q < |runs| ==> es[q] == TripEntry(line, vehicle, runs[q])
  {
    seq(|runs|, q requires 0 <= q < |runs| => TripEntry(line, vehicle, runs[q]))
  }

  /** The keys of a grouping: every group is timed and every key splits into
      at least two pieces. */
  predicate WellFormedGroups(m: map<string, seq<BusRecord>>)
  {
    forall k :: k in m ==> AllTimed(m[k]) && |JavaSplit(k, '|')| >= 2
  }

  function KeyEntries(m: map<string, seq<BusRecord>>, k: string): seq<TripEntry>
    requires WellFormedGroups(m) && k in m
  {
    var pieces := JavaSplit(k, '|');
    RunEntries(pieces[0], pieces[1], Segment(m[k]))
  }

  /** The entries constructTripsFromRecords records when it visits the keys in the given order. */
  function AllEntries(m: map<string, seq<BusRecord>>, order: seq<string>): seq<TripEntry>
    requires WellFormedGroups(m)
    requires forall k :: k in order ==> k in m
  {
    if |order| == 0 then []
    else AllEntries(m, order[..|order| - 1]) + KeyEntries(m, order[|order| - 1])
  }

  /** No key is visited twice. */
  predicate Distinct(order: seq<string>)
  {
    forall i, j :: 0 <= i < j < |order| ==> order[i] != order[j]
  }

  /** Dropping the last key keeps the rest distinct and without that key. */
  lemma DistinctInit(order: seq<string>)
    requires |order| > 0 && Distinct(order)
    ensures Distinct(order[..|order| - 1]) && order[|order| - 1] !in order[..|order| - 1]
    ensures forall k :: k in order[..|order| - 1] ==> k in order
  {
    var init := order[..|order| - 1];
    forall i | 0 <= i < |init| ensures init[i] == order[i] && init[i] != order[|order| - 1] {
    }
  }

  /** The record lists of the entries, in order. */
  function RecordsOf(es: seq<TripEntry>): (rs: seq<seq<BusRecord>>)
    ensures |rs| == |es| && forall n :: 0 <= n < |es| ==> rs[n] == es[n].records
  {
    seq(|es|, n requires 0 <= n < |es| => es[n].records)
  }

  lemma RunEntriesSnoc(line: string, vehicle: string, runs: seq<seq<BusRecord>>, run: seq<BusRecord>)
    ensures RunEntries(line, vehicle, runs + [run]) == RunEntries(line, vehicle, runs) + [TripEntry(line, vehicle, run)]
  {
  }

  /** The trips of one group, read back in emission order, are the group's
      records, each trip non-empty and within the window, consecutive trips
      apart by more than the window. */
  lemma KeyEntriesCoverGroup(m: map<string, seq<BusRecord>>, k: string)
    requires WellFormedGroups(m) && k in m
    ensures Flatten(RecordsOf(KeyEntries(m, k))) == m[k]
    ensures forall q :: 0 <= q < |Segment(m[k])| ==> AllTimed(Segment(m[k])[q])
    ensures AllWithinWindow(Segment(m[k])) && Separated(Segment(m[k]))
  {
    assert RecordsOf(KeyEntries(m, k)) == Segment(m[k]);
    SegmentFlattens(m[k]);
    SegmentWithinWindow(m[k]);
    SegmentSeparated(m[k]);
  }

  lemma RecordsOfConcat(a: seq<TripEntry>, b: seq<TripEntry>)
    ensures RecordsOf(a + b) == RecordsOf(a) + RecordsOf(b)
  {
  }

  /** Visiting distinct keys of a grouping puts every record of a visited
      group into the trips as often as it occurs in its group, and no other record. */
  lemma {:induction false} EntriesCountRecords(m: map<string, seq<BusRecord>>, order: seq<string>, x: BusRecord)
    requires WellFormedGroups(m) && forall k :: k in order ==> k in m
    requires forall k, y :: k in m && y in m[k] ==> CompositeKey(y) == k
    requires Distinct(order)
    ensures multiset(Flatten(RecordsOf(AllEntries(m, order))))[x] ==
      if CompositeKey(x) in order then multiset(m[CompositeKey(x)])[x] else 0
  {
    if |order| > 0 {
      var init, k := order[..|order| - 1], order[|order| - 1];
      DistinctInit(order);
      EntriesCountRecords(m, init, x);
      var before, here := RecordsOf(AllEntries(m, init)), RecordsOf(KeyEntries(m, k));
      RecordsOfConcat(AllEntries(m, init), KeyEntries(m, k));
      FlattenConcat(before, here);
      KeyEntriesCoverGroup(m, k);
      assert CompositeKey(x) in order <==> CompositeKey(x) in init || CompositeKey(x) == k;
      if CompositeKey(x) != k {
        assert x !in m[k];
      }
    }
  }

  /** The trips built from all groups hold exactly the valid records, each as
      often as it occurs among them. */
  lemma TripsPartitionValidRecords(records: seq<BusRecord>, order: seq<string>)
    requires forall k :: k in order <==> k in GroupRecords(records)
    requires Distinct(order)
    ensures multiset(Flatten(RecordsOf(AllEntries(GroupRecords(records), order)))) == multiset(FilterValid(records))
  {
    var g := GroupRecords(records);
    var all := Flatten(RecordsOf(AllEntries(g, order)));
    forall x ensures multiset(all)[x] == multiset(FilterValid(records))[x] {
      EntriesCountRecords(g, order, x);
      GroupsPartitionValidRecords(records, x);
    }
  }

  lemma SortedSplit(a: seq<BusRecord>, b: seq<BusRecord>)
    requires Sorted(a + b)
    ensures Sorted(a) && Sorted(b)
  {
    forall i, j | 0 <= i < j < |b| ensures ArrivesNoLater(b[i], b[j]) {
      assert b[i] == (a + b)[|a| + i] && b[j] == (a + b)[|a| + j];
    }
    forall i, j | 0 <= i < j < |a| ensures ArrivesNoLater(a[i], a[j]) {
      assert a[i] == (a + b)[i] && a[j] == (a + b)[j];
    }
  }

  /** A piece of a sorted concatenation is sorted. */
  lemma {:induction false} PieceOfSorted(ss: seq<seq<BusRecord>>, q: int)
    requires 0 <= q < |ss| && Sorted(Flatten(ss))
    ensures Sorted(ss[q])
  {
    var init := ss[..|ss| - 1];
    SortedSplit(Flatten(init), ss[|ss| - 1]);
    if q < |ss| - 1 {
      PieceOfSorted(init, q);
    }
  }

  /** Every entry is one trip of one visited group, named after that group's key. */
  lemma {:induction false} EntryOrigin(m: map<string, seq<BusRecord>>, order: seq<string>, n: int)
    requires WellFormedGroups(m) && forall k :: k in order ==> k in m
    requires 0 <= n < |AllEntries(m, order)|
    ensures exists k, q :: (k in order && 0 <= q < |Segment(m[k])| &&
      AllEntries(m, order)[n] == TripEntry(JavaSplit(k, '|')[0], JavaSplit(k, '|')[1], Segment(m[k])[q]))
  {
    var init, k := order[..|order| - 1], order[|order| - 1];
    assert forall k' :: k' in init ==> k' in order;
    var before := AllEntries(m, init);
    if n < |before| {
      EntryOrigin(m, init, n);
      var k', q :| k' in init && 0 <= q < |Segment(m[k'])| &&
        before[n] == TripEntry(JavaSplit(k', '|')[0], JavaSplit(k', '|')[1], Segment(m[k'])[q]);
      assert AllEntries(m, order)[n] == before[n];
    } else {
      var q := n - |before|;
      assert AllEntries(m, order)[n] == KeyEntries(m, k)[q];
    }
  }

  /** Every trip is non-empty, in arrival order and within the window, and
      all its records are valid and share one key; when line names and vehicle
      refs contain no "|", the names it is indexed under are its records'. */
  lemma EntryFacts(records: seq<BusRecord>, order: seq<string>, n: int)
    requires forall k :: k in order ==> k in GroupRecords(records)
    requires 0 <= n < |AllEntries(GroupRecords(records), order)|
    ensures var e := AllEntries(GroupRecords(records), order)[n];
      && |e.records| > 0 && AllTimed(e.records) && WithinWindow(e.records) && Sorted(e.records)
      && (forall x :: x in e.records ==> x in FilterValid(records) && CompositeKey(x) == CompositeKey(e.records[0]))
      && ('|' !in e.records[0].publishedLineName && '|' !in e.records[0].vehicleRef ==>
            e.line == e.records[0].publishedLineName && e.vehicle == e.records[0].vehicleRef)
  {
    var g := GroupRecords(records);
    EntryOrigin(g, order, n);
    var k, q :| k in order && 0 <= q < |Segment(g[k])| &&
      AllEntries(g, order)[n] == TripEntry(JavaSplit(k, '|')[0], JavaSplit(k, '|')[1], Segment(g[k])[q]);
    var run := Segment(g[k])[q];
    KeyEntriesCoverGroup(g, k);
    SegmentFlattens(g[k]);
    GroupsSortedAndStable(records, k, None);
    PieceOfSorted(Segment(g[k]), q);
    forall x | x in run ensures x in g[k] {
      FlattenMembers(Segment(g[k]), q, x);
    }
    assert run[0] in run;
    if '|' !in run[0].publishedLineName && '|' !in run[0].vehicleRef {
      KeySplitNames(run[0]);
    }
  }
}
