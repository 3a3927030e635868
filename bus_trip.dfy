/** A trip: the records of one vehicle on one route-direction-origin-destination
    run, laid out as a coordinate array and a flat key/value property table. */
module BusTrips {
  import opened Text
  import opened BusRecords

  /** One double[2] of the coordinate array: element 0 is the longitude,
      element 1 the latitude. */
  datatype Coord = Coord(longitude: real, latitude: real)

  /** One String[2] of the property table: element 0 the key, element 1 the value. */
  datatype Property = Property(key: string, value: string)

  /** The JDK renderings used inside property values, which this model does not
      define: LocalDateTime.toString (of a time in seconds) and Double.toString. */
  datatype Formats = Formats(dateTime: int -> string, number: real -> string)

  /** Every record carries an expected arrival time. */
  predicate AllTimed(rs: seq<BusRecord>)
  {
    forall i :: 0 <= i < |rs| ==> rs[i].expectedArrivalTime.Some?
  }

  const HeaderKeys: seq<string> :=
    ["VehicleRef", "PublishedLineName", "DirectionRef", "OriginName",
     "DestinationName", "StartTime", "EndTime", "NumOfPoints"]

  const PointSuffixes: seq<string> := [" geom", " arrival", " dist from stop", " time"]

  /** Key k (0 to 3) of the group of point i (counted from 0, shown from 1). */
  function PointKey(i: nat, k: nat): string
    requires k < 4
  {
    "Point " + NatToDecimal(i + 1) + PointSuffixes[k]
  }

  /** The key of entry p of the table of a trip with n points. */
  function KeyAt(n: nat, p: nat): string
    requires p < 8 + 4 * n
  {
    if p < 8 then HeaderKeys[p] else PointKey((p - 8) / 4, (p - 8) % 4)
  }

  function CoordOf(r: BusRecord): Coord
  {
    Coord(r.longitude, r.latitude)
  }

  function CoordsOf(rs: seq<BusRecord>): (cs: seq<Coord>)
    ensures |cs| == |rs|
  {
    seq(|rs|, i requires 0 <= i < |rs| => CoordOf(rs[i]))
  }

  /** `Integer + ""`: a missing distance renders as "null". */
  function DistanceText(d: Option<int>): string
  {
    if d.None? then "null" else IntToDecimal(d.value)
  }

  function HeaderValue(rs: seq<BusRecord>, fmt: Formats, p: nat): string
    requires |rs| > 0 && AllTimed(rs) && p < 8
  {
    var first := rs[0];
    [first.vehicleRef, first.publishedLineName, IntToDecimal(first.directionRef),
     first.originName, first.destinationName,
     fmt.dateTime(first.expectedArrivalTime.value),
     fmt.dateTime(rs[|rs| - 1].expectedArrivalTime.value),
     NatToDecimal(|rs|)][p]
  }

  function PointValue(r: BusRecord, fmt: Formats, k: nat): string
    requires r.expectedArrivalTime.Some? && k < 4
  {
    ["MyLatLong(longitude=" + fmt.number(r.longitude) + ", latitude=" + fmt.number(r.latitude) + ")",
     r.arrivalProximityText,
     DistanceText(r.distanceFromStop),
     fmt.dateTime(r.expectedArrivalTime.value)][k]
  }

  /** Entry p of the property table of a trip made of rs. */
  function InfoAt(rs: seq<BusRecord>, fmt: Formats, p: nat): Property
    requires |rs| > 0 && AllTimed(rs) && p < 8 + 4 * |rs|
  {
    Property(KeyAt(|rs|, p),
             if p < 8 then HeaderValue(rs, fmt, p) else PointValue(rs[(p - 8) / 4], fmt, (p - 8) % 4))
  }

  /** The whole property table, entry by entry. */
  function PointInfoTable(rs: seq<BusRecord>, fmt: Formats): (t: seq<Property>)
    requires |rs| > 0 && AllTimed(rs)
  {
    seq(8 + 4 * |rs|, p requires 0 <= p < 8 + 4 * |rs| => InfoAt(rs, fmt, p))
  }

  lemma PointSlot(i: nat, k: nat)
    requires k < 4
    ensures (4 * i + k) / 4 == i && (4 * i + k) % 4 == k
  {
  }

  /** Entry 8 + 4i + k of the table is entry k of point i's group. */
  lemma InfoAtPoint(rs: seq<BusRecord>, fmt: Formats, i: nat, k: nat)
    requires |rs| > 0 && AllTimed(rs) && i < |rs| && k < 4
    ensures 8 + 4 * i + k < 8 + 4 * |rs|
    ensures InfoAt(rs, fmt, 8 + 4 * i + k) == Property(PointKey(i, k), PointValue(rs[i], fmt, k))
  {
    PointSlot(i, k);
    assert 8 + 4 * i + k - 8 == 4 * i + k;
  }

  /** The eight trip-level entries, in their fixed order, from the first and last records. */
  lemma InfoAtHeader(rs: seq<BusRecord>, fmt: Formats)
    requires |rs| > 0 && AllTimed(rs)
    ensures InfoAt(rs, fmt, 0) == Property("VehicleRef", rs[0].vehicleRef)
    ensures InfoAt(rs, fmt, 1) == Property("PublishedLineName", rs[0].publishedLineName)
    ensures InfoAt(rs, fmt, 2) == Property("DirectionRef", IntToDecimal(rs[0].directionRef))
    ensures InfoAt(rs, fmt, 3) == Property("OriginName", rs[0].originName)
    ensures InfoAt(rs, fmt, 4) == Property("DestinationName", rs[0].destinationName)
    ensures InfoAt(rs, fmt, 5) == Property("StartTime", fmt.dateTime(rs[0].expectedArrivalTime.value))
    ensures InfoAt(rs, fmt, 6) == Property("EndTime", fmt.dateTime(rs[|rs| - 1].expectedArrivalTime.value))
    ensures InfoAt(rs, fmt, 7) == Property("NumOfPoints", NatToDecimal(|rs|))
  {
    var n := |rs|;
    assert KeyAt(n, 0) == HeaderKeys[0] && KeyAt(n, 1) == HeaderKeys[1];
    assert KeyAt(n, 2) == HeaderKeys[2] && KeyAt(n, 3) == HeaderKeys[3];
    assert KeyAt(n, 4) == HeaderKeys[4] && KeyAt(n, 5) == HeaderKeys[5];
    assert KeyAt(n, 6) == HeaderKeys[6] && KeyAt(n, 7) == HeaderKeys[7];
  }

  /** NumOfPoints reads back as the number of records. */
  lemma NumOfPointsReadsBack(rs: seq<BusRecord>, fmt: Formats)
    requires |rs| > 0 && AllTimed(rs)
    ensures |PointInfoTable(rs, fmt)| == 8 + 4 * |rs|
    ensures PointInfoTable(rs, fmt)[7].key == "NumOfPoints"
    ensures ParseNat(PointInfoTable(rs, fmt)[7].value) == Some(|rs|)
  {
    InfoAtHeader(rs, fmt);
    ParseNatOfNatToDecimal(|rs|);
  }

  lemma TableEntry(rs: seq<BusRecord>, fmt: Formats, p: nat)
    requires |rs| > 0 && AllTimed(rs) && p < 8 + 4 * |rs|
    ensures |PointInfoTable(rs, fmt)| == 8 + 4 * |rs|
    ensures PointInfoTable(rs, fmt)[p] == InfoAt(rs, fmt, p)
  {
  }

  /** Four entries per point, in input order; the arrival entry holds the
      proximity text verbatim. */
  lemma PointEntriesLayout(rs: seq<BusRecord>, fmt: Formats, i: nat)
    requires |rs| > 0 && AllTimed(rs) && i < |rs|
    ensures |PointInfoTable(rs, fmt)| == 8 + 4 * |rs|
    ensures forall k :: 0 <= k < 4 ==>
      PointInfoTable(rs, fmt)[8 + 4 * i + k] == Property(PointKey(i, k), PointValue(rs[i], fmt, k))
    ensures PointInfoTable(rs, fmt)[8 + 4 * i + 1].value == rs[i].arrivalProximityText
  {
    forall k | 0 <= k < 4
      ensures PointInfoTable(rs, fmt)[8 + 4 * i + k] == Property(PointKey(i, k), PointValue(rs[i], fmt, k))
    {
      TableEntry(rs, fmt, 8 + 4 * i + k);
      InfoAtPoint(rs, fmt, i, k);
    }
    TableEntry(rs, fmt, 8 + 4 * i + 1);
    InfoAtPoint(rs, fmt, i, 1);
  }

  /** Number of leading digits of x. */
  function LeadingDigits(x: string): nat
  {
    if |x| > 0 && IsDigit(x[0]) then 1 + LeadingDigits(x[1..]) else 0
  }

  lemma {:induction false} LeadingDigitsOf(d: string, s: string)
    requires AllDigits(d) && |s| > 0 && !IsDigit(s[0])
    ensures LeadingDigits(d + s) == |d|
  {
    if |d| > 0 {
      assert (d + s)[1..] == d[1..] + s;
      LeadingDigitsOf(d[1..], s);
    } else {
      assert d + s == s;
    }
  }

  /** "Point " + d + s, with d a digit string and s one of the point suffixes,
      determines d and s. */
  lemma {:induction false} PointKeyParts(d1: string, s1: string, d2: string, s2: string)
    requires AllDigits(d1) && AllDigits(d2)
    requires |s1| > 0 && s1[0] == ' ' && |s2| > 0 && s2[0] == ' '
    requires "Point " + d1 + s1 == "Point " + d2 + s2
    ensures d1 == d2 && s1 == s2
  {
    var x := "Point " + d1 + s1;
    assert x[6..] == d1 + s1 && x[6..] == d2 + s2;
    LeadingDigitsOf(d1, s1);
    LeadingDigitsOf(d2, s2);
    assert d1 == (d1 + s1)[..|d1|] && d2 == (d2 + s2)[..|d2|];
    assert s1 == (d1 + s1)[|d1|..] && s2 == (d2 + s2)[|d2|..];
  }

  lemma PointKeyInjective(i: nat, k: nat, j: nat, l: nat)
    requires k < 4 && l < 4
    requires PointKey(i, k) == PointKey(j, l)
    ensures i == j && k == l
  {
    PointKeyParts(NatToDecimal(i + 1), PointSuffixes[k], NatToDecimal(j + 1), PointSuffixes[l]);
    NatToDecimalInjective(i + 1, j + 1);
  }

  lemma PointKeyNotHeader(i: nat, k: nat, p: nat)
    requires k < 4 && p < 8
    ensures PointKey(i, k) != HeaderKeys[p]
  {
    var key := PointKey(i, k);
    assert key[0] == 'P' && key[1] == 'o';
    assert HeaderKeys[p][0] != 'P' || HeaderKeys[p][1] != 'o';
  }

  /** No two entries of the property table share a key. */
  lemma KeysDistinct(n: nat, p: nat, q: nat)
    requires p < q < 8 + 4 * n
    ensures KeyAt(n, p) != KeyAt(n, q)
  {
    if q >= 8 {
      if p < 8 {
        PointKeyNotHeader((q - 8) / 4, (q - 8) % 4, p);
      } else if KeyAt(n, p) == KeyAt(n, q) {
        PointKeyInjective((p - 8) / 4, (p - 8) % 4, (q - 8) / 4, (q - 8) % 4);
        assert false;
      }
    }
  }

  /** A table that agrees with the trip's header and with every point's group
      is the trip's property table. */
  lemma TableFromSlots(rs: seq<BusRecord>, fmt: Formats, t: array<Property>)
    requires |rs| > 0 && AllTimed(rs) && t.Length == 8 + 4 * |rs|
    requires forall p :: 0 <= p < 8 ==> t[p] == InfoAt(rs, fmt, p)
    requires forall j, k :: 0 <= j < |rs| && 0 <= k < 4 ==>
      t[8 + 4 * j + k] == Property(PointKey(j, k), PointValue(rs[j], fmt, k))
    ensures t[..] == PointInfoTable(rs, fmt)
  {
    var table := PointInfoTable(rs, fmt);
    forall p | 0 <= p < t.Length ensures t[p] == table[p] {
      TableEntry(rs, fmt, p);
      if p >= 8 {
        var j, k := (p - 8) / 4, (p - 8) % 4;
        assert p == 8 + 4 * j + k;
        InfoAtPoint(rs, fmt, j, k);
      }
    }
    assert t[..] == table;
  }

  /** Writes the eight trip-level entries, leaving the point entries alone. */
  method WriteHeader(info: array<Property>, rs: seq<BusRecord>, fmt: Formats)
    requires |rs| > 0 && AllTimed(rs) && info.Length == 8 + 4 * |rs|
    modifies info
    ensures forall p :: 8 <= p < info.Length ==> info[p] == old(info[p])
    ensures forall p :: 0 <= p < 8 ==> info[p] == InfoAt(rs, fmt, p)
  {
    var first := rs[0];
    info[0] := Property("VehicleRef", first.vehicleRef);
    info[1] := Property("PublishedLineName", first.publishedLineName);
    info[2] := Property("DirectionRef", IntToDecimal(first.directionRef));
    info[3] := Property("OriginName", first.originName);
    info[4] := Property("DestinationName", first.destinationName);
    info[5] := Property("StartTime", fmt.dateTime(first.expectedArrivalTime.value));
    info[6] := Property("EndTime", fmt.dateTime(rs[|rs| - 1].expectedArrivalTime.value));
    info[7] := Property("NumOfPoints", NatToDecimal(|rs|));
    InfoAtHeader(rs, fmt);
  }

  /** Writes the four entries of point i's group, leaving every other entry alone. */
  method WritePointGroup(info: array<Property>, i: nat, r: BusRecord, fmt: Formats)
    requires r.expectedArrivalTime.Some? && 12 + 4 * i <= info.Length
    modifies info
    ensures forall p :: 0 <= p < info.Length && !(8 + 4 * i <= p < 12 + 4 * i) ==> info[p] == old(info[p])
    ensures forall k :: 0 <= k < 4 ==> info[8 + 4 * i + k] == Property(PointKey(i, k), PointValue(r, fmt, k))
  {
    var pointLabel := "Point " + NatToDecimal(i + 1);
    info[i * 4 + 8] := Property(pointLabel + " geom",
      "MyLatLong(longitude=" + fmt.number(r.longitude) + ", latitude=" + fmt.number(r.latitude) + ")");
    info[i * 4 + 9] := Property(pointLabel + " arrival", r.arrivalProximityText);
    info[i * 4 + 10] := Property(pointLabel + " dist from stop", DistanceText(r.distanceFromStop));
    info[i * 4 + 11] := Property(pointLabel + " time", fmt.dateTime(r.expectedArrivalTime.value));
  }

  class BusTrip {
    const publishedLineName: string
    const vehicleRef: string
    const directionRef: int
    const originName: string
    const destinationName: string
    const startTime: int
    const endTime: int
    const coords: array<Coord>
    const allPointInfo: array<Property>
    /** The records the trip was built from (the source keeps only what is derived from them). */
    ghost const records: seq<BusRecord>

    /** What the GeoJSON builder relies on: the coordinates and the property
        keys follow the records, and the names come from the first record.
        The property values and the other metadata fields are left out on
        purpose; the constructor's postconditions state those. */
    ghost predicate Valid()
      reads coords, allPointInfo
    {
      && |records| > 0 && AllTimed(records)
      && coords[..] == CoordsOf(records)
      && allPointInfo.Length == 8 + 4 * |records|
      && (forall p :: 0 <= p < allPointInfo.Length ==> allPointInfo[p].key == KeyAt(|records|, p))
      && publishedLineName == records[0].publishedLineName
      && vehicleRef == records[0].vehicleRef
    }

    /** BusTrip(List<BusRecordEntity>): the metadata comes from the first record,
        the start and end times from the first and last; one coordinate per record
        and 8 + 4N property entries. An empty list fails at get(0). */
    constructor (tripRecords: seq<BusRecord>, fmt: Formats)
      requires |tripRecords| > 0 && AllTimed(tripRecords)
      ensures Valid() && records == tripRecords
      ensures fresh(coords) && fresh(allPointInfo)
      ensures publishedLineName == tripRecords[0].publishedLineName
      ensures vehicleRef == tripRecords[0].vehicleRef
      ensures directionRef == tripRecords[0].directionRef
      ensures originName == tripRecords[0].originName
      ensures destinationName == tripRecords[0].destinationName
      ensures startTime == tripRecords[0].expectedArrivalTime.value
      ensures endTime == tripRecords[|tripRecords| - 1].expectedArrivalTime.value
      ensures coords[..] == CoordsOf(tripRecords)
      ensures allPointInfo[..] == PointInfoTable(tripRecords, fmt)
    {
      var first := tripRecords[0];
      publishedLineName := first.publishedLineName;
      vehicleRef := first.vehicleRef;
      directionRef := first.directionRef;
      originName := first.originName;
      destinationName := first.destinationName;
      startTime := tripRecords[0].expectedArrivalTime.value;
      endTime := tripRecords[|tripRecords| - 1].expectedArrivalTime.value;

      var numRecords := |tripRecords|;
      var c := new Coord[numRecords];
      var info := new Property[8 + numRecords * 4];

      WriteHeader(info, tripRecords, fmt);

      for i := 0 to numRecords
        invariant forall j :: 0 <= j < i ==> c[j] == CoordOf(tripRecords[j])
        invariant forall p :: 0 <= p < 8 ==> info[p] == InfoAt(tripRecords, fmt, p)
        invariant forall j, k :: 0 <= j < i && 0 <= k < 4 ==>
          info[8 + 4 * j + k] == Property(PointKey(j, k), PointValue(tripRecords[j], fmt, k))
      {
        var r := tripRecords[i];
        c[i] := Coord(r.longitude, r.latitude);
        WritePointGroup(info, i, r, fmt);
      }

      coords := c;
      allPointInfo := info;
      records := tripRecords;
      assert c[..] == CoordsOf(tripRecords);
      TableFromSlots(tripRecords, fmt, info);
    }

  }
}
