/** One vehicle-position report (a row of the cleaned feed) and its natural
    order: by expected arrival time, a missing time first. */
module BusRecords {
  import opened Text

  /** Expected arrival times are whole seconds on one time line; a missing
      DistanceFromStop or ExpectedArrivalTime is None (Java's null). */
  datatype BusRecord = BusRecord(
    directionRef: int,
    publishedLineName: string,
    vehicleRef: string,
    originName: string,
    destinationName: string,
    latitude: real,
    longitude: real,
    arrivalProximityText: string,
    distanceFromStop: Option<int>,
    expectedArrivalTime: Option<int>)

  /** Reference order on arrival times: a missing time is least, present times
      are ordered as numbers. */
  predicate TimeBefore(a: Option<int>, b: Option<int>)
  {
    match (a, b)
    case (None, Some(_)) => true
    case (Some(x), Some(y)) => x < y
    case _ => false
  }

  /** LocalDateTime.compareTo, reduced to its sign. */
  function CompareTimes(x: int, y: int): (c: int)
    ensures c < 0 <==> x < y
    ensures c == 0 <==> x == y
  {
    if x < y then -1 else if x == y then 0 else 1
  }

  /** BusRecordEntity.compareTo: null times compare equal, a null time sorts
      before a present one, otherwise the times decide. */
  function CompareTo(a: BusRecord, b: BusRecord): (c: int)
    ensures c < 0 <==> TimeBefore(a.expectedArrivalTime, b.expectedArrivalTime)
    ensures c == 0 <==> a.expectedArrivalTime == b.expectedArrivalTime
    ensures c > 0 <==> TimeBefore(b.expectedArrivalTime, a.expectedArrivalTime)
  {
    if a.expectedArrivalTime.None? && b.expectedArrivalTime.None? then 0
    else if a.expectedArrivalTime.None? then -1
    else if b.expectedArrivalTime.None? then 1
    else CompareTimes(a.expectedArrivalTime.value, b.expectedArrivalTime.value)
  }

  /** a may precede b in a list sorted by arrival: b's time is not before a's. */
  predicate ArrivesNoLater(a: BusRecord, b: BusRecord)
  {
    !TimeBefore(b.expectedArrivalTime, a.expectedArrivalTime)
  }

  /** ArrivesNoLater is the order compareTo induces. */
  lemma CompareToNoLater(a: BusRecord, b: BusRecord)
    ensures CompareTo(a, b) <= 0 <==> ArrivesNoLater(a, b)
  {
  }

  function Sign(x: int): int { if x < 0 then -1 else if x == 0 then 0 else 1 }

  /** The comparator is antisymmetric and reflexive. */
  lemma CompareToAntisymmetric(a: BusRecord, b: BusRecord)
    ensures Sign(CompareTo(a, b)) == -Sign(CompareTo(b, a))
    ensures CompareTo(a, a) == 0
  {
  }

  /** ArrivesNoLater is a total preorder, as List.sort requires of a comparator. */
  lemma ArrivesNoLaterTotalPreorder(a: BusRecord, b: BusRecord, c: BusRecord)
    ensures ArrivesNoLater(a, b) || ArrivesNoLater(b, a)
    ensures ArrivesNoLater(a, b) && ArrivesNoLater(b, c) ==> ArrivesNoLater(a, c)
  {
  }

  /** A record with a missing time arrives no later than any record. */
  lemma MissingTimeIsLeast(a: BusRecord, b: BusRecord)
    requires a.expectedArrivalTime.None?
    ensures ArrivesNoLater(a, b)
    ensures b.expectedArrivalTime.Some? ==> CompareTo(a, b) == -1 && CompareTo(b, a) == 1
  {
  }
}
