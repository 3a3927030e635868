/** GeoJsonBuilder: every trip becomes a Feature whose geometry is a Point or
    a LineString and whose properties are the trip's property table; the
    features go into a FeatureCollection, which is serialised and must pass
    schema validation. */
module GeoJson {
  import opened Text
  import opened BusTrips

  // ---------------------------------------------------------------- the JSON tree

  /** The part of Jackson's tree model the builder produces. An object's
      fields are kept in insertion order. */
  datatype Json = JString(str: string) | JNumber(num: real) | JArray(items: seq<Json>) | JObject(fields: seq<Field>)
  datatype Field = Field(key: string, value: Json)

  /** ObjectNode.get. */
  function Lookup(fields: seq<Field>, key: string): Option<Json>
  {
    if |fields| == 0 then None
    else if fields[0].key == key then Some(fields[0].value)
    else Lookup(fields[1..], key)
  }

  /** ObjectNode.put and set, over a LinkedHashMap: a new key goes at the end,
      a key already present keeps its place and takes the new value. */
  function Put(fields: seq<Field>, key: string, value: Json): seq<Field>
  {
    if |fields| == 0 then [Field(key, value)]
    else if fields[0].key == key then [Field(key, value)] + fields[1..]
    else [fields[0]] + Put(fields[1..], key, value)
  }

  /** After a put, the key maps to the new value and every other key to what it mapped to before. */
  lemma {:induction false} PutLookup(fields: seq<Field>, key: string, value: Json, other: string)
    ensures Lookup(Put(fields, key, value), other) == if other == key then Some(value) else Lookup(fields, other)
  {
    if |fields| > 0 && fields[0].key != key {
      PutLookup(fields[1..], key, value, other);
    }
  }

  /** Putting a key that is not there appends it. */
  lemma {:induction false} PutAppends(fields: seq<Field>, key: string, value: Json)
    requires Lookup(fields, key).None?
    ensures Put(fields, key, value) == fields + [Field(key, value)]
  {
    if |fields| > 0 {
      PutAppends(fields[1..], key, value);
      assert fields == [fields[0]] + fields[1..];
    }
  }

  /** Fields put under distinct keys stay in the order they were put. */
  lemma PutTwo(k1: string, v1: Json, k2: string, v2: Json)
    requires k1 != k2
    ensures Put(Put([], k1, v1), k2, v2) == [Field(k1, v1), Field(k2, v2)]
  {
    assert Put([Field(k1, v1)], k2, v2) == [Field(k1, v1)] + Put([], k2, v2);
  }

  lemma PutThree(k1: string, v1: Json, k2: string, v2: Json, k3: string, v3: Json)
    requires k1 != k2 && k1 != k3 && k2 != k3
    ensures Put(Put(Put([], k1, v1), k2, v2), k3, v3) == [Field(k1, v1), Field(k2, v2), Field(k3, v3)]
  {
    PutTwo(k1, v1, k2, v2);
    var two := [Field(k1, v1), Field(k2, v2)];
    assert Put(two, k3, v3) == [two[0]] + Put(two[1..], k3, v3);
    assert two[1..] == [Field(k2, v2)];
  }

  lemma {:induction false} LookupMissing(fields: seq<Field>, key: string)
    requires forall i :: 0 <= i < |fields| ==> fields[i].key != key
    ensures Lookup(fields, key).None?
  {
    if |fields| > 0 {
      LookupMissing(fields[1..], key);
    }
  }

  // ---------------------------------------------------------------- properties

  /** The fields of the properties node after putting every pair of the table, in order. */
  function PutAll(properties: seq<Property>): seq<Field>
  {
    if |properties| == 0 then []
    else
      var last := properties[|properties| - 1];
      Put(PutAll(properties[..|properties| - 1]), last.key, JString(last.value))
  }

  /** Reference reading of a table with repeated keys: the value of the last pair with the key. */
  function LastValue(properties: seq<Property>, key: string): Option<string>
  {
    if |properties| == 0 then None
    else if properties[|properties| - 1].key == key then Some(properties[|properties| - 1].value)
    else LastValue(properties[..|properties| - 1], key)
  }

  /** For a repeated key the last value wins; a key not in the table is absent. */
  lemma {:induction false} LastWriteWins(properties: seq<Property>, key: string)
    ensures Lookup(PutAll(properties), key) ==
      if LastValue(properties, key).None? then None else Some(JString(LastValue(properties, key).value))
  {
    if |properties| > 0 {
      var last := properties[|properties| - 1];
      LastWriteWins(properties[..|properties| - 1], key);
      PutLookup(PutAll(properties[..|properties| - 1]), last.key, JString(last.value), key);
    }
  }

  predicate DistinctKeys(properties: seq<Property>)
  {
    forall i, j :: 0 <= i < j < |properties| ==> properties[i].key != properties[j].key
  }

  /** Each pair as a string-valued field. */
  function AsFields(properties: seq<Property>): (fields: seq<Field>)
    ensures |fields| == |properties|
  {
    seq(|properties|, i requires 0 <= i < |properties| => Field(properties[i].key, JString(properties[i].value)))
  }

  /** With distinct keys, the properties node holds every pair, in table order. */
  lemma {:induction false} PutAllDistinct(properties: seq<Property>)
    requires DistinctKeys(properties)
    ensures PutAll(properties) == AsFields(properties)
  {
    if |properties| > 0 {
      var n := |properties| - 1;
      var init, last := properties[..n], properties[n];
      assert DistinctKeys(init);
      PutAllDistinct(init);
      LookupMissing(AsFields(init), last.key);
      PutAppends(AsFields(init), last.key, JString(last.value));
      assert AsFields(init) + [Field(last.key, JString(last.value))] == AsFields(properties);
    }
  }

  /** createPropertiesNode. */
  method CreatePropertiesNode(properties: seq<Property>) returns (node: Json)
    ensures node == JObject(PutAll(properties))
  {
    var fields: seq<Field> := [];
    for i := 0 to |properties|
      invariant fields == PutAll(properties[..i])
    {
      assert properties[..i + 1][..i] == properties[..i];
      fields := Put(fields, properties[i].key, JString(properties[i].value));
    }
    assert properties[..|properties|] == properties;
    node := JObject(fields);
  }

  // ---------------------------------------------------------------- geometry

  /** The two JTS geometries the builder makes. */
  datatype Geometry = Point(coordinate: Coord) | LineString(coordinates: seq<Coord>)

  /** Geometry.getGeometryType. */
  function GeometryType(g: Geometry): string
  {
    if g.Point? then "Point" else "LineString"
  }

  /** Geometry.getCoordinates. */
  function CoordinatesOf(g: Geometry): seq<Coord>
  {
    if g.Point? then [g.coordinate] else g.coordinates
  }

  /** buildFeature's choice: a LineString through all the coordinates when there
      are several, a Point at the only one otherwise. */
  function GeometryFor(coords: seq<Coord>): (g: Geometry)
    requires |coords| > 0
    ensures g.Point? <==> |coords| == 1
    ensures CoordinatesOf(g) == coords
  {
    if |coords| > 1 then LineString(coords) else Point(coords[0])
  }

  /** A position [x, y]: x is element 0 of the trip's coordinate, the longitude. */
  function PositionJson(c: Coord): Json
  {
    JArray([JNumber(c.longitude), JNumber(c.latitude)])
  }

  function PositionsJson(coords: seq<Coord>): (items: seq<Json>)
    ensures |items| == |coords|
  {
    seq(|coords|, i requires 0 <= i < |coords| => PositionJson(coords[i]))
  }

  lemma PositionsSnoc(coords: seq<Coord>, i: nat)
    requires i < |coords|
    ensures PositionsJson(coords[..i + 1]) == PositionsJson(coords[..i]) + [PositionJson(coords[i])]
  {
    assert coords[..i + 1] == coords[..i] + [coords[i]];
  }

  lemma TypeCoordinatesDiffer()
    ensures "type" != "coordinates" && "LineString" != "Point"
  {
    assert "type"[0] != "coordinates"[0] && "LineString"[0] != "Point"[0];
  }

  lemma FeatureKeysDiffer()
    ensures "type" != "geometry" && "type" != "properties" && "geometry" != "properties"
    ensures "type" != "features"
  {
    assert "type"[0] != "geometry"[0] && "type"[0] != "properties"[0] && "geometry"[0] != "properties"[0];
    assert "type"[1] != "features"[1];
  }

  /** The coordinates node: a Point's is the flat pair of its coordinate, any
      other type's an array of pairs, one per coordinate. */
  function CoordinatesJson(geometryType: string, coords: seq<Coord>): Json
    requires geometryType == "Point" ==> |coords| > 0
  {
    if geometryType == "Point" then PositionJson(coords[0]) else JArray(PositionsJson(coords))
  }

  function GeometryJson(g: Geometry): Json
  {
    JObject([Field("type", JString(GeometryType(g))),
             Field("coordinates", CoordinatesJson(GeometryType(g), CoordinatesOf(g)))])
  }

  /** createGeometryNode. */
  method CreateGeometryNode(geometryType: string, coords: seq<Coord>) returns (node: Json)
    requires geometryType == "Point" ==> |coords| > 0
    ensures node == JObject([Field("type", JString(geometryType)),
                             Field("coordinates", CoordinatesJson(geometryType, coords))])
  {
    TypeCoordinatesDiffer();
    var fields := Put([], "type", JString(geometryType));
    var coordinatesNode: seq<Json> := [];
    if geometryType == "Point" {
      coordinatesNode := coordinatesNode + [JNumber(coords[0].longitude)];
      coordinatesNode := coordinatesNode + [JNumber(coords[0].latitude)];
      assert coordinatesNode == PositionJson(coords[0]).items;
    } else {
      for i := 0 to |coords|
        invariant coordinatesNode == PositionsJson(coords[..i])
      {
        var coordinateNode: seq<Json> := [];
        coordinateNode := coordinateNode + [JNumber(coords[i].longitude)];
        coordinateNode := coordinateNode + [JNumber(coords[i].latitude)];
        assert JArray(coordinateNode) == PositionJson(coords[i]);
        PositionsSnoc(coords, i);
        coordinatesNode := coordinatesNode + [JArray(coordinateNode)];
      }
      assert coords[..|coords|] == coords;
    }
    fields := Put(fields, "coordinates", JArray(coordinatesNode));
    PutTwo("type", JString(geometryType), "coordinates", JArray(coordinatesNode));
    node := JObject(fields);
  }

  /** Reads a position [x, y] back. */
  function ReadPosition(j: Json): Option<Coord>
  {
    match j
    case JArray(items) =>
      if |items| == 2 && items[0].JNumber? && items[1].JNumber? then Some(Coord(items[0].num, items[1].num)) else None
    case _ => None
  }

  function ReadPositions(items: seq<Json>): Option<seq<Coord>>
  {
    if |items| == 0 then Some([])
    else match (ReadPositions(items[..|items| - 1]), ReadPosition(items[|items| - 1]))
      case (Some(cs), Some(c)) => Some(cs + [c])
      case _ => None
  }

  /** Reads a geometry node back: its type and its coordinates. */
  function ReadGeometry(j: Json): Option<Geometry>
  {
    if !j.JObject? then None
    else
      var geometryType, c := Lookup(j.fields, "type"), Lookup(j.fields, "coordinates");
      if geometryType == Some(JString("Point")) && c.Some? && ReadPosition(c.value).Some? then
        Some(Point(ReadPosition(c.value).value))
      else if geometryType == Some(JString("LineString")) && c.Some? && c.value.JArray?
        && ReadPositions(c.value.items).Some? then
        Some(LineString(ReadPositions(c.value.items).value))
      else None
  }

  lemma {:induction false} ReadPositionsOf(coords: seq<Coord>)
    ensures ReadPositions(PositionsJson(coords)) == Some(coords)
  {
    if |coords| > 0 {
      var n := |coords| - 1;
      assert PositionsJson(coords)[..n] == PositionsJson(coords[..n]);
      ReadPositionsOf(coords[..n]);
      assert coords[..n] + [coords[n]] == coords;
    }
  }

  /** The geometry node determines the geometry: type, every coordinate, their
      order, and longitude as x. */
  lemma GeometryRoundTrip(g: Geometry)
    ensures ReadGeometry(GeometryJson(g)) == Some(g)
  {
    TypeCoordinatesDiffer();
    var fields := GeometryJson(g).fields;
    assert Lookup(fields, "type") == Some(JString(GeometryType(g)));
    if g.LineString? {
      assert Lookup(fields, "coordinates") == Some(JArray(PositionsJson(g.coordinates)));
      ReadPositionsOf(g.coordinates);
    } else {
      assert Lookup(fields, "coordinates") == Some(PositionJson(g.coordinate));
    }
  }

  // ---------------------------------------------------------------- features and the collection

  /** What buildFeature hands over: the geometry and the property table. */
  datatype Feature = Feature(geometry: Geometry, properties: seq<Property>)

  /** buildFeature. */
  function BuildFeature(trip: BusTrip): Feature
    requires trip.Valid()
    reads trip.coords, trip.allPointInfo
  {
    Feature(GeometryFor(trip.coords[..]), trip.allPointInfo[..])
  }

  /** trips.stream().map(this::buildFeature).toList(). */
  function Features(trips: seq<BusTrip>): (fs: seq<Feature>)
    requires forall i :: 0 <= i < |trips| ==> trips[i].Valid()
    reads set i | 0 <= i < |trips| :: trips[i].coords
    reads set i | 0 <= i < |trips| :: trips[i].allPointInfo
    ensures |fs| == |trips|
    ensures forall i :: 0 <= i < |trips| ==> fs[i] == BuildFeature(trips[i])
  {
    if |trips| == 0 then []
    else
      var n := |trips| - 1;
      assert forall i :: 0 <= i < n ==> trips[..n][i] == trips[i];
      Features(trips[..n]) + [BuildFeature(trips[n])]
  }

  function FeatureJson(f: Feature): Json
  {
    JObject([Field("type", JString("Feature")),
             Field("geometry", GeometryJson(f.geometry)),
             Field("properties", JObject(PutAll(f.properties)))])
  }

  function FeatureNodes(features: seq<Feature>): (nodes: seq<Json>)
    ensures |nodes| == |features|
  {
    seq(|features|, i requires 0 <= i < |features| => FeatureJson(features[i]))
  }

  lemma FeatureNodesSnoc(features: seq<Feature>, i: nat)
    requires i < |features|
    ensures FeatureNodes(features[..i + 1]) == FeatureNodes(features[..i]) + [FeatureJson(features[i])]
  {
    assert features[..i + 1] == features[..i] + [features[i]];
  }

  function FeatureCollectionJson(features: seq<Feature>): Json
  {
    JObject([Field("type", JString("FeatureCollection")), Field("features", JArray(FeatureNodes(features)))])
  }

  /** validateGeoJson's rule: any validation message is an InvalidGeoJsonException. */
  function Validated(document: Json, write: Json -> string, validate: string -> set<string>): (r: Result<string, set<string>>)
    ensures r.Err? <==> validate(write(document)) != {}
    ensures r.Ok? ==> r.value == write(document)
    ensures r.Err? ==> r.error == validate(write(document))
  {
    var geoJsonString := write(document);
    if |validate(geoJsonString)| != 0 then Err(validate(geoJsonString)) else Ok(geoJsonString)
  }

  /** The body of build's forEach: a feature node with its type, its geometry
      node and its properties node, in that order. */
  method CreateFeatureNode(feature: Feature) returns (node: Json)
    ensures node == FeatureJson(feature)
  {
    var geometry := feature.geometry;
    var geometryNode := CreateGeometryNode(GeometryType(geometry), CoordinatesOf(geometry));
    var propertiesNode := CreatePropertiesNode(feature.properties);
    FeatureKeysDiffer();
    var featureNode := Put([], "type", JString("Feature"));
    featureNode := Put(featureNode, "geometry", geometryNode);
    featureNode := Put(featureNode, "properties", propertiesNode);
    PutThree("type", JString("Feature"), "geometry", geometryNode, "properties", propertiesNode);
    node := JObject(featureNode);
  }

  /** build's stream: buildFeature applied to each trip, in order. */
  method BuildFeatures(trips: seq<BusTrip>) returns (features: seq<Feature>)
    requires forall i :: 0 <= i < |trips| ==> trips[i].Valid()
    ensures features == Features(trips)
  {
    features := [];
    for i := 0 to |trips|
      invariant features == Features(trips[..i])
    {
      assert trips[..i + 1][..i] == trips[..i];
      features := features + [BuildFeature(trips[i])];
    }
    assert trips[..|trips|] == trips;
  }

  /** build: one feature node per trip, in order, inside a FeatureCollection;
      write is the pretty printer and validate the schema check, both given. */
  method Build(trips: seq<BusTrip>, write: Json -> string, validate: string -> set<string>)
    returns (r: Result<string, set<string>>)
    requires forall i :: 0 <= i < |trips| ==> trips[i].Valid()
    ensures r == Validated(FeatureCollectionJson(Features(trips)), write, validate)
  {
    var features := BuildFeatures(trips);
    var featuresArray: seq<Json> := [];
    for i := 0 to |features|
      invariant featuresArray == FeatureNodes(features[..i])
    {
      FeatureNodesSnoc(features, i);
      var featureNode := CreateFeatureNode(features[i]);
      featuresArray := featuresArray + [featureNode];
    }

    assert features[..|features|] == features;
    FeatureKeysDiffer();
    var featureCollection := Put([], "type", JString("FeatureCollection"));
    featureCollection := Put(featureCollection, "features", JArray(featuresArray));
    PutTwo("type", JString("FeatureCollection"), "features", JArray(featuresArray));
    assert JObject(featureCollection) == FeatureCollectionJson(features);
    var geoJsonString := write(JObject(featureCollection));
    var assertions := validate(geoJsonString);
    if |assertions| != 0 {
      return Err(assertions);
    }
    return Ok(geoJsonString);
  }

  /** A trip's property table has distinct keys. */
  lemma TableKeysDistinct(trip: BusTrip)
    requires trip.Valid()
    ensures DistinctKeys(trip.allPointInfo[..])
  {
    var n := |trip.records|;
    forall i, j | 0 <= i < j < trip.allPointInfo.Length
      ensures trip.allPointInfo[..][i].key != trip.allPointInfo[..][j].key
    {
      KeysDistinct(n, i, j);
    }
  }

  /** The feature of a trip: its geometry (Point for one record, LineString
      through all of them otherwise) and every entry of its property table, in
      table order, as string fields. */
  lemma TripFeature(trip: BusTrip)
    requires trip.Valid()
    ensures FeatureJson(BuildFeature(trip)) == JObject([
      Field("type", JString("Feature")),
      Field("geometry", GeometryJson(GeometryFor(trip.coords[..]))),
      Field("properties", JObject(AsFields(trip.allPointInfo[..])))])
    ensures GeometryFor(trip.coords[..]).Point? <==> |trip.records| == 1
    ensures ReadGeometry(GeometryJson(GeometryFor(trip.coords[..]))) == Some(GeometryFor(trip.coords[..]))
  {
    TableKeysDistinct(trip);
    PutAllDistinct(trip.allPointInfo[..]);
    GeometryRoundTrip(GeometryFor(trip.coords[..]));
  }

  /** The document: a FeatureCollection whose features array has one feature
      node per trip, in trip order. */
  lemma CollectionShape(trips: seq<BusTrip>)
    requires forall i :: 0 <= i < |trips| ==> trips[i].Valid()
    ensures var doc := FeatureCollectionJson(Features(trips));
      && Lookup(doc.fields, "type") == Some(JString("FeatureCollection"))
      && Lookup(doc.fields, "features").Some?
      && var items := Lookup(doc.fields, "features").value;
         && items.JArray? && |items.items| == |trips|
         && forall i :: 0 <= i < |trips| ==> items.items[i] == FeatureJson(BuildFeature(trips[i]))
  {
  }
}
