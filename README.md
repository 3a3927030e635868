# NYC bus trip back end — a verified Dafny model

The back end reads a CSV export of New York City bus positions and cleans it. It groups the records into bus trips. It answers look-ups by published line name and by vehicle ref, and serialises trips as GeoJSON. This project models the core of that service in Dafny and proves what it promises:

- `CsvParser` derives the cleaned and temporary file names and repairs the first 100000 lines. It blanks `"NA"` cells, drops rows with out-of-range coordinates, and skips cleaning when the cleaned file already exists.
- `BusRecordEntity.compareTo` orders records by expected arrival. A missing time sorts first.
- `BusTripDataProvider` works in stages:
  - it filters the valid records and stable-sorts them;
  - it groups them under the `"|"`-joined composite key;
  - it splits each group into trips wherever two consecutive records are more than 25 minutes apart;
  - it indexes every trip by line name and by vehicle ref, and answers the listings and look-ups.
- `BusTrip`'s constructor fills the coordinate array and the property table of a trip.
- `GeoJsonBuilder` builds one feature per trip: a Point or LineString geometry and a properties object. It wraps the features in a FeatureCollection, serialises it and rejects the result on any schema message.

Files and modules:

| file | module | contents |
|---|---|---|
| `text.dfy` | `Text` | Option/Result, decimal rendering and parsing of integers, `String.split` on `"\|"`, `String.compareTo`, sorted insertion |
| `lists.dfy` | `Lists` | filter, flatten and their laws |
| `bus_record.dfy` | `BusRecords` | the record type and `compareTo` |
| `bus_trip.dfy` | `BusTrips` | coordinates, the property table, class `BusTrip` |
| `trip_pipeline.dfy` | `TripPipeline` | the pure stages of the provider: filter, sort, group, segment, index |
| `trip_data_provider.dfy` | `TripData` | class `TripDataProvider`: the trip loop, `addTrip`, the look-ups |
| `csv_parser.dfy` | `CsvCleaning` | paths, line repair, `cleanRow`, `cleanData`, `parse` |
| `geojson_builder.dfy` | `GeoJson` | the JSON tree, geometry and properties nodes, `build` |

The file system is a parameter of type `map<Path, seq<string>>`. So are the library code the service calls (opencsv reading, writing and binding, `Double.parseDouble`, `LocalDateTime.toString`, Jackson's writer and the schema validator) and the parsed records handed to the provider. Each is modelled as a function passed in.

Where the documentation and the code differ, the model follows the code:

- **NaN coordinates are kept.** `cleanRow` accepts a row whose latitude or longitude parses as NaN, because every comparison with NaN is false. So a cleaned file does not guarantee that every coordinate is in range. `CsvCleaning.AcceptedMeaning` states this.
- **An empty trip fails at `get(0)`.** `BusTrip`'s doc comment says an empty record list throws IllegalArgumentException. The code fails at `tripRecords.get(0)` instead, so the model makes a non-empty list a precondition of the constructor.

## Model

| member | source | states |
|---|---|---|
| BusRecords.CompareTo | src/main/java/com/jerry/busappbackend/entity/BusRecordEntity.java:127-136 | negative iff this record's time is before the other's (a missing time counts as earliest), zero iff both times are equal or both missing, positive iff the other's is earlier |
| BusRecords.CompareToNoLater | src/main/java/com/jerry/busappbackend/entity/BusRecordEntity.java:127-136 | `compareTo(a, b) <= 0` exactly when a arrives no later than b |
| BusRecords.CompareToAntisymmetric | src/main/java/com/jerry/busappbackend/entity/BusRecordEntity.java:127-136 | sign(cmp(a,b)) == -sign(cmp(b,a)) and cmp(a,a) == 0 |
| BusRecords.ArrivesNoLaterTotalPreorder | src/main/java/com/jerry/busappbackend/entity/BusRecordEntity.java:127-136 | the order is total and transitive |
| BusRecords.MissingTimeIsLeast | src/main/java/com/jerry/busappbackend/entity/BusRecordEntity.java:128-133 | a record with no time sorts before every record; against a timed record the results are -1 and 1 |
| Text.ParseIntOfIntToDecimal | src/main/java/com/jerry/busappbackend/service/BusTripDataProvider.java:131 | `String.valueOf` of an int parses back to the same int |
| Text.ParseNatOfNatToDecimal | src/main/java/com/jerry/busappbackend/model/BusTrip.java:78-79 | the decimal text of a count parses back to the count |
| Text.NatToDecimalInjective | src/main/java/com/jerry/busappbackend/model/BusTrip.java:87-96 | distinct numbers have distinct decimal texts |
| Text.PiecesOfSeparated | src/main/java/com/jerry/busappbackend/service/BusTripDataProvider.java:162-163 | splitting on the separator distributes over a join at that separator |
| Text.StrLessTransitive | src/main/java/com/jerry/busappbackend/service/BusTripDataProvider.java:202 | `String.compareTo` order is transitive |
| Text.StrLessTotal | src/main/java/com/jerry/busappbackend/service/BusTripDataProvider.java:202 | any two strings are equal or ordered one way |
| Text.InsertAscending | src/main/java/com/jerry/busappbackend/service/BusTripDataProvider.java:202 | inserting into a strictly ascending list keeps it strictly ascending and adds exactly the new element |
| TripPipeline.FilterValid | src/main/java/com/jerry/busappbackend/service/BusTripDataProvider.java:105-109 | a record is kept iff its expected arrival is present, its proximity text is not "NA" and its distance is present; kept records are all timed |
| TripPipeline.FilterValidKeepsOrder | src/main/java/com/jerry/busappbackend/service/BusTripDataProvider.java:143-144 | the filter keeps the records in their input order |
| TripPipeline.SortByArrival | src/main/java/com/jerry/busappbackend/service/BusTripDataProvider.java:145 | the result is sorted by `compareTo` and is a permutation of the input |
| TripPipeline.SortIsStable | src/main/java/com/jerry/busappbackend/service/BusTripDataProvider.java:145 | records with the same time keep their input order |
| TripPipeline.KeyPieces | src/main/java/com/jerry/busappbackend/service/BusTripDataProvider.java:127-135 | splitting the composite key on "\|" gives the pieces of the five fields in order, the direction as its decimal text |
| TripPipeline.KeySplitNames | src/main/java/com/jerry/busappbackend/service/BusTripDataProvider.java:162-163 | when line name and vehicle ref contain no "\|", split index 0 is the line name and index 1 the vehicle ref |
| TripPipeline.KeySplitLength | src/main/java/com/jerry/busappbackend/service/BusTripDataProvider.java:162-163 | the split always has at least three pieces, so indices 0 and 1 exist |
| TripPipeline.GroupByKey | src/main/java/com/jerry/busappbackend/service/BusTripDataProvider.java:146 | every record's key is a group; every group is non-empty and holds only records of its key; a record occurs in its group as often as in the input |
| TripPipeline.GroupRecords | src/main/java/com/jerry/busappbackend/service/BusTripDataProvider.java:142-147 | the groups are well formed and hold only valid records of their key |
| TripPipeline.GroupsPartitionValidRecords | src/main/java/com/jerry/busappbackend/service/BusTripDataProvider.java:142-147 | every valid record lies in its key's group, with its multiplicity, and in no other |
| TripPipeline.GroupsSortedAndStable | src/main/java/com/jerry/busappbackend/service/BusTripDataProvider.java:143-146 | every group is sorted by arrival and equal-time records are in filter order |
| TripPipeline.MinutesBetween | src/main/java/com/jerry/busappbackend/service/BusTripDataProvider.java:196 | `ChronoUnit.MINUTES.between`: whole minutes, truncated toward zero in both directions |
| TripPipeline.SortedGap | src/main/java/com/jerry/busappbackend/service/BusTripDataProvider.java:195-197 | for records in order, a new trip starts iff the gap exceeds 25 whole minutes |
| TripPipeline.Segment | src/main/java/com/jerry/busappbackend/service/BusTripDataProvider.java:165-183 | a non-empty group gives at least one trip, and every trip is non-empty |
| TripPipeline.SegmentFlattens | src/main/java/com/jerry/busappbackend/service/BusTripDataProvider.java:165-183 | the trips concatenated in order are exactly the group: nothing lost, duplicated or reordered |
| TripPipeline.SegmentWithinWindow | src/main/java/com/jerry/busappbackend/service/BusTripDataProvider.java:168-179 | inside a trip, consecutive records are at most 25 whole minutes apart |
| TripPipeline.SegmentSeparated | src/main/java/com/jerry/busappbackend/service/BusTripDataProvider.java:168-179 | the last record of a trip and the first of the next are more than 25 minutes apart |
| TripPipeline.SegmentExample | src/main/java/com/jerry/busappbackend/service/BusTripDataProvider.java:195-197 | records at 10:00, 10:10 and 10:50 form the trips [10:00, 10:10] and [10:50] |
| TripPipeline.PositionsExact | src/main/java/com/jerry/busappbackend/service/BusTripDataProvider.java:87-92 | the positions filed under a name are ascending, point at entries with that name, and include every such entry |
| TripPipeline.IndexIsPositions | src/main/java/com/jerry/busappbackend/service/BusTripDataProvider.java:87-92 | a name is a key of the index iff some trip has it, and its list is exactly that name's positions |
| TripPipeline.KeyEntriesCoverGroup | src/main/java/com/jerry/busappbackend/service/BusTripDataProvider.java:161-183 | the trips made from one group concatenate to the group and respect the window in both directions |
| TripPipeline.TripsPartitionValidRecords | src/main/java/com/jerry/busappbackend/service/BusTripDataProvider.java:155-186 | across all groups, in any key order, the trips' records are a permutation of the valid records |
| TripPipeline.EntryFacts | src/main/java/com/jerry/busappbackend/service/BusTripDataProvider.java:155-186 | every trip is non-empty, timed, sorted, within the window, made of valid records of one key, and filed under its own line name and vehicle ref when these contain no "\|" |
| TripData.SortedKeys | src/main/java/com/jerry/busappbackend/service/BusTripDataProvider.java:201-202 | the keys of the map, strictly ascending, each exactly once |
| TripData.TripDataProvider.constructor | src/main/java/com/jerry/busappbackend/service/BusTripDataProvider.java:48-59 | the provider starts with no trips and empty indexes |
| TripData.TripDataProvider.AddTrip | src/main/java/com/jerry/busappbackend/service/BusTripDataProvider.java:83-93 | the trip is appended at index size-1, that index is appended under its line name and its vehicle ref (a fresh list on first use), every stored index still points at a trip with that name, and every trip in the list is well formed |
| TripData.TripDataProvider.AddGroupTrips | src/main/java/com/jerry/busappbackend/service/BusTripDataProvider.java:165-183 | the inner loop adds exactly the trips `Segment` makes of the group, in order, and keeps the indexes consistent and every trip well formed |
| TripData.TripDataProvider.FileTrip | src/main/java/com/jerry/busappbackend/service/BusTripDataProvider.java:87-92 | the new position is filed under the line name and the vehicle ref, so both indexes are again what the addTrip calls so far make of them |
| TripData.TripDataProvider.ConstructTrips | src/main/java/com/jerry/busappbackend/service/BusTripDataProvider.java:155-186 | every group is visited once, in some key order, and the trips are the groups' segments in that order |
| TripData.TripDataProvider.Initialise | src/main/java/com/jerry/busappbackend/service/BusTripDataProvider.java:66-70 | after start-up the records are grouped as above, the trips' records are a permutation of the valid records, the indexes agree with the trips and every trip is well formed |
| TripData.TripDataProvider.StoreTrips | src/main/java/com/jerry/busappbackend/service/BusTripDataProvider.java:69 | the provider holds the built list, which matches the entries and whose trips are all well formed |
| TripData.TripDataProvider.GetTripByType | src/main/java/com/jerry/busappbackend/service/BusTripDataProvider.java:224-233 | "publishedLineName" selects the line index and anything else the vehicle index; an unknown value is the failure case; a known one gives its trips in construction order, each well formed, so the result can be handed to the GeoJSON builder |
| TripData.TripDataProvider.GetTripByPublishedLineName | src/main/java/com/jerry/busappbackend/service/BusTripDataProvider.java:216-218 | the trips with that line name, in construction order and well formed, or failure if there are none |
| TripData.TripDataProvider.GetTripByVehicleRef | src/main/java/com/jerry/busappbackend/service/BusTripDataProvider.java:220-222 | the trips with that vehicle ref, in construction order and well formed, or failure if there are none |
| TripData.TripDataProvider.GetAllPublishedLineName | src/main/java/com/jerry/busappbackend/service/BusTripDataProvider.java:200-204 | every line name of some trip, strictly ascending, no duplicates |
| TripData.TripDataProvider.GetAllVehicleRef | src/main/java/com/jerry/busappbackend/service/BusTripDataProvider.java:206-210 | every vehicle ref of some trip, strictly ascending, no duplicates |
| TripData.BuiltTrips | src/main/java/com/jerry/busappbackend/service/BusTripDataProvider.java:155-186 | the built trips cover the valid records exactly and carry their own line name and vehicle ref |
| BusTrips.BusTrip.constructor | src/main/java/com/jerry/busappbackend/model/BusTrip.java:41-98 | metadata from the first record, start and end time from the first and last, `coords[i]` = (longitude, latitude) of record i, and the property table laid out as below |
| BusTrips.InfoAtHeader | src/main/java/com/jerry/busappbackend/model/BusTrip.java:57-79 | entries 0-7 have the fixed keys VehicleRef ... NumOfPoints, in order, with the first record's fields, the formatted start and end time, and the count |
| BusTrips.NumOfPointsReadsBack | src/main/java/com/jerry/busappbackend/model/BusTrip.java:52-55 | the table has 8 + 4N entries and its NumOfPoints value parses back to N |
| BusTrips.PointEntriesLayout | src/main/java/com/jerry/busappbackend/model/BusTrip.java:87-97 | entries 8+4i .. 11+4i carry the keys "Point (i+1) geom/arrival/dist from stop/time" and record i's values; the arrival value is its proximity text verbatim |
| BusTrips.KeysDistinct | src/main/java/com/jerry/busappbackend/model/BusTrip.java:57-97 | no two entries of the table share a key |
| BusTrips.WriteHeader | src/main/java/com/jerry/busappbackend/model/BusTrip.java:57-79 | writes the eight header entries and leaves the rest of the table alone |
| BusTrips.WritePointGroup | src/main/java/com/jerry/busappbackend/model/BusTrip.java:87-97 | writes the four entries of point i and leaves the rest of the table alone |
| CsvCleaning.NewCsvParser | src/main/java/com/jerry/busappbackend/util/CsvParser.java:39-58 | fails iff the path is blank or the file does not exist; otherwise the derived files sit in the raw file's parent directory |
| CsvCleaning.DerivedPaths | src/main/java/com/jerry/busappbackend/util/CsvParser.java:54-57 | for `base.ext` the files are `base_clean.csv` and `base_temp.csv` beside it |
| CsvCleaning.StripExtensionOf | src/main/java/com/jerry/busappbackend/util/CsvParser.java:55 | `[.][^.]+$` removes exactly a final non-empty extension |
| CsvCleaning.StripExtensionKeeps | src/main/java/com/jerry/busappbackend/util/CsvParser.java:55 | the name is left alone iff it has no '.' or ends with '.' |
| CsvCleaning.DerivedPathsDistinct | src/main/java/com/jerry/busappbackend/util/CsvParser.java:54-57 | the raw, cleaned and temporary paths are pairwise different |
| CsvCleaning.IndexOfMeaning | src/main/java/com/jerry/busappbackend/util/CsvParser.java:94-95 | the search finds the first occurrence, or reports that there is none |
| CsvCleaning.ReplaceLeavesNone | src/main/java/com/jerry/busappbackend/util/CsvParser.java:94-95 | after `String.replace`, no occurrence of the target is left when the replacement cannot rebuild it |
| CsvCleaning.RepairLineClean | src/main/java/com/jerry/busappbackend/util/CsvParser.java:85-95 | a repaired line contains neither corrupt annotation |
| CsvCleaning.RepairLineIdempotent | src/main/java/com/jerry/busappbackend/util/CsvParser.java:85-95 | repairing twice is repairing once; a line without the annotations is unchanged |
| CsvCleaning.RepairedLinesFacts | src/main/java/com/jerry/busappbackend/util/CsvParser.java:88-98 | the header is copied verbatim, followed by at most 100000 repaired lines, each clean |
| CsvCleaning.RepairLines | src/main/java/com/jerry/busappbackend/util/CsvParser.java:88-98 | the loop writes exactly those lines, and completes iff the file has more than 100000 lines counting the header (at least 100000 after it) |
| CsvCleaning.WithinBoundMeaning | src/main/java/com/jerry/busappbackend/util/CsvParser.java:151 | the range test passes for values within the closed bounds and for NaN |
| CsvCleaning.CleanedFacts | src/main/java/com/jerry/busappbackend/util/CsvParser.java:140-146 | only cells 14 and 15 change, from "NA" to "", and cleaning twice is cleaning once |
| CsvCleaning.AcceptedMeaning | src/main/java/com/jerry/busappbackend/util/CsvParser.java:139-156 | a row is accepted iff both coordinates parse and lie within [-90, 90] and [-180, 180] (bounds included) or are NaN |
| CsvCleaning.CleanRowIdempotent | src/main/java/com/jerry/busappbackend/util/CsvParser.java:140-146 | cleaning an already cleaned row changes neither the row nor its verdict |
| CsvCleaning.CleanRow | src/main/java/com/jerry/busappbackend/util/CsvParser.java:139-156 | the array afterwards is the cleaned row and the verdict is accepted, rejected, or the crash on a too-short row |
| CsvCleaning.KeptIsFilter | src/main/java/com/jerry/busappbackend/util/CsvParser.java:113-122 | the rows written are the accepted rows, cleaned, in their original order, up to the first too-short row |
| CsvCleaning.KeptSound | src/main/java/com/jerry/busappbackend/util/CsvParser.java:113-122 | every written row is accepted and has no "NA" in cells 14 and 15 |
| CsvCleaning.CleanRows | src/main/java/com/jerry/busappbackend/util/CsvParser.java:113-122 | the loop keeps exactly those rows and stops at the first too-short row, if any |
| CsvCleaning.CleanData | src/main/java/com/jerry/busappbackend/util/CsvParser.java:78-137 | the two passes and the final delete-and-move, with the failure the source raises for each case |
| CsvCleaning.CleaningLeavesCleanedFile | src/main/java/com/jerry/busappbackend/util/CsvParser.java:80-103 | once the raw file exists, the cleaned file exists afterwards even when cleaning fails, and the raw file is untouched |
| CsvCleaning.ShortRawFileLeavesRepairedLines | src/main/java/com/jerry/busappbackend/util/CsvParser.java:92-95 | a file with 100000 lines or fewer fails at the missing line and leaves its repaired lines behind |
| CsvCleaning.CleaningSucceeded | src/main/java/com/jerry/busappbackend/util/CsvParser.java:106-136 | on success the cleaned file is the header and the accepted rows, cleaned, in order, and the temporary file is gone |
| CsvCleaning.Parse | src/main/java/com/jerry/busappbackend/util/CsvParser.java:60-76 | an existing cleaned file is read unchanged; otherwise the data is cleaned first and its failure, if any, is the result |
| GeoJson.PutLookup | src/main/java/com/jerry/busappbackend/service/GeoJsonBuilder.java:199-201 | after a put the key maps to the new value and every other key keeps its value |
| GeoJson.PutAppends | src/main/java/com/jerry/busappbackend/service/GeoJsonBuilder.java:199-201 | putting a new key appends it at the end |
| GeoJson.LastWriteWins | src/main/java/com/jerry/busappbackend/service/GeoJsonBuilder.java:197-204 | in the properties object a repeated key holds the value of its last pair; keys not in the table are absent |
| GeoJson.PutAllDistinct | src/main/java/com/jerry/busappbackend/service/GeoJsonBuilder.java:197-204 | with distinct keys the properties object holds every pair, in array order |
| GeoJson.CreatePropertiesNode | src/main/java/com/jerry/busappbackend/service/GeoJsonBuilder.java:197-204 | the loop's object is every pair put in order |
| GeoJson.GeometryFor | src/main/java/com/jerry/busappbackend/service/GeoJsonBuilder.java:132-148 | a Point iff the trip has exactly one coordinate; the geometry's coordinates are the trip's, in order |
| GeoJson.CreateGeometryNode | src/main/java/com/jerry/busappbackend/service/GeoJsonBuilder.java:165-188 | an object with the type, then the coordinates: a flat [x, y] for a Point, else one [x, y] pair per coordinate in order |
| GeoJson.GeometryRoundTrip | src/main/java/com/jerry/busappbackend/service/GeoJsonBuilder.java:174-185 | the geometry node gives back the geometry: its type, every coordinate, their order, and longitude as x |
| GeoJson.Features | src/main/java/com/jerry/busappbackend/service/GeoJsonBuilder.java:86-88 | one feature per trip, in trip order |
| GeoJson.BuildFeatures | src/main/java/com/jerry/busappbackend/service/GeoJsonBuilder.java:86-88 | the stream builds exactly those features |
| GeoJson.CreateFeatureNode | src/main/java/com/jerry/busappbackend/service/GeoJsonBuilder.java:94-108 | a feature node holds type "Feature", then the geometry node, then the properties node |
| GeoJson.Validated | src/main/java/com/jerry/busappbackend/service/GeoJsonBuilder.java:214-220 | the result is an error iff the validator reports a message (all its messages); otherwise it is the serialised string |
| GeoJson.Build | src/main/java/com/jerry/busappbackend/service/GeoJsonBuilder.java:85-122 | the serialised FeatureCollection of the trips' features, or the validation failure |
| GeoJson.TripFeature | src/main/java/com/jerry/busappbackend/service/GeoJsonBuilder.java:131-155 | a trip's feature is a Point for one record and a LineString otherwise, with every property-table entry as a string field in table order |
| GeoJson.TableKeysDistinct | src/main/java/com/jerry/busappbackend/model/BusTrip.java:57-97 | a trip's property table has distinct keys, so no property is overwritten |
| GeoJson.CollectionShape | src/main/java/com/jerry/busappbackend/service/GeoJsonBuilder.java:112-114 | the document has type "FeatureCollection" and a features array with one feature node per trip, in order |

## Left out

- **I/O and libraries.** File I/O is a map from paths to line lists. opencsv tokenising, writing and bean binding, `Double.parseDouble`, `LocalDateTime.toString` and `double` formatting are function parameters. So are Jackson serialisation and the networknt schema validator. Their internal behaviour is not modelled.
- **Accounting left to the library.** A `CsvValidationException` part-way through the file leaves the rows written so far in the temporary file. The model keeps that file as the library's writer leaves it and does not model how much was flushed.
- **Paths.** `Paths.get` normalisation (repeated or trailing '/', "." and "..") is not modelled. The file name is the text after the last '/'.
- **Null values.** Strings are never null: a null cell from the binding, and `put` of a null property value, are not modelled. A null expected-arrival time, distance or time field is modelled as `None`.
- **Geometry libraries.** JTS geometries and GeoTools' `SimpleFeatureBuilder` are values (`Geometry`, `Feature`); the builder's internal value list is not modelled.
- **JSON nodes as values.** Jackson's nodes are immutable values, built in the same steps. Node identity and aliasing do not arise, because no node is changed after it is attached.
- **Bounded failure modes.** `JsonProcessingException` from re-reading the serialised string is not modelled; the validator is applied to the string.
- **Logging and the rest of the service.** Logging, `Timer`, `MemoryTracker`, the controller, the filter, the configuration and bootstrap are not modelled. Neither is the message text of the exceptions.
- BusRecords.CompareTo: returns -1, 0 or 1 when both times are present; `LocalDateTime.compareTo` may return any value of that sign, which no caller depends on.
- Text.StrLess: compares characters as code points; Java compares UTF-16 code units, which orders differently only for characters outside the Basic Multilingual Plane.
- BusTrips.BusTrip.constructor: a record without an expected-arrival time makes the source throw a NullPointerException when it formats that time (BusTrip.java:73, 76, 97); the model makes `AllTimed` a precondition instead, here and on TripData.TripDataProvider.AddTrip, because the filter at BusTripDataProvider.java:105-109 drops every such record before a trip is built.
- TripData.TripDataProvider.ConstructTrips: visits the groups in an unspecified order, like `HashMap.keySet()`, and states the trips for that order; requires the groups to be well formed, which `groupRecordsByCompositeKey` guarantees.
- TripData.TripDataProvider.GetTripByType: an unknown key makes the source fail with a NullPointerException in the loop over `map.get(value)`; the model returns `None` for that case.
- TripData.SortedKeys: merges the copy of the key set and `Collections.sort` into one insertion pass; only the result is modelled.
- TripPipeline.KeySplitNames: a line name or vehicle ref containing "|" makes the split misfile the trip; the model states the names only when neither contains "|" and otherwise keeps the split as written.
- CsvCleaning.AcceptedMeaning: the source's intent that every coordinate is in range is not what the code does; a NaN coordinate is accepted.
- CsvCleaning.Cleaning: a raw file with 100000 lines or fewer fails with the missing-line error the source raises at `readLine()` returning null, after the lines read so far are written.
- Getters, setters and `toString` of the entity and the trip are not modelled.
