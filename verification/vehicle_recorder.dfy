/** The trip recorder: one 12-field CSV record per finished trip, numbered
    by a process-wide trip counter, kept in a cache until the next write.
    The lock, the file and the `%.4f` rendering of floating-point fields
    are left out; the latter is a parameter. */
module VehicleRecorder {
  import opened Wrappers
  import Text
  import Vehicle

  type Row = seq<string>

  /** The column names of the trip file. */
  const Header: seq<string> := ["Trip ID", "Vehicle ID", "Acceleration", "SlowingPro", "Origin", "Destination",
                                "In Time", "Arrival Time", "Tag", "ClosedVehicle", "PathLength", "Path"]

  // ---------------------------------------------------------------------
  // The path column

  function IDStrings(ids: seq<int>): (strs: seq<string>)
    ensures |strs| == |ids|
    ensures forall i :: 0 <= i < |ids| ==> strs[i] == Text.IntToString(ids[i])
  {
    seq(|ids|, i requires 0 <= i < |ids| => Text.IntToString(ids[i]))
  }

  /** A path as `[id,id,...]`; the empty path is `[]`. */
  function FormatSimplePath(ids: seq<int>): (s: string)
    ensures |ids| == 0 <==> s == "[]"
    ensures |s| >= 2 && s[0] == '[' && s[|s| - 1] == ']'
  {
    if |ids| == 0 then "[]"
    else
      var body := Text.Join(IDStrings(ids), ",");
      assert |body| >= 1 by {
        JoinLength(IDStrings(ids));
      }
      "[" + body + "]"
  }

  lemma {:induction false} JoinLength(parts: seq<string>)
    requires |parts| >= 1 && |parts[0]| >= 1
    ensures |Text.Join(parts, ",")| >= 1
  {
    Text.IntToStringAvoids(0, ',');
  }

  /** Reads a path column back: brackets around comma-separated integers. */
  function ParsePath(s: string): Option<seq<int>> {
    if |s| < 2 || s[0] != '[' || s[|s| - 1] != ']' then None
    else if |s| == 2 then Some([])
    else ParseAll(Text.Split(s[1..|s| - 1], ','))
  }

  function ParseAll(parts: seq<string>): Option<seq<int>>
    decreases |parts|
  {
    if |parts| == 0 then Some([])
    else
      var head :- Text.Atoi(parts[0]);
      var rest :- ParseAll(parts[1..]);
      Some([head] + rest)
  }

  lemma {:induction false} ParseAllOfIDStrings(ids: seq<int>)
    requires forall i :: 0 <= i < |ids| ==> Text.Int64Min <= ids[i] <= Text.Int64Max
    ensures ParseAll(IDStrings(ids)) == Some(ids)
    decreases |ids|
  {
    if |ids| > 0 {
      Text.AtoiOfIntToString(ids[0]);
      assert IDStrings(ids)[1..] == IDStrings(ids[1..]);
      ParseAllOfIDStrings(ids[1..]);
      assert [ids[0]] + ids[1..] == ids;
    }
  }

  /** Every path of 64-bit node IDs reads back from its column. */
  lemma FormatSimplePathRoundTrip(ids: seq<int>)
    requires forall i :: 0 <= i < |ids| ==> Text.Int64Min <= ids[i] <= Text.Int64Max
    ensures ParsePath(FormatSimplePath(ids)) == Some(ids)
  {
    if |ids| > 0 {
      var strs := IDStrings(ids);
      var body := Text.Join(strs, ",");
      forall i | 0 <= i < |strs|
        ensures ',' !in strs[i]
      {
        Text.IntToStringAvoids(ids[i], ',');
      }
      Text.IntToStringAvoids(ids[0], ',');
      JoinLength(strs);
      Text.SplitJoin(strs, ',');
      var s := FormatSimplePath(ids);
      assert s[1..|s| - 1] == body;
      ParseAllOfIDStrings(ids);
    }
  }

  // ---------------------------------------------------------------------
  // Records and the cache

  /** Go's `strconv.FormatBool`. */
  function FormatBool(b: bool): string {
    if b then "true" else "false"
  }

  datatype RecordError = NoOrigin | NoDestination

  /** The record of one trip with the next trip ID; `format4` renders a
      float with four decimals. A vehicle without origin or destination
      has no record (the program dereferences a nil node there). */
  function GetVehicleData(v: Vehicle.Vehicle, tripCounter: int, format4: real -> string): (r: Result<(Row, int), RecordError>)
    ensures r.Success? <==> v.origin.Some? && v.destination.Some?
    ensures r.Success? ==> var (row, next) := r.value;
      && next == tripCounter + 1
      && |row| == |Header|
      && row[9] == FormatBool(v.flag)
      && row[11] == FormatSimplePath(Vehicle.PathIDs(v.simplePath))
  {
    if v.origin.None? then Failure(NoOrigin)
    else if v.destination.None? then Failure(NoDestination)
    else
      var idx := tripCounter + 1;
      var row := [Text.IntToString(idx), Text.IntToString(v.index), Text.IntToString(v.acceleration),
                  format4(v.slowingProb), Text.IntToString(Vehicle.NodeID(v.origin.value)),
                  Text.IntToString(Vehicle.NodeID(v.destination.value)), Text.IntToString(v.inTime),
                  Text.IntToString(v.outTime), format4(v.tag), FormatBool(v.flag),
                  Text.IntToString(v.pathLength), FormatSimplePath(Vehicle.PathIDs(v.simplePath))];
      Success((row, idx))
  }

  predicate Fits64(n: int) {
    Text.Int64Min <= n <= Text.Int64Max
  }

  /** The integer columns of a record read back as the trip ID, the
      vehicle, its origin and destination, its times and path length, and
      the path column as the planned path, when they fit 64 bits. */
  lemma VehicleDataReadsBack(v: Vehicle.Vehicle, tripCounter: int, format4: real -> string)
    requires v.origin.Some? && v.destination.Some?
    requires Fits64(tripCounter + 1) && Fits64(v.index) && Fits64(v.acceleration) && Fits64(v.inTime) && Fits64(v.outTime) && Fits64(v.pathLength)
    requires Fits64(Vehicle.NodeID(v.origin.value)) && Fits64(Vehicle.NodeID(v.destination.value))
    requires forall i :: 0 <= i < |v.simplePath| ==> Fits64(Vehicle.NodeID(v.simplePath[i]))
    ensures var row := GetVehicleData(v, tripCounter, format4).value.0;
      && Text.Atoi(row[0]) == Some(tripCounter + 1) && Text.Atoi(row[1]) == Some(v.index)
      && Text.Atoi(row[2]) == Some(v.acceleration)
      && Text.Atoi(row[4]) == Some(Vehicle.NodeID(v.origin.value)) && Text.Atoi(row[5]) == Some(Vehicle.NodeID(v.destination.value))
      && Text.Atoi(row[6]) == Some(v.inTime) && Text.Atoi(row[7]) == Some(v.outTime)
      && Text.Atoi(row[10]) == Some(v.pathLength)
      && ParsePath(row[11]) == Some(Vehicle.PathIDs(v.simplePath))
  {
    var row := GetVehicleData(v, tripCounter, format4).value.0;
    assert row[0] == Text.IntToString(tripCounter + 1) && row[1] == Text.IntToString(v.index)
      && row[2] == Text.IntToString(v.acceleration) && row[4] == Text.IntToString(Vehicle.NodeID(v.origin.value))
      && row[5] == Text.IntToString(Vehicle.NodeID(v.destination.value)) && row[6] == Text.IntToString(v.inTime)
      && row[7] == Text.IntToString(v.outTime) && row[10] == Text.IntToString(v.pathLength);
    Text.AtoiOfIntToString(tripCounter + 1);
    Text.AtoiOfIntToString(v.index);
    Text.AtoiOfIntToString(v.acceleration);
    Text.AtoiOfIntToString(Vehicle.NodeID(v.origin.value));
    Text.AtoiOfIntToString(Vehicle.NodeID(v.destination.value));
    Text.AtoiOfIntToString(v.inTime);
    Text.AtoiOfIntToString(v.outTime);
    Text.AtoiOfIntToString(v.pathLength);
    FormatSimplePathRoundTrip(Vehicle.PathIDs(v.simplePath));
  }

  datatype Recorder = Recorder(cache: seq<Row>, tripCounter: int)

  /** Appends the record of a finished trip to the cache. */
  function RecordVehicleData(rec: Recorder, v: Vehicle.Vehicle, format4: real -> string): (r: Result<Recorder, RecordError>)
    ensures r.Success? <==> v.origin.Some? && v.destination.Some?
    ensures r.Success? ==> (r.value.tripCounter == rec.tripCounter + 1
      && |r.value.cache| == |rec.cache| + 1 && r.value.cache[..|rec.cache|] == rec.cache)
  {
    var (row, next) :- GetVehicleData(v, rec.tripCounter, format4);
    Success(Recorder(rec.cache + [row], next))
  }

  /** Writes the cache: nothing on an empty cache, otherwise every cached
      record in order, leaving the cache empty. */
  function WriteToVehicleDataCSV(rec: Recorder): (r: (Recorder, seq<Row>))
    ensures r.1 == rec.cache && r.0.cache == [] && r.0.tripCounter == rec.tripCounter
    ensures |rec.cache| == 0 ==> r.0 == rec
  {
    (rec.(cache := []), rec.cache)
  }

  /** Two trips recorded one after the other get consecutive trip IDs and
      are written in the order they were recorded. */
  lemma RecordTwiceThenWrite(rec: Recorder, a: Vehicle.Vehicle, b: Vehicle.Vehicle, format4: real -> string)
    requires a.origin.Some? && a.destination.Some? && b.origin.Some? && b.destination.Some?
    ensures var r1 := RecordVehicleData(rec, a, format4).value;
      var r2 := RecordVehicleData(r1, b, format4).value;
      var (after, written) := WriteToVehicleDataCSV(r2);
      && written == rec.cache + [GetVehicleData(a, rec.tripCounter, format4).value.0, GetVehicleData(b, rec.tripCounter + 1, format4).value.0]
      && after == Recorder([], rec.tripCounter + 2)
  {
    var r1 := RecordVehicleData(rec, a, format4).value;
    assert r1.tripCounter == rec.tripCounter + 1;
  }
}
