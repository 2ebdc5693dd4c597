/** The trace recorder: turns a vehicle's trace (node ID -> time step) into
    `[vehicleID, time, posID]` text rows, keeps batches of rows in a cache,
    and on a write groups the cached rows by simulated day (first copy of a
    row wins) or into one table (last copy wins). Locks, atomics, memory
    statistics and the CSV files themselves are left out; a write returns
    what it would append. */
module TraceRecorder {
  import opened Wrappers
  import Arith
  import Text

  /** One CSV record. */
  type Row = seq<string>

  /** Steps per day when the configuration is missing or not positive. */
  const DefaultDaySteps: int := 86400

  // ---------------------------------------------------------------------
  // Days

  /** The day length in force: the configured one when it is positive. */
  function DaySteps(oneDaySteps: Option<int>): (d: int)
    ensures d > 0
    ensures oneDaySteps.Some? && oneDaySteps.value > 0 ==> d == oneDaySteps.value
    ensures oneDaySteps.None? || oneDaySteps.value <= 0 ==> d == DefaultDaySteps
  {
    if oneDaySteps.Some? && oneDaySteps.value > 0 then oneDaySteps.value else DefaultDaySteps
  }

  /** The 1-based day a time step falls in; `oneDaySteps` is the
      configured day length, `None` when there is no configuration. Go's
      integer division truncates toward zero, so the steps just before 0
      still count as day 1. */
  function DayOfTimeStep(timeStep: int, oneDaySteps: Option<int>): (day: int)
    ensures var d := DaySteps(oneDaySteps);
      timeStep >= 0 ==> day >= 1 && (day - 1) * d <= timeStep < day * d
    ensures var d := DaySteps(oneDaySteps);
      timeStep <= 0 ==> day <= 1 && (day - 1) * d > timeStep - d
  {
    Arith.TruncDiv(timeStep, DaySteps(oneDaySteps)) + 1
  }

  /** Two non-negative time steps share a day exactly when they lie in the
      same block of `DaySteps` steps. */
  lemma SameDay(t: int, u: int, oneDaySteps: Option<int>)
    requires t >= 0 && u >= 0
    ensures DayOfTimeStep(t, oneDaySteps) == DayOfTimeStep(u, oneDaySteps)
      <==> t / DaySteps(oneDaySteps) == u / DaySteps(oneDaySteps)
  {
    var d := DaySteps(oneDaySteps);
    var a, b := DayOfTimeStep(t, oneDaySteps), DayOfTimeStep(u, oneDaySteps);
    DivOfBlock(t, d, a - 1);
    DivOfBlock(u, d, b - 1);
  }

  lemma DivOfBlock(t: int, d: int, q: int)
    requires d > 0 && q * d <= t < q * d + d
    ensures t / d == q
  {
    Arith.DivUnique(t, d, q, t - q * d);
  }

  /** Truncation puts the step one before midnight of day 1 into day 1,
      where floor division would give day 0. */
  lemma NegativeStepIsDayOne()
    ensures DayOfTimeStep(-1, None) == 1
    ensures Arith.FloorDiv(-1, DefaultDaySteps) + 1 == 0
  {
  }

  // ---------------------------------------------------------------------
  // Rows of one vehicle's trace

  function TraceRow(vehicleID: int, posID: int, time: int): Row {
    [Text.IntToString(vehicleID), Text.IntToString(time), Text.IntToString(posID)]
  }

  /** `order` lists the trace's node IDs once each, in the order Go's map
      iteration happens to visit them (which the language leaves open). */
  ghost predicate Enumerates(order: seq<int>, trace: map<int, int>) {
    (forall i, j :: 0 <= i < j < |order| ==> order[i] != order[j])
    && (forall k :: k in trace <==> k in order)
  }

  function RowsInOrder(vehicleID: int, trace: map<int, int>, order: seq<int>): (rows: seq<Row>)
    requires forall k :: k in order ==> k in trace
    ensures |rows| == |order|
  {
    seq(|order|, i requires 0 <= i < |order| => TraceRow(vehicleID, order[i], trace[order[i]]))
  }

  /** The rows of one vehicle's trace, or nothing for an empty trace. */
  function TraceData(vehicleID: int, trace: map<int, int>, order: seq<int>): (r: Option<seq<Row>>)
    requires Enumerates(order, trace)
    ensures r.None? <==> |trace| == 0
    ensures r.Some? ==> (|r.value| == |order|
      && forall i :: 0 <= i < |order| ==> r.value[i] == TraceRow(vehicleID, order[i], trace[order[i]]))
  {
    if |trace| == 0 then None
    else Some(RowsInOrder(vehicleID, trace, order))
  }

  /** Reads rows back into a trace: every row with a parsable time and
      node ID records that the node was reached at that time. */
  function ParseTrace(rows: seq<Row>): map<int, int>
    decreases |rows|
  {
    if |rows| == 0 then map[]
    else
      var m := ParseTrace(rows[..|rows| - 1]);
      var r := rows[|rows| - 1];
      if |r| >= 3 && Text.Atoi(r[1]).Some? && Text.Atoi(r[2]).Some? then m[Text.Atoi(r[2]).value := Text.Atoi(r[1]).value]
      else m
  }

  /** Every node ID and time fits Go's 64-bit integers. */
  predicate Fits64(trace: map<int, int>) {
    forall k :: k in trace ==> Text.Int64Min <= k <= Text.Int64Max && Text.Int64Min <= trace[k] <= Text.Int64Max
  }

  function Restrict(trace: map<int, int>, keys: seq<int>): map<int, int> {
    map k | k in trace && k in keys :: trace[k]
  }

  lemma {:induction false} ParseRowsPrefix(vehicleID: int, trace: map<int, int>, order: seq<int>, n: nat)
    requires forall k :: k in order ==> k in trace
    requires Fits64(trace)
    requires n <= |order|
    ensures ParseTrace(RowsInOrder(vehicleID, trace, order)[..n]) == Restrict(trace, order[..n])
  {
    var rows := RowsInOrder(vehicleID, trace, order);
    if n > 0 {
      ParseRowsPrefix(vehicleID, trace, order, n - 1);
      var k := order[n - 1];
      ParseTraceSnoc(rows[..n], vehicleID, k, trace[k]);
      assert rows[..n][..n - 1] == rows[..n - 1];
      RestrictSnoc(trace, order[..n - 1], k);
      assert order[..n] == order[..n - 1] + [k];
    } else {
      assert Restrict(trace, order[..0]) == map[];
    }
  }

  /** A row written for a 64-bit entry reads back as that entry. */
  lemma ParseTraceSnoc(rows: seq<Row>, vehicleID: int, posID: int, time: int)
    requires |rows| > 0 && rows[|rows| - 1] == TraceRow(vehicleID, posID, time)
    requires Text.Int64Min <= posID <= Text.Int64Max && Text.Int64Min <= time <= Text.Int64Max
    ensures ParseTrace(rows) == ParseTrace(rows[..|rows| - 1])[posID := time]
  {
    Text.AtoiOfIntToString(posID);
    Text.AtoiOfIntToString(time);
  }

  lemma RestrictSnoc(trace: map<int, int>, keys: seq<int>, k: int)
    requires k in trace
    ensures Restrict(trace, keys + [k]) == Restrict(trace, keys)[k := trace[k]]
  {
  }

  /** The rows written for a trace read back as the same trace. */
  lemma TraceDataRoundTrip(vehicleID: int, trace: map<int, int>, order: seq<int>)
    requires Enumerates(order, trace)
    requires Fits64(trace)
    ensures TraceData(vehicleID, trace, order).Some? ==> ParseTrace(TraceData(vehicleID, trace, order).value) == trace
  {
    ParseRowsPrefix(vehicleID, trace, order, |order|);
    var rows := RowsInOrder(vehicleID, trace, order);
    assert rows[..|order|] == rows;
    assert order[..|order|] == order;
    forall k | k in trace
      ensures k in Restrict(trace, order)
    {
      assert k in order;
    }
    assert Restrict(trace, order) == trace;
  }

  // ---------------------------------------------------------------------
  // The cache

  datatype Cache = Cache(batches: seq<seq<Row>>, recordCount: int)

  /** Older callers passed longer rows: keep the first three fields of
      each, keep shorter rows as they are, drop empty ones. */
  function Convert(data: seq<Row>): (out: seq<Row>)
    ensures |out| <= |data|
    ensures forall i :: 0 <= i < |out| ==> 1 <= |out[i]| <= 3
    decreases |data|
  {
    if |data| == 0 then []
    else
      var r := data[0];
      var head := if |r| >= 3 then [r[..3]] else if |r| > 0 then [r] else [];
      head + Convert(data[1..])
  }

  /** The first three fields of a row, the whole of a shorter one. */
  function Truncate(r: Row): Row {
    if |r| >= 3 then r[..3] else r
  }

  function NonEmptyRows(data: seq<Row>): seq<Row>
    decreases |data|
  {
    if |data| == 0 then [] else (if |data[0]| > 0 then [data[0]] else []) + NonEmptyRows(data[1..])
  }

  /** `Convert` truncates, in order, exactly the non-empty rows. */
  lemma {:induction false} ConvertTruncates(data: seq<Row>)
    ensures |Convert(data)| == |NonEmptyRows(data)|
    ensures forall i :: 0 <= i < |Convert(data)| ==> Convert(data)[i] == Truncate(NonEmptyRows(data)[i])
    decreases |data|
  {
    if |data| > 0 {
      ConvertTruncates(data[1..]);
    }
  }

  /** Converting twice is converting once. */
  lemma {:induction false} ConvertIdempotent(data: seq<Row>)
    ensures Convert(Convert(data)) == Convert(data)
    decreases |data|
  {
    if |data| > 0 {
      ConvertIdempotent(data[1..]);
      var r := data[0];
      var head := if |r| >= 3 then [r[..3]] else if |r| > 0 then [r] else [];
      ConvertConcat(head, Convert(data[1..]));
      if |r| >= 3 {
        assert r[..3][..3] == r[..3];
      }
    }
  }

  lemma {:induction false} ConvertConcat(a: seq<Row>, b: seq<Row>)
    ensures Convert(a + b) == Convert(a) + Convert(b)
    decreases |a|
  {
    if |a| > 0 {
      ConvertConcat(a[1..], b);
      assert (a + b)[1..] == a[1..] + b;
    } else {
      assert a + b == b;
    }
  }

  /** Adds one batch of rows to the cache; an empty batch is ignored, and a
      batch whose first row has more than three fields is converted. */
  function SaveTraceData(c: Cache, data: seq<Row>): (r: Cache)
    ensures |data| == 0 ==> r == c
    ensures |data| > 0 ==> (r.recordCount == c.recordCount + 1 && |r.batches| == |c.batches| + 1
      && r.batches[..|c.batches|] == c.batches)
    ensures |data| > 0 && |data[0]| <= 3 ==> r.batches[|c.batches|] == data
    ensures |data| > 0 && |data[0]| > 3 ==> forall i :: 0 <= i < |r.batches[|c.batches|]| ==> |r.batches[|c.batches|][i]| <= 3
    ensures |data| > 0 && |data[0]| > 3 ==>
      && |r.batches[|c.batches|]| == |NonEmptyRows(data)|
      && forall i :: 0 <= i < |r.batches[|c.batches|]| ==> r.batches[|c.batches|][i] == Truncate(NonEmptyRows(data)[i])
  {
    if |data| == 0 then c
    else
      ConvertTruncates(data);
      var converted := if |data[0]| > 3 then Convert(data) else data;
      Cache(c.batches + [converted], c.recordCount + 1)
  }

  /** All cached rows in the order they were saved. */
  function Flatten(batches: seq<seq<Row>>): seq<Row>
    decreases |batches|
  {
    if |batches| == 0 then [] else batches[0] + Flatten(batches[1..])
  }

  // ---------------------------------------------------------------------
  // De-duplication

  /** The de-duplication key `vehicleID_time_posID`; a shorter row joins
      all its fields. */
  function Key(r: Row): string {
    if |r| >= 3 then r[0] + "_" + r[1] + "_" + r[2] else Text.Join(r, "_")
  }

  /** The time step of a row that has one. */
  function RowTime(r: Row): Option<int> {
    if |r| < 2 then None else Text.Atoi(r[1])
  }

  /** Whether a row is filed under `day` and `key` when splitting by day. */
  predicate InDay(r: Row, day: int, key: string, oneDaySteps: Option<int>) {
    RowTime(r).Some? && DayOfTimeStep(RowTime(r).value, oneDaySteps) == day && Key(r) == key
  }

  /** Whether a row is kept under `key` in the single table. */
  predicate InTable(r: Row, key: string) {
    |r| >= 3 && Key(r) == key
  }

  /** The first row filed under `day` and `key`. */
  function FirstInDay(rows: seq<Row>, day: int, key: string, oneDaySteps: Option<int>): (r: Option<Row>)
    ensures r.Some? ==> r.value in rows && InDay(r.value, day, key, oneDaySteps)
    ensures r.None? ==> forall x :: x in rows ==> !InDay(x, day, key, oneDaySteps)
    decreases |rows|
  {
    if |rows| == 0 then None
    else if InDay(rows[0], day, key, oneDaySteps) then Some(rows[0])
    else FirstInDay(rows[1..], day, key, oneDaySteps)
  }

  /** The last row kept under `key` in the single table. */
  function LastInTable(rows: seq<Row>, key: string): (r: Option<Row>)
    ensures r.Some? ==> r.value in rows && InTable(r.value, key)
    ensures r.None? ==> forall x :: x in rows ==> !InTable(x, key)
    decreases |rows|
  {
    if |rows| == 0 then None
    else
      var later := LastInTable(rows[1..], key);
      if later.Some? then later
      else if InTable(rows[0], key) then Some(rows[0])
      else None
  }

  type DayTables = map<int, map<string, Row>>

  /** Files one row: rows without a parsable time are skipped, the day's
      table is created on first use, and a key already present keeps its
      row. */
  function AddToDay(m: DayTables, r: Row, oneDaySteps: Option<int>): DayTables {
    match RowTime(r)
    case None => m
    case Some(t) =>
      var day := DayOfTimeStep(t, oneDaySteps);
      var table := if day in m then m[day] else map[];
      if Key(r) in table then m else m[day := table[Key(r) := r]]
  }

  /** The split-mode grouping of the cached rows, in cache order. */
  function GroupByDay(rows: seq<Row>, oneDaySteps: Option<int>): DayTables
    decreases |rows|
  {
    if |rows| == 0 then map[] else AddToDay(GroupByDay(rows[..|rows| - 1], oneDaySteps), rows[|rows| - 1], oneDaySteps)
  }

  /** The single-table grouping: rows shorter than three fields are
      dropped and a later copy of a key replaces the earlier one. */
  function Unique(rows: seq<Row>): map<string, Row>
    decreases |rows|
  {
    if |rows| == 0 then map[]
    else
      var m := Unique(rows[..|rows| - 1]);
      var r := rows[|rows| - 1];
      if |r| >= 3 then m[Key(r) := r] else m
  }

  lemma {:induction false} FirstInDaySnoc(rows: seq<Row>, x: Row, day: int, key: string, oneDaySteps: Option<int>)
    ensures FirstInDay(rows + [x], day, key, oneDaySteps)
      == if FirstInDay(rows, day, key, oneDaySteps).Some? then FirstInDay(rows, day, key, oneDaySteps)
         else if InDay(x, day, key, oneDaySteps) then Some(x) else None
    decreases |rows|
  {
    if |rows| > 0 {
      assert (rows + [x])[1..] == rows[1..] + [x];
      FirstInDaySnoc(rows[1..], x, day, key, oneDaySteps);
    } else {
      assert rows + [x] == [x];
    }
  }

  lemma {:induction false} LastInTableSnoc(rows: seq<Row>, x: Row, key: string)
    ensures LastInTable(rows + [x], key)
      == if InTable(x, key) then Some(x) else LastInTable(rows, key)
    decreases |rows|
  {
    if |rows| > 0 {
      assert (rows + [x])[1..] == rows[1..] + [x];
      LastInTableSnoc(rows[1..], x, key);
    } else {
      assert rows + [x] == [x];
    }
  }

  /** Filing one row adds its own day and key, if new, and changes no
      entry already present. */
  lemma AddToDayLookup(g: DayTables, x: Row, day: int, key: string, oneDaySteps: Option<int>)
    ensures var h := AddToDay(g, x, oneDaySteps);
      (day in h && key in h[day]) <==> ((day in g && key in g[day]) || InDay(x, day, key, oneDaySteps))
    ensures var h := AddToDay(g, x, oneDaySteps);
      day in g && key in g[day] ==> h[day][key] == g[day][key]
    ensures var h := AddToDay(g, x, oneDaySteps);
      !(day in g && key in g[day]) && InDay(x, day, key, oneDaySteps) ==> h[day][key] == x
    ensures var h := AddToDay(g, x, oneDaySteps);
      day in h ==> (day in g && g[day].Keys <= h[day].Keys) || h[day] != map[]
  {
    var h := AddToDay(g, x, oneDaySteps);
    if RowTime(x).Some? {
      var d := DayOfTimeStep(RowTime(x).value, oneDaySteps);
      var table := if d in g then g[d] else map[];
      if Key(x) !in table {
        assert h == g[d := table[Key(x) := x]];
        assert Key(x) in h[d];
      }
    }
  }

  /** Split mode keeps, for every day and key, the first row filed there,
      and a day appears only with at least one row. */
  lemma {:induction false} GroupByDayKeepsFirst(rows: seq<Row>, day: int, key: string, oneDaySteps: Option<int>)
    ensures var g := GroupByDay(rows, oneDaySteps);
      (day in g && key in g[day]) <==> FirstInDay(rows, day, key, oneDaySteps).Some?
    ensures var g := GroupByDay(rows, oneDaySteps);
      day in g && key in g[day] ==> g[day][key] == FirstInDay(rows, day, key, oneDaySteps).value
    ensures var g := GroupByDay(rows, oneDaySteps);
      day in g ==> g[day] != map[]
    decreases |rows|
  {
    if |rows| > 0 {
      var init, x := rows[..|rows| - 1], rows[|rows| - 1];
      assert rows == init + [x];
      GroupByDayKeepsFirst(init, day, key, oneDaySteps);
      FirstInDaySnoc(init, x, day, key, oneDaySteps);
      var g := GroupByDay(init, oneDaySteps);
      assert GroupByDay(rows, oneDaySteps) == AddToDay(g, x, oneDaySteps);
      AddToDayLookup(g, x, day, key, oneDaySteps);
    }
  }

  /** The single table keeps, for every key, the last row of at least
      three fields with that key. */
  lemma {:induction false} UniqueKeepsLast(rows: seq<Row>, key: string)
    ensures key in Unique(rows) <==> LastInTable(rows, key).Some?
    ensures key in Unique(rows) ==> Unique(rows)[key] == LastInTable(rows, key).value
    decreases |rows|
  {
    if |rows| > 0 {
      var init, x := rows[..|rows| - 1], rows[|rows| - 1];
      assert rows == init + [x];
      UniqueKeepsLast(init, key);
      LastInTableSnoc(init, x, key);
    }
  }

  /** Two copies of a record that differ after the third field: split mode
      keeps the first, the single table the second. */
  lemma FirstVersusLast(a: Row, b: Row, oneDaySteps: Option<int>)
    requires |a| >= 3 && |b| >= 3 && a[..3] == b[..3]
    requires RowTime(a).Some?
    ensures var day := DayOfTimeStep(RowTime(a).value, oneDaySteps);
      GroupByDay([a, b], oneDaySteps)[day][Key(a)] == a
    ensures Unique([a, b])[Key(a)] == b
  {
    var day := DayOfTimeStep(RowTime(a).value, oneDaySteps);
    assert a[0] == b[0] && a[1] == b[1] && a[2] == b[2] by {
      assert a[0] == a[..3][0] && a[1] == a[..3][1] && a[2] == a[..3][2];
    }
    assert InDay(a, day, Key(a), oneDaySteps) && InDay(b, day, Key(a), oneDaySteps);
    GroupByDayKeepsFirst([a, b], day, Key(a), oneDaySteps);
    UniqueKeepsLast([a, b], Key(a));
    assert [a, b][1..] == [b];
  }

  // ---------------------------------------------------------------------
  // Writing

  /** What one write appends: nothing, one table per day, or one table. */
  datatype Output = NoOutput | Daily(days: DayTables) | Single(table: map<string, Row>)

  /** Writes the cache: an empty cache is left alone and nothing is
      written; otherwise the cache is emptied, the record count reset, and
      the rows grouped by day (`split`: splitting is on and the trace
      directory exists) or into one table. */
  function WriteToTraceDataCSV(c: Cache, split: bool, oneDaySteps: Option<int>): (r: (Cache, Output))
    ensures |c.batches| == 0 <==> r.1 == NoOutput
    ensures |c.batches| == 0 ==> r.0 == c
    ensures |c.batches| > 0 ==> r.0 == Cache([], 0)
    ensures |c.batches| > 0 && split ==> (r.1.Daily?
      && forall day, key :: (day in r.1.days && key in r.1.days[day])
           <==> FirstInDay(Flatten(c.batches), day, key, oneDaySteps).Some?)
    ensures |c.batches| > 0 && split ==> (r.1.Daily?
      && forall day, key :: day in r.1.days && key in r.1.days[day] ==>
           && FirstInDay(Flatten(c.batches), day, key, oneDaySteps).Some?
           && r.1.days[day][key] == FirstInDay(Flatten(c.batches), day, key, oneDaySteps).value)
    ensures |c.batches| > 0 && split ==> (r.1.Daily? && forall day :: day in r.1.days ==> r.1.days[day] != map[])
    ensures |c.batches| > 0 && !split ==> (r.1.Single?
      && forall key :: key in r.1.table <==> LastInTable(Flatten(c.batches), key).Some?)
    ensures |c.batches| > 0 && !split ==> (r.1.Single?
      && forall key :: key in r.1.table ==>
           && LastInTable(Flatten(c.batches), key).Some?
           && r.1.table[key] == LastInTable(Flatten(c.batches), key).value)
  {
    if |c.batches| == 0 then (c, NoOutput)
    else
      var rows := Flatten(c.batches);
      if split then
        var g := GroupByDay(rows, oneDaySteps);
        assert forall day, key :: (day in g && key in g[day]) <==> FirstInDay(rows, day, key, oneDaySteps).Some? by {
          forall day, key
            ensures (day in g && key in g[day]) <==> FirstInDay(rows, day, key, oneDaySteps).Some?
          {
            GroupByDayKeepsFirst(rows, day, key, oneDaySteps);
          }
        }
        assert forall day, key :: day in g && key in g[day] ==>
          FirstInDay(rows, day, key, oneDaySteps).Some? && g[day][key] == FirstInDay(rows, day, key, oneDaySteps).value by {
          forall day, key | day in g && key in g[day]
            ensures FirstInDay(rows, day, key, oneDaySteps).Some? && g[day][key] == FirstInDay(rows, day, key, oneDaySteps).value
          {
            GroupByDayKeepsFirst(rows, day, key, oneDaySteps);
          }
        }
        assert forall day :: day in g ==> g[day] != map[] by {
          forall day | day in g
            ensures g[day] != map[]
          {
            GroupByDayKeepsFirst(rows, day, "", oneDaySteps);
          }
        }
        (Cache([], 0), Daily(g))
      else
        var u := Unique(rows);
        assert forall key :: key in u <==> LastInTable(rows, key).Some? by {
          forall key
            ensures key in u <==> LastInTable(rows, key).Some?
          {
            UniqueKeepsLast(rows, key);
          }
        }
        assert forall key :: key in u ==> LastInTable(rows, key).Some? && u[key] == LastInTable(rows, key).value by {
          forall key | key in u
            ensures LastInTable(rows, key).Some? && u[key] == LastInTable(rows, key).value
          {
            UniqueKeepsLast(rows, key);
          }
        }
        (Cache([], 0), Single(u))
  }
}
