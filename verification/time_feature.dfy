/** The trailing-window travel-time feature builder (`CreateTimeFeature`).

    Within one group of trip records sharing a group key, the rows are sorted
    by entry time; the rows of the first `W * gap` time steps are a warm-up and
    are dropped; for every remaining row at time `t`, every target column and
    every window `i` in 1..W, the builder looks for the rows of the whole
    sorted group inside `[t - gap*i, t - gap*(i-1))`, shifting that interval
    back by whole days (57600 steps) up to five times until it is non-empty,
    and records the mean and the sample standard deviation of the target over
    the first non-empty interval, rounded to three decimals. Finally every
    derived column is smoothed to the average of its forward fill and its
    backward fill. The runner applies this to every group, concatenates the
    results in key order, and optionally keeps only rows with `Date > 0`.

    NaN is `None`. The square root inside the standard deviation and the
    rounding to three decimals are parameters (`Numerics`): the model states
    where they are applied, not how they compute. */
module TimeFeature {
  import opened Wrappers
  import Text
  import Seqs

  /** Time steps of one simulated day: the backtracking shift. */
  const DaySteps: int := 57600
  /** Shifts 0..MaxTries days are tried, so six intervals in all. */
  const MaxTries: nat := 5

  /** One trip record: its group key (the value of the grouping column, such
      as `OD_Dig_2`), `In Time`, `Date`, and its other numeric columns by name
      (None = NaN). */
  datatype Row = Row(key: string, inTime: int, date: int, values: map<string, Option<real>>)

  datatype Stat = Mean | Std

  /** A derived column `<stat>_<target without spaces>_before_<window>`. */
  datatype FeatureKey = FeatureKey(stat: Stat, target: string, window: nat)

  /** An output row: the original record, unchanged, plus its derived columns. */
  datatype OutRow = OutRow(row: Row, features: map<FeatureKey, Option<real>>)

  /** The square root used by the sample standard deviation and numpy's
      rounding to three decimals, left uninterpreted. */
  datatype Numerics = Numerics(sqrt: real -> real, round3: real -> real)

  datatype Error =
    /** A target column the table does not have (pandas raises KeyError). */
    | MissingColumn(column: string)
    /** A target listed twice: both copies store their windows under the
        same key, so each derived column collects two values per kept row
        and pandas refuses the assignment (ValueError). */
    | DuplicateTarget(column: string)
    /** `pd.concat` of no groups: the table had no rows. */
    | NothingToConcatenate

  // ---------------------------------------------------------------------
  // Sorting by `In Time`

  predicate SortedByTime(s: seq<Row>) {
    forall i, j :: 0 <= i < j < |s| ==> s[i].inTime <= s[j].inTime
  }

  lemma SortedHeadIsMin(s: seq<Row>)
    requires SortedByTime(s)
    requires |s| > 0
    ensures forall r :: r in s ==> s[0].inTime <= r.inTime
  {
  }

  /** Inserts `r` after every row of `s` whose time is not later than its own. */
  function InsertByTime(r: Row, s: seq<Row>): (t: seq<Row>)
    requires SortedByTime(s)
    ensures SortedByTime(t)
    ensures multiset(t) == multiset(s) + multiset{r}
    ensures |t| == |s| + 1
  {
    if |s| == 0 then [r]
    else if r.inTime < s[0].inTime then [r] + s
    else
      var rest := InsertByTime(r, s[1..]);
      assert s == [s[0]] + s[1..];
      HeadStaysFirst(r, s, rest);
      [s[0]] + rest
  }

  /** Inserting a row not earlier than the head of a sorted sequence into
      its tail leaves only rows not earlier than that head. */
  lemma HeadStaysFirst(r: Row, s: seq<Row>, rest: seq<Row>)
    requires SortedByTime(s) && |s| > 0 && s[0].inTime <= r.inTime
    requires multiset(rest) == multiset(s[1..]) + multiset{r}
    ensures forall k :: 0 <= k < |rest| ==> s[0].inTime <= rest[k].inTime
  {
    forall k | 0 <= k < |rest|
      ensures s[0].inTime <= rest[k].inTime
    {
      assert rest[k] in multiset(rest);
      if rest[k] != r {
        assert rest[k] in multiset(s[1..]);
        var j :| 0 <= j < |s[1..]| && s[1..][j] == rest[k];
        assert s[j + 1] == rest[k];
      }
    }
  }

  /** `group.sort_values(by='In Time')`: a permutation of the group in
      ascending entry time. */
  function SortByTime(s: seq<Row>): (t: seq<Row>)
    ensures SortedByTime(t)
    ensures multiset(t) == multiset(s)
    ensures |t| == |s|
  {
    if |s| == 0 then []
    else
      assert s == s[..|s| - 1] + [s[|s| - 1]];
      InsertByTime(s[|s| - 1], SortByTime(s[..|s| - 1]))
  }

  lemma {:induction false} InsertAfterAll(r: Row, s: seq<Row>)
    requires SortedByTime(s)
    requires forall x :: x in s ==> x.inTime <= r.inTime
    ensures InsertByTime(r, s) == s + [r]
  {
    if |s| > 0 {
      assert s[0] in s;
      InsertAfterAll(r, s[1..]);
      assert s == [s[0]] + s[1..];
    }
  }

  /** Dropping the last row of a sorted sequence leaves it sorted, and that
      row is not earlier than any other. */
  lemma SortedInitLast(s: seq<Row>)
    requires SortedByTime(s) && |s| > 0
    ensures SortedByTime(s[..|s| - 1])
    ensures forall x :: x in s[..|s| - 1] ==> x.inTime <= s[|s| - 1].inTime
  {
    forall x | x in s[..|s| - 1]
      ensures x.inTime <= s[|s| - 1].inTime
    {
      var i :| 0 <= i < |s| - 1 && s[i] == x;
    }
  }

  /** Sorting rows already in time order leaves them as they are. */
  lemma {:induction false} SortSorted(s: seq<Row>)
    requires SortedByTime(s)
    ensures SortByTime(s) == s
  {
    if |s| > 0 {
      var init, last := s[..|s| - 1], s[|s| - 1];
      SortedInitLast(s);
      SortSorted(init);
      InsertAfterAll(last, init);
      assert init + [last] == s;
    }
  }

  lemma SortKeepsRows(s: seq<Row>)
    ensures forall r :: r in SortByTime(s) <==> r in s
  {
    var t := SortByTime(s);
    forall r
      ensures r in t <==> r in s
    {
      assert r in t <==> r in multiset(t);
      assert r in s <==> r in multiset(s);
    }
  }

  // ---------------------------------------------------------------------
  // Intervals and backtracking

  function Between(lb: int, ub: int): Row -> bool {
    (r: Row) => lb <= r.inTime < ub
  }

  /** `group[(group.index < ub) & (group.index >= lb)]`: the rows of `rows`,
      in order, whose time lies in `[lb, ub)`. */
  function InInterval(rows: seq<Row>, lb: int, ub: int): seq<Row> {
    Seqs.Filter(rows, Between(lb, ub))
  }

  /** Window `i` of a row at time `t`: `[t - gap*i, t - gap*(i-1))`. */
  function WindowLower(t: int, gap: int, i: nat): int {
    t - gap * i
  }

  function WindowUpper(t: int, gap: int, i: nat): int {
    t - gap * (i - 1)
  }

  /** The interval `[lb, ub)` shifted back by `k` days. */
  function Attempt(rows: seq<Row>, lb: int, ub: int, k: nat): seq<Row> {
    InInterval(rows, lb - DaySteps * k, ub - DaySteps * k)
  }

  function BacktrackFrom(rows: seq<Row>, lb: int, ub: int, k: nat): (r: Option<(nat, seq<Row>)>)
    ensures r.None? <==> forall j :: k <= j <= MaxTries ==> |Attempt(rows, lb, ub, j)| == 0
    ensures r.Some? ==>
      && k <= r.value.0 <= MaxTries
      && r.value.1 == Attempt(rows, lb, ub, r.value.0)
      && |r.value.1| > 0
      && forall j :: k <= j < r.value.0 ==> |Attempt(rows, lb, ub, j)| == 0
    decreases MaxTries + 1 - k
  {
    if k > MaxTries then None
    else if |Attempt(rows, lb, ub, k)| > 0 then Some((k, Attempt(rows, lb, ub, k)))
    else BacktrackFrom(rows, lb, ub, k + 1)
  }

  /** `find_data_with_backtracking`: the first shift `k` in 0..5 whose
      shifted interval holds a row, with that interval's rows; None when all
      six intervals are empty. */
  function FindWithBacktracking(rows: seq<Row>, lb: int, ub: int): (r: Option<(nat, seq<Row>)>)
    ensures r.None? <==> forall k :: 0 <= k <= MaxTries ==> |Attempt(rows, lb, ub, k)| == 0
    ensures r.Some? ==>
      && r.value.0 <= MaxTries
      && r.value.1 == Attempt(rows, lb, ub, r.value.0)
      && |r.value.1| > 0
      && forall k :: 0 <= k < r.value.0 ==> |Attempt(rows, lb, ub, k)| == 0
  {
    BacktrackFrom(rows, lb, ub, 0)
  }

  // ---------------------------------------------------------------------
  // Statistics of one interval (pandas skips NaN)

  function Defined(vs: seq<Option<real>>): (d: seq<real>)
    ensures |d| <= |vs|
  {
    if |vs| == 0 then []
    else (if vs[0].Some? then [vs[0].value] else []) + Defined(vs[1..])
  }

  function Sum(xs: seq<real>): real {
    if |xs| == 0 then 0.0 else xs[0] + Sum(xs[1..])
  }

  function SquaredDeviations(xs: seq<real>, m: real): real {
    if |xs| == 0 then 0.0 else (xs[0] - m) * (xs[0] - m) + SquaredDeviations(xs[1..], m)
  }

  /** `Series.mean()`: NaN when no value is defined. */
  function MeanOf(vs: seq<Option<real>>): (m: Option<real>)
    ensures m.None? <==> |Defined(vs)| == 0
    ensures m.Some? ==> m.value * (|Defined(vs)| as real) == Sum(Defined(vs))
  {
    var d := Defined(vs);
    if |d| == 0 then None else Some(Sum(d) / (|d| as real))
  }

  /** `Series.std()` (one degree of freedom): NaN with fewer than two
      defined values, else the root of the sample variance. */
  function StdOf(num: Numerics, vs: seq<Option<real>>): (s: Option<real>)
    ensures s.None? <==> |Defined(vs)| < 2
  {
    var d := Defined(vs);
    if |d| < 2 then None
    else
      var m := Sum(d) / (|d| as real);
      Some(num.sqrt(SquaredDeviations(d, m) / ((|d| - 1) as real)))
  }

  function StatOf(num: Numerics, stat: Stat, vs: seq<Option<real>>): Option<real> {
    match stat
    case Mean => MeanOf(vs)
    case Std => StdOf(num, vs)
  }

  /** `round(v, 3) if not np.isnan(v) else np.nan`. */
  function Stored(num: Numerics, v: Option<real>): Option<real> {
    if v.Some? then Some(num.round3(v.value)) else None
  }

  predicate HasColumn(rows: seq<Row>, c: string) {
    forall r :: r in rows ==> c in r.values
  }

  function ColumnValues(rows: seq<Row>, c: string): seq<Option<real>>
    requires HasColumn(rows, c)
  {
    seq(|rows|, i requires 0 <= i < |rows| => rows[i].values[c])
  }

  /** The stored (rounded, not yet smoothed) statistic of window `i` of target
      `tg` for a row at time `t`, searched over the whole sorted group. */
  function WindowStat(num: Numerics, group: seq<Row>, t: int, gap: int, tg: string, i: nat, stat: Stat): Option<real>
    requires HasColumn(group, tg)
  {
    match FindWithBacktracking(group, WindowLower(t, gap, i), WindowUpper(t, gap, i))
    case None => None
    case Some(found) =>
      assert HasColumn(found.1, tg);
      Stored(num, StatOf(num, stat, ColumnValues(found.1, tg)))
  }

  // ---------------------------------------------------------------------
  // Forward-fill / backward-fill smoothing

  /** `ffill()` at position `j`: the nearest defined value at or before `j`. */
  function FFillAt(col: seq<Option<real>>, j: nat): Option<real>
    requires j < |col|
  {
    if col[j].Some? || j == 0 then col[j] else FFillAt(col, j - 1)
  }

  /** `bfill()` at position `j`: the nearest defined value at or after `j`. */
  function BFillAt(col: seq<Option<real>>, j: nat): Option<real>
    requires j < |col|
    decreases |col| - j
  {
    if col[j].Some? || j == |col| - 1 then col[j] else BFillAt(col, j + 1)
  }

  /** `(a + b) / 2` where NaN absorbs. */
  function Average(a: Option<real>, b: Option<real>): Option<real> {
    if a.Some? && b.Some? then Some((a.value + b.value) / 2.0) else None
  }

  /** `(col.ffill() + col.bfill()) / 2`. */
  function Smooth(col: seq<Option<real>>): (out: seq<Option<real>>)
    ensures |out| == |col|
  {
    seq(|col|, j requires 0 <= j < |col| => Average(FFillAt(col, j), BFillAt(col, j)))
  }

  /** The smoothing pass as two linear scans, one carrying the last value
      seen going forward and one carrying the next value seen going back. */
  method SmoothScan(col: seq<Option<real>>) returns (out: seq<Option<real>>)
    ensures out == Smooth(col)
  {
    var fwd := ForwardScan(col);
    var bwd := BackwardScan(col);
    out := seq(|col|, m requires 0 <= m < |col| => Average(fwd[m], bwd[m]));
  }

  /** The forward scan: `ffill()` of the whole column. */
  method ForwardScan(col: seq<Option<real>>) returns (fwd: seq<Option<real>>)
    ensures |fwd| == |col|
    ensures forall m :: 0 <= m < |col| ==> fwd[m] == FFillAt(col, m)
  {
    fwd := [];
    var last: Option<real> := None;
    var j := 0;
    while j < |col|
      invariant 0 <= j <= |col|
      invariant |fwd| == j
      invariant forall m :: 0 <= m < j ==> fwd[m] == FFillAt(col, m)
      invariant j > 0 ==> last == FFillAt(col, j - 1)
      invariant j == 0 ==> last == None
    {
      if col[j].Some? {
        last := col[j];
      }
      assert last == FFillAt(col, j);
      fwd := fwd + [last];
      j := j + 1;
    }
  }

  /** The backward scan: `bfill()` of the whole column. */
  method BackwardScan(col: seq<Option<real>>) returns (bwd: seq<Option<real>>)
    ensures |bwd| == |col|
    ensures forall m :: 0 <= m < |col| ==> bwd[m] == BFillAt(col, m)
  {
    bwd := [];
    var next: Option<real> := None;
    var k := |col|;
    while k > 0
      invariant 0 <= k <= |col|
      invariant bwd == BFillsFrom(col, k)
      invariant k < |col| ==> next == BFillAt(col, k)
      invariant k == |col| ==> next == None
    {
      k := k - 1;
      BFillStep(col, k, next);
      if col[k].Some? {
        next := col[k];
      }
      BFillPrepend(col, k, next, bwd);
      bwd := [next] + bwd;
    }
  }

  /** The fill at `k` is the value at `k` when there is one, else the fill
      after it (none past the end). */
  lemma BFillStep(col: seq<Option<real>>, k: nat, next: Option<real>)
    requires k < |col|
    requires k + 1 < |col| ==> next == BFillAt(col, k + 1)
    requires k + 1 == |col| ==> next == None
    ensures (if col[k].Some? then col[k] else next) == BFillAt(col, k)
  {
  }

  /** The fills from position `k` to the end. */
  function BFillsFrom(col: seq<Option<real>>, k: nat): (f: seq<Option<real>>)
    requires k <= |col|
    ensures |f| == |col| - k
    ensures forall m :: 0 <= m < |f| ==> f[m] == BFillAt(col, k + m)
  {
    seq(|col| - k, m requires 0 <= m < |col| - k => BFillAt(col, k + m))
  }

  /** One step of the backward scan: the fill at `k` in front of the fills
      from `k + 1` on are the fills from `k` on. */
  lemma BFillPrepend(col: seq<Option<real>>, k: nat, next: Option<real>, bwd: seq<Option<real>>)
    requires k < |col|
    requires next == BFillAt(col, k)
    requires bwd == BFillsFrom(col, k + 1)
    ensures [next] + bwd == BFillsFrom(col, k)
  {
    var f := BFillsFrom(col, k);
    forall m | 0 <= m < |f|
      ensures ([next] + bwd)[m] == f[m]
    {
      if m > 0 {
        assert ([next] + bwd)[m] == bwd[m - 1];
      }
    }
  }

  lemma {:induction false} FFillFrom(col: seq<Option<real>>, p: nat, j: nat)
    requires p <= j < |col|
    requires col[p].Some?
    requires forall m :: p < m <= j ==> col[m].None?
    ensures FFillAt(col, j) == col[p]
    decreases j - p
  {
    if j > p {
      FFillFrom(col, p, j - 1);
    }
  }

  lemma {:induction false} FFillNone(col: seq<Option<real>>, j: nat)
    requires j < |col|
    requires forall m :: 0 <= m <= j ==> col[m].None?
    ensures FFillAt(col, j).None?
  {
    if j > 0 {
      FFillNone(col, j - 1);
    }
  }

  lemma {:induction false} BFillFrom(col: seq<Option<real>>, q: nat, j: nat)
    requires j <= q < |col|
    requires col[q].Some?
    requires forall m :: j <= m < q ==> col[m].None?
    ensures BFillAt(col, j) == col[q]
    decreases q - j
  {
    if j < q {
      BFillFrom(col, q, j + 1);
    }
  }

  lemma {:induction false} BFillNone(col: seq<Option<real>>, j: nat)
    requires j < |col|
    requires forall m :: j <= m < |col| ==> col[m].None?
    ensures BFillAt(col, j).None?
    decreases |col| - j
  {
    if j < |col| - 1 {
      BFillNone(col, j + 1);
    }
  }

  /** A defined cell keeps its value: its forward and backward fills are itself. */
  lemma SmoothKeepsDefined(col: seq<Option<real>>)
    ensures forall j :: 0 <= j < |col| && col[j].Some? ==> Smooth(col)[j] == col[j]
  {
  }

  /** A column without NaN is left unchanged. */
  lemma SmoothNoNaN(col: seq<Option<real>>)
    requires forall j :: 0 <= j < |col| ==> col[j].Some?
    ensures Smooth(col) == col
  {
    SmoothKeepsDefined(col);
  }

  /** An interior NaN between the defined cells `p` and `q` becomes their mean. */
  lemma SmoothInterior(col: seq<Option<real>>, p: nat, j: nat, q: nat)
    requires p < j < q < |col|
    requires col[p].Some? && col[q].Some?
    requires forall m :: p < m < q ==> col[m].None?
    ensures Smooth(col)[j] == Some((col[p].value + col[q].value) / 2.0)
  {
    FFillFrom(col, p, j);
    BFillFrom(col, q, j);
  }

  /** A NaN with no defined cell before it stays NaN. */
  lemma SmoothLeadingNaN(col: seq<Option<real>>, j: nat)
    requires j < |col|
    requires forall m :: 0 <= m <= j ==> col[m].None?
    ensures Smooth(col)[j].None?
  {
    FFillNone(col, j);
  }

  /** A NaN with no defined cell after it stays NaN. */
  lemma SmoothTrailingNaN(col: seq<Option<real>>, j: nat)
    requires j < |col|
    requires forall m :: j <= m < |col| ==> col[m].None?
    ensures Smooth(col)[j].None?
  {
    BFillNone(col, j);
  }

  lemma {:induction false} FFillDefined(col: seq<Option<real>>, j: nat)
    requires j < |col|
    ensures FFillAt(col, j).Some? <==> exists p :: 0 <= p <= j && col[p].Some?
  {
    if col[j].None? && j > 0 {
      FFillDefined(col, j - 1);
    }
  }

  lemma {:induction false} BFillDefined(col: seq<Option<real>>, j: nat)
    requires j < |col|
    ensures BFillAt(col, j).Some? <==> exists q :: j <= q < |col| && col[q].Some?
    decreases |col| - j
  {
    if col[j].None? && j < |col| - 1 {
      BFillDefined(col, j + 1);
    }
  }

  /** A smoothed cell is defined exactly when the column has a defined cell
      at or before it and one at or after it. */
  lemma SmoothDefinedIff(col: seq<Option<real>>, j: nat)
    requires j < |col|
    ensures Smooth(col)[j].Some? <==>
      (exists p :: 0 <= p <= j && col[p].Some?) && (exists q :: j <= q < |col| && col[q].Some?)
  {
    FFillDefined(col, j);
    BFillDefined(col, j);
  }

  /** Smoothing twice is smoothing once: what it fills stays filled, and what
      it leaves NaN has no defined neighbour on one side even afterwards. */
  lemma SmoothIdempotent(col: seq<Option<real>>)
    ensures Smooth(Smooth(col)) == Smooth(col)
  {
    var s := Smooth(col);
    forall j | 0 <= j < |col|
      ensures Smooth(s)[j] == s[j]
    {
      if s[j].Some? {
        SmoothKeepsDefined(s);
      } else {
        SmoothDefinedIff(col, j);
        if forall p :: 0 <= p <= j ==> col[p].None? {
          forall m | 0 <= m <= j
            ensures s[m].None?
          {
            SmoothDefinedIff(col, m);
          }
          SmoothLeadingNaN(s, j);
        } else {
          forall m | j <= m < |col|
            ensures s[m].None?
          {
            SmoothDefinedIff(col, m);
          }
          SmoothTrailingNaN(s, j);
        }
      }
    }
  }

  // ---------------------------------------------------------------------
  // The meaning of one stored window statistic

  /** Row `r` lies in `[lb, ub)` shifted back by `k` days. */
  predicate InShift(r: Row, lb: int, ub: int, k: nat) {
    lb - DaySteps * k <= r.inTime < ub - DaySteps * k
  }

  /** When no row of the group lies in any of the six shifted copies of the
      window, both statistics are NaN. */
  lemma WindowEmptyIsNaN(num: Numerics, group: seq<Row>, t: int, gap: int, tg: string, i: nat, stat: Stat)
    requires HasColumn(group, tg)
    requires forall k: nat, r :: k <= MaxTries && r in group ==>
      !InShift(r, WindowLower(t, gap, i), WindowUpper(t, gap, i), k)
    ensures WindowStat(num, group, t, gap, tg, i, stat).None?
  {
    var lb, ub := WindowLower(t, gap, i), WindowUpper(t, gap, i);
    forall k: nat | k <= MaxTries
      ensures |Attempt(group, lb, ub, k)| == 0
    {
      var a := Attempt(group, lb, ub, k);
      if |a| > 0 {
        assert a[0] in group && InShift(a[0], lb, ub, k);
      }
    }
  }

  /** When shift `k` is the first one whose copy of the window holds a row,
      the statistic is taken over exactly the rows of that copy, and the mean
      is defined iff one of them has the target defined. */
  lemma WindowUsesFirstNonEmptyShift(num: Numerics, group: seq<Row>, t: int, gap: int, tg: string, i: nat, stat: Stat, k: nat)
    requires HasColumn(group, tg)
    requires k <= MaxTries
    requires exists r :: r in group && InShift(r, WindowLower(t, gap, i), WindowUpper(t, gap, i), k)
    requires forall k': nat, r :: k' < k && r in group ==>
      !InShift(r, WindowLower(t, gap, i), WindowUpper(t, gap, i), k')
    ensures forall r :: r in Attempt(group, WindowLower(t, gap, i), WindowUpper(t, gap, i), k) <==>
      r in group && InShift(r, WindowLower(t, gap, i), WindowUpper(t, gap, i), k)
    ensures HasColumn(Attempt(group, WindowLower(t, gap, i), WindowUpper(t, gap, i), k), tg)
    ensures WindowStat(num, group, t, gap, tg, i, stat)
         == Stored(num, StatOf(num, stat, ColumnValues(Attempt(group, WindowLower(t, gap, i), WindowUpper(t, gap, i), k), tg)))
  {
    var lb, ub := WindowLower(t, gap, i), WindowUpper(t, gap, i);
    var found := FindWithBacktracking(group, lb, ub);
    var r :| r in group && InShift(r, lb, ub, k);
    assert r in Attempt(group, lb, ub, k);
    forall k': nat | k' < k
      ensures |Attempt(group, lb, ub, k')| == 0
    {
      var a := Attempt(group, lb, ub, k');
      if |a| > 0 {
        assert a[0] in group && InShift(a[0], lb, ub, k');
      }
    }
    assert found.Some?;
  }

  // ---------------------------------------------------------------------
  // One group

  /** The least `In Time` of a sequence of rows (0 when there are none). */
  function MinTime(s: seq<Row>): (m: int)
    ensures |s| > 0 ==> exists r :: r in s && r.inTime == m
    ensures forall r :: r in s ==> m <= r.inTime
  {
    if |s| == 0 then 0
    else if |s| == 1 then s[0].inTime
    else
      var m := MinTime(s[1..]);
      assert s == [s[0]] + s[1..];
      if s[0].inTime < m then s[0].inTime else m
  }

  lemma MinTimeSameRows(s: seq<Row>, t: seq<Row>)
    requires forall r :: r in s <==> r in t
    ensures MinTime(s) == MinTime(t)
  {
    if |s| > 0 {
      assert s[0] in t;
    }
  }

  /** The warm-up threshold: rows earlier than the first entry time plus
      `W` windows are not output. */
  function Threshold(group: seq<Row>, W: nat, gap: int): int {
    MinTime(group) + W * gap
  }

  function NotBefore(thr: int): Row -> bool {
    (r: Row) => r.inTime >= thr
  }

  /** The rows at or after time `thr`, in order. */
  function AtOrAfter(rows: seq<Row>, thr: int): seq<Row> {
    Seqs.Filter(rows, NotBefore(thr))
  }

  /** `group[group.index >= min + W * gap]` after sorting by time. */
  function KeptRows(group: seq<Row>, W: nat, gap: int): seq<Row> {
    AtOrAfter(SortByTime(group), Threshold(SortByTime(group), W, gap))
  }

  lemma {:induction false} FilterKeepsSorted(s: seq<Row>, p: Row -> bool)
    requires SortedByTime(s)
    ensures SortedByTime(Seqs.Filter(s, p))
  {
    if |s| > 0 {
      FilterKeepsSorted(s[1..], p);
      var rest := Seqs.Filter(s[1..], p);
      forall k | 0 <= k < |rest|
        ensures s[0].inTime <= rest[k].inTime
      {
        assert rest[k] in s[1..];
      }
    }
  }

  lemma KeptRowsSorted(group: seq<Row>, W: nat, gap: int)
    ensures SortedByTime(KeptRows(group, W, gap))
  {
    AtOrAfterSorted(SortByTime(group), Threshold(SortByTime(group), W, gap));
  }

  lemma AtOrAfterSorted(s: seq<Row>, thr: int)
    requires SortedByTime(s)
    ensures SortedByTime(AtOrAfter(s, thr))
  {
    FilterKeepsSorted(s, NotBefore(thr));
  }

  /** The kept rows are, as a multiset, the rows of the group at or after
      the threshold. */
  lemma KeptRowsCount(group: seq<Row>, W: nat, gap: int)
    ensures multiset(KeptRows(group, W, gap)) == multiset(AtOrAfter(group, Threshold(group, W, gap)))
  {
    var sorted := SortByTime(group);
    var thr := Threshold(group, W, gap);
    SortedMinTime(group);
    assert Threshold(sorted, W, gap) == thr;
    Seqs.FilterPermutation(sorted, group, NotBefore(thr));
  }

  lemma SortedMinTime(group: seq<Row>)
    ensures MinTime(SortByTime(group)) == MinTime(group)
  {
    SortKeepsRows(group);
    MinTimeSameRows(SortByTime(group), group);
  }

  /** The kept rows are in ascending time and are, as a multiset, the rows
      of the group at or after the threshold. */
  lemma KeptRowsSpec(group: seq<Row>, W: nat, gap: int)
    ensures SortedByTime(KeptRows(group, W, gap))
    ensures multiset(KeptRows(group, W, gap)) == multiset(AtOrAfter(group, Threshold(group, W, gap)))
  {
    KeptRowsSorted(group, W, gap);
    KeptRowsCount(group, W, gap);
  }

  /** One derived column before naming: a target and a window. */
  datatype Spec = Spec(target: string, window: nat)

  function Windows(tg: string, w: nat): (s: seq<Spec>)
    ensures |s| == w
    ensures forall sp :: sp in s <==> sp.target == tg && 1 <= sp.window <= w
  {
    if w == 0 then [] else Windows(tg, w - 1) + [Spec(tg, w)]
  }

  /** The derived columns in creation order: each target, windows 1..W. */
  function Specs(targets: seq<string>, W: nat): (s: seq<Spec>)
    ensures |s| == |targets| * W
    ensures forall sp :: sp in s <==> sp.target in targets && 1 <= sp.window <= W
  {
    if |targets| == 0 then []
    else
      assert targets == [targets[0]] + targets[1..];
      assert |targets| * W == W + (|targets| - 1) * W;
      Windows(targets[0], W) + Specs(targets[1..], W)
  }

  predicate NotSpace(c: char) {
    c != ' '
  }

  /** `tg.replace(" ", "")`. */
  function Strip(s: string): (t: string)
    ensures forall c :: c in t <==> c in s && c != ' '
  {
    if |s| == 0 then ""
    else
      assert s == [s[0]] + s[1..];
      (if s[0] == ' ' then "" else [s[0]]) + Strip(s[1..])
  }

  /** Removing the spaces keeps every other character, in order. */
  lemma {:induction false} StripIsFilter(s: string)
    ensures Strip(s) == Seqs.Filter(s, NotSpace)
  {
    if |s| > 0 {
      StripIsFilter(s[1..]);
    }
  }

  lemma StripNoSpace(s: string)
    requires ' ' !in s
    ensures Strip(s) == s
  {
    StripIsFilter(s);
    Seqs.FilterAll(s, NotSpace);
  }

  lemma StripConcat(a: string, b: string)
    ensures Strip(a + b) == Strip(a) + Strip(b)
  {
    StripIsFilter(a);
    StripIsFilter(b);
    StripIsFilter(a + b);
    Seqs.FilterConcat(a, b, NotSpace);
  }

  function KeyOf(stat: Stat, sp: Spec): FeatureKey {
    FeatureKey(stat, Strip(sp.target), sp.window)
  }

  /** `key` names a column of `sp`, as its mean or as its std. */
  predicate Names(key: FeatureKey, sp: Spec) {
    key.target == Strip(sp.target) && key.window == sp.window
  }

  /** The column `w` of the kept rows for statistic `stat`, before smoothing. */
  function RawColumn(num: Numerics, sorted: seq<Row>, kept: seq<Row>, gap: int, sp: Spec, stat: Stat): (col: seq<Option<real>>)
    requires HasColumn(sorted, sp.target)
    ensures |col| == |kept|
  {
    seq(|kept|, j requires 0 <= j < |kept| => WindowStat(num, sorted, kept[j].inTime, gap, sp.target, sp.window, stat))
  }

  /** The keys of the derived columns of `specs`: mean and std of each. */
  function KeySet(specs: seq<Spec>): set<FeatureKey> {
    if |specs| == 0 then {}
    else KeySet(specs[..|specs| - 1]) + {KeyOf(Mean, specs[|specs| - 1]), KeyOf(Std, specs[|specs| - 1])}
  }

  lemma {:induction false} KeySetNames(specs: seq<Spec>, key: FeatureKey)
    ensures key in KeySet(specs) <==> exists sp :: sp in specs && Names(key, sp)
  {
    if |specs| > 0 {
      var sp := specs[|specs| - 1];
      var init := specs[..|specs| - 1];
      assert specs == init + [sp];
      KeySetNames(init, key);
      if key in KeySet(init) {
        var s :| s in init && Names(key, s);
        assert s in specs;
      } else if key == KeyOf(Mean, sp) || key == KeyOf(Std, sp) {
        assert Names(key, sp);
      }
      if exists s :: s in specs && Names(key, s) {
        var s :| s in specs && Names(key, s);
        if s != sp {
          assert s in init;
        } else if key.stat == Mean {
          assert key == KeyOf(Mean, sp);
        } else {
          assert key == KeyOf(Std, sp);
        }
      }
    }
  }

  /** The derived cells of kept row `j`, assigned column by column in
      creation order, so a later column of the same name replaces an earlier. */
  function FeaturesAt(num: Numerics, sorted: seq<Row>, kept: seq<Row>, gap: int, specs: seq<Spec>, j: nat): (m: map<FeatureKey, Option<real>>)
    requires j < |kept|
    requires forall sp :: sp in specs ==> HasColumn(sorted, sp.target)
    ensures m.Keys == KeySet(specs)
  {
    if |specs| == 0 then map[]
    else
      var sp := specs[|specs| - 1];
      var init := specs[..|specs| - 1];
      assert forall s :: s in init ==> s in specs;
      FeaturesAt(num, sorted, kept, gap, init, j)
        [KeyOf(Mean, sp) := Smooth(RawColumn(num, sorted, kept, gap, sp, Mean))[j]]
        [KeyOf(Std, sp) := Smooth(RawColumn(num, sorted, kept, gap, sp, Std))[j]]
  }

  /** The first target, in the given order, that the group lacks. */
  function FirstMissing(group: seq<Row>, targets: seq<string>): (m: Option<string>)
    ensures m.None? <==> forall tg :: tg in targets ==> HasColumn(group, tg)
    ensures m.Some? ==> m.value in targets && !HasColumn(group, m.value)
  {
    if |targets| == 0 then None
    else if !HasColumn(group, targets[0]) then Some(targets[0])
    else
      assert targets == [targets[0]] + targets[1..];
      FirstMissing(group, targets[1..])
  }

  /** The first target, in the given order, that is listed again later. */
  function FirstDuplicate(targets: seq<string>): (d: Option<string>)
    ensures d.None? <==> Seqs.NoDup(targets)
    ensures d.Some? ==> multiset(targets)[d.value] >= 2
  {
    if |targets| == 0 then None
    else
      assert targets == [targets[0]] + targets[1..];
      if targets[0] in targets[1..] then Some(targets[0])
      else FirstDuplicate(targets[1..])
  }

  function OutRows(out: seq<OutRow>): (rows: seq<Row>)
    ensures |rows| == |out|
  {
    if |out| == 0 then [] else [out[0].row] + OutRows(out[1..])
  }

  lemma {:induction false} OutRowsConcat(a: seq<OutRow>, b: seq<OutRow>)
    ensures OutRows(a + b) == OutRows(a) + OutRows(b)
  {
    if |a| > 0 {
      OutRowsConcat(a[1..], b);
      assert (a + b)[0] == a[0];
      assert (a + b)[1..] == a[1..] + b;
    } else {
      assert a + b == b;
    }
  }

  lemma {:induction false} OutRowsIndex(out: seq<OutRow>, j: nat)
    requires j < |out|
    ensures OutRows(out)[j] == out[j].row
  {
    if j > 0 {
      OutRowsIndex(out[1..], j - 1);
    }
  }

  /** The output rows of a group: each kept row with its derived cells. */
  function BuildRows(num: Numerics, sorted: seq<Row>, kept: seq<Row>, gap: int, specs: seq<Spec>): (out: seq<OutRow>)
    requires |kept| > 0 ==> forall sp :: sp in specs ==> HasColumn(sorted, sp.target)
    ensures OutRows(out) == kept
    ensures forall o :: o in out ==> o.features.Keys == KeySet(specs)
    ensures forall j :: 0 <= j < |out| ==> out[j] == OutRow(kept[j], FeaturesAt(num, sorted, kept, gap, specs, j))
  {
    var out := seq(|kept|, j requires 0 <= j < |kept| => OutRow(kept[j], FeaturesAt(num, sorted, kept, gap, specs, j)));
    assert OutRows(out) == kept by {
      forall j | 0 <= j < |out|
        ensures OutRows(out)[j] == kept[j]
      {
        OutRowsIndex(out, j);
      }
    }
    out
  }

  /** The derived columns are named after every target and every window
      1..W, and nothing else. */
  lemma SpecKeys(targets: seq<string>, W: nat, key: FeatureKey)
    ensures key in KeySet(Specs(targets, W)) <==>
      exists tg :: tg in targets && key.target == Strip(tg) && 1 <= key.window <= W
  {
    var specs := Specs(targets, W);
    KeySetNames(specs, key);
    if key in KeySet(specs) {
      var sp :| sp in specs && Names(key, sp);
      assert sp.target in targets;
    }
    forall tg | tg in targets && key.target == Strip(tg) && 1 <= key.window <= W
      ensures key in KeySet(specs)
    {
      assert Spec(tg, key.window) in specs && Names(key, Spec(tg, key.window));
    }
  }

  /** `__process_group`: the kept rows of one group, each extended with the
      smoothed mean and std of every target over every window; KeyError on
      the first missing target once a window is evaluated, and otherwise
      ValueError when a target is listed twice. */
  function ProcessGroup(num: Numerics, group: seq<Row>, W: nat, gap: int, targets: seq<string>): (r: Result<seq<OutRow>, Error>)
    ensures r.Failure? ==> (r.error.MissingColumn? || r.error.DuplicateTarget?)
    ensures r.Failure? ==> W >= 1 && |KeptRows(group, W, gap)| > 0 && r.error.column in targets
    ensures r.Failure? && r.error.MissingColumn? ==> !HasColumn(group, r.error.column)
    ensures r.Failure? && r.error.DuplicateTarget? ==>
      && (forall tg :: tg in targets ==> HasColumn(group, tg))
      && multiset(targets)[r.error.column] >= 2
    ensures r.Success? ==> OutRows(r.value) == KeptRows(group, W, gap)
    ensures r.Success? ==> forall o :: o in r.value ==> o.features.Keys == KeySet(Specs(targets, W))
    ensures r.Success? ==> forall j :: 0 <= j < |r.value| ==>
      && (forall sp :: sp in Specs(targets, W) ==> HasColumn(SortByTime(group), sp.target))
      && r.value[j].features == FeaturesAt(num, SortByTime(group), KeptRows(group, W, gap), gap, Specs(targets, W), j)
  {
    var sorted := SortByTime(group);
    var kept := KeptRows(group, W, gap);
    SortKeepsRows(group);
    var missing := FirstMissing(sorted, targets);
    if |kept| > 0 && W >= 1 && missing.Some? then
      assert !HasColumn(group, missing.value);
      Failure(MissingColumn(missing.value))
    else if |kept| > 0 && W >= 1 && FirstDuplicate(targets).Some? then
      Failure(DuplicateTarget(FirstDuplicate(targets).value))
    else
      Success(BuildRows(num, sorted, kept, gap, Specs(targets, W)))
  }

  /** A group fails exactly when it outputs a row, W is at least one, and a
      target column is missing or a target is listed twice; the missing
      column is reported first. */
  lemma ProcessGroupFailsIff(num: Numerics, group: seq<Row>, W: nat, gap: int, targets: seq<string>)
    ensures ProcessGroup(num, group, W, gap, targets).Failure? <==>
      && W >= 1
      && |AtOrAfter(group, Threshold(group, W, gap))| > 0
      && ((exists tg :: tg in targets && !HasColumn(group, tg)) || !Seqs.NoDup(targets))
    ensures ProcessGroup(num, group, W, gap, targets).Failure? ==>
      (ProcessGroup(num, group, W, gap, targets).error.MissingColumn? <==> exists tg :: tg in targets && !HasColumn(group, tg))
  {
    var sorted := SortByTime(group);
    var kept := KeptRows(group, W, gap);
    var after := AtOrAfter(group, Threshold(group, W, gap));
    var missing := FirstMissing(sorted, targets);
    KeptRowsSpec(group, W, gap);
    assert |kept| == |after| by {
      assert |multiset(kept)| == |multiset(after)|;
    }
    assert ProcessGroup(num, group, W, gap, targets).Failure? <==> |kept| > 0 && W >= 1 && (missing.Some? || !Seqs.NoDup(targets));
    if exists tg :: tg in targets && !HasColumn(group, tg) {
      var tg :| tg in targets && !HasColumn(group, tg);
      SortKeepsColumns(group, tg);
    } else if missing.Some? {
      SortKeepsColumns(group, missing.value);
    }
  }

  /** Sorting a group neither adds nor drops a column. */
  lemma SortKeepsColumns(group: seq<Row>, c: string)
    ensures HasColumn(SortByTime(group), c) <==> HasColumn(group, c)
  {
    SortKeepsRows(group);
  }

  /** The value a kept row gets for the key of target `tg` and window `w`
      is the smoothed raw column of that target and window, when no other
      target has the same name once spaces are removed. */
  lemma {:induction false} FeatureValue(num: Numerics, sorted: seq<Row>, kept: seq<Row>, gap: int, specs: seq<Spec>, j: nat, sp: Spec, stat: Stat)
    requires j < |kept|
    requires forall s :: s in specs ==> HasColumn(sorted, s.target)
    requires sp in specs
    requires forall s :: s in specs && Names(KeyOf(stat, sp), s) ==> s == sp
    ensures KeyOf(stat, sp) in FeaturesAt(num, sorted, kept, gap, specs, j)
    ensures FeaturesAt(num, sorted, kept, gap, specs, j)[KeyOf(stat, sp)]
         == Smooth(RawColumn(num, sorted, kept, gap, sp, stat))[j]
  {
    var last := specs[|specs| - 1];
    var init := specs[..|specs| - 1];
    assert specs == init + [last];
    assert forall s :: s in init ==> s in specs;
    var key := KeyOf(stat, sp);
    var m := FeaturesAt(num, sorted, kept, gap, init, j);
    var meanCell := Smooth(RawColumn(num, sorted, kept, gap, last, Mean))[j];
    var stdCell := Smooth(RawColumn(num, sorted, kept, gap, last, Std))[j];
    var full := FeaturesAt(num, sorted, kept, gap, specs, j);
    assert full == m[KeyOf(Mean, last) := meanCell][KeyOf(Std, last) := stdCell];
    if last != sp {
      assert sp in init;
      assert !Names(key, last);
      assert key != KeyOf(Mean, last) && key != KeyOf(Std, last);
      FeatureValue(num, sorted, kept, gap, init, j, sp, stat);
      UpdatedElsewhere(m, KeyOf(Mean, last), meanCell, KeyOf(Std, last), stdCell, key);
    } else if stat == Mean {
      assert key == KeyOf(Mean, last) != KeyOf(Std, last);
      assert full[key] == meanCell;
    } else {
      assert key == KeyOf(Std, last);
      assert full[key] == stdCell;
    }
  }

  /** Two updates of a map leave a third key's value alone. */
  lemma UpdatedElsewhere<K, V>(m: map<K, V>, a: K, x: V, b: K, y: V, k: K)
    requires k in m && k != a && k != b
    ensures k in m[a := x][b := y] && m[a := x][b := y][k] == m[k]
  {
  }

  // ---------------------------------------------------------------------
  // Grouping and the whole run

  /** Python's ordering of strings: code point by code point, a proper
      prefix first. */
  predicate StringLess(a: string, b: string) {
    if |a| == 0 then |b| > 0
    else if |b| == 0 then false
    else if a[0] != b[0] then a[0] < b[0]
    else StringLess(a[1..], b[1..])
  }

  lemma {:induction false} StringLessTotal(a: string, b: string)
    ensures a == b || StringLess(a, b) || StringLess(b, a)
  {
    if |a| > 0 && |b| > 0 && a[0] == b[0] {
      StringLessTotal(a[1..], b[1..]);
      if a[1..] == b[1..] {
        assert a == [a[0]] + a[1..] && b == [b[0]] + b[1..];
      }
    }
  }

  lemma {:induction false} StringLessIrreflexive(a: string)
    ensures !StringLess(a, a)
  {
    if |a| > 0 {
      StringLessIrreflexive(a[1..]);
    }
  }

  lemma {:induction false} StringLessTransitive(a: string, b: string, c: string)
    requires StringLess(a, b) && StringLess(b, c)
    ensures StringLess(a, c)
  {
    if |a| > 0 && a[0] == b[0] && b[0] == c[0] {
      StringLessTransitive(a[1..], b[1..], c[1..]);
    }
  }

  predicate Ascending(ks: seq<string>) {
    forall i, j :: 0 <= i < j < |ks| ==> StringLess(ks[i], ks[j])
  }

  lemma AscendingNoDup(ks: seq<string>)
    requires Ascending(ks)
    ensures Seqs.NoDup(ks)
  {
    forall i, j | 0 <= i < j < |ks|
      ensures ks[i] != ks[j]
    {
      StringLessIrreflexive(ks[i]);
    }
  }

  function InsertKey(k: string, ks: seq<string>): (t: seq<string>)
    requires Ascending(ks)
    ensures Ascending(t)
    ensures forall x :: x in t <==> x == k || x in ks
  {
    if |ks| == 0 then [k]
    else if k == ks[0] then ks
    else if StringLess(k, ks[0]) then
      assert forall j :: 0 < j < |ks| ==> StringLess(k, ks[j]) by {
        forall j | 0 < j < |ks|
          ensures StringLess(k, ks[j])
        {
          StringLessTransitive(k, ks[0], ks[j]);
        }
      }
      [k] + ks
    else
      StringLessTotal(k, ks[0]);
      assert ks == [ks[0]] + ks[1..];
      var rest := InsertKey(k, ks[1..]);
      assert forall j :: 0 <= j < |rest| ==> StringLess(ks[0], rest[j]) by {
        forall j | 0 <= j < |rest|
          ensures StringLess(ks[0], rest[j])
        {
          assert rest[j] in rest;
        }
      }
      [ks[0]] + rest
  }

  /** `df.groupby(key)`'s group names: every key of the table once, in
      ascending order. */
  function GroupKeys(rows: seq<Row>): (ks: seq<string>)
    ensures Ascending(ks)
    ensures forall x :: x in ks <==> exists r :: r in rows && r.key == x
  {
    if |rows| == 0 then []
    else
      assert rows == [rows[0]] + rows[1..];
      InsertKey(rows[0].key, GroupKeys(rows[1..]))
  }

  function HasKey(k: string): Row -> bool {
    (r: Row) => r.key == k
  }

  function RowsWithKey(rows: seq<Row>, k: string): seq<Row> {
    Seqs.Filter(rows, HasKey(k))
  }

  /** Processes the groups of `ks` in order and concatenates their outputs;
      the first failing group's error is the run's error. */
  function ProcessAll(num: Numerics, ks: seq<string>, rows: seq<Row>, W: nat, gap: int, targets: seq<string>): Result<seq<OutRow>, Error> {
    if |ks| == 0 then Success([])
    else
      var first :- ProcessGroup(num, RowsWithKey(rows, ks[0]), W, gap, targets);
      var rest :- ProcessAll(num, ks[1..], rows, W, gap, targets);
      Success(first + rest)
  }

  /** The output rows whose date is after the first day. */
  function AfterFirstDay(o: OutRow): bool {
    o.row.date > 0
  }

  function LaterDays(out: seq<OutRow>): seq<OutRow> {
    Seqs.Filter(out, AfterFirstDay)
  }

  /** `__featureEngineering`: group, process every group, concatenate
      (which fails when there is no group), then optionally keep `Date > 0`. */
  function Run(num: Numerics, rows: seq<Row>, W: nat, gap: int, targets: seq<string>, ignoreFirstDay: bool): Result<seq<OutRow>, Error> {
    var ks := GroupKeys(rows);
    if |ks| == 0 then Failure(NothingToConcatenate)
    else
      var out :- ProcessAll(num, ks, rows, W, gap, targets);
      Success(if ignoreFirstDay then LaterDays(out) else out)
  }


  /** Whether an input row appears in the output: it is at or after its own
      group's warm-up threshold and, when the first day is ignored, dated
      after day 0. */
  function Survivor(rows: seq<Row>, W: nat, gap: int, ignoreFirstDay: bool): Row -> bool {
    (r: Row) => r.inTime >= Threshold(RowsWithKey(rows, r.key), W, gap) && (ignoreFirstDay ==> r.date > 0)
  }

  function RowAfterFirstDay(r: Row): bool {
    r.date > 0
  }

  lemma {:induction false} OutRowsLaterDays(out: seq<OutRow>)
    ensures OutRows(LaterDays(out)) == Seqs.Filter(OutRows(out), RowAfterFirstDay)
  {
    if |out| > 0 {
      OutRowsLaterDays(out[1..]);
      var h := if AfterFirstDay(out[0]) then [out[0]] else [];
      assert LaterDays(out) == h + LaterDays(out[1..]);
      OutRowsConcat(h, LaterDays(out[1..]));
    }
  }

  lemma NoDupTail(ks: seq<string>)
    requires Seqs.NoDup(ks)
    requires |ks| > 0
    ensures Seqs.NoDup(ks[1..])
    ensures ks[0] !in ks[1..]
  {
    forall i | 0 <= i < |ks[1..]|
      ensures ks[1..][i] != ks[0]
    {
      assert ks[1..][i] == ks[i + 1];
    }
  }

  lemma ProcessAllCons(num: Numerics, ks: seq<string>, rows: seq<Row>, W: nat, gap: int, targets: seq<string>)
    requires |ks| > 0
    requires ProcessAll(num, ks, rows, W, gap, targets).Success?
    ensures ProcessGroup(num, RowsWithKey(rows, ks[0]), W, gap, targets).Success?
    ensures ProcessAll(num, ks[1..], rows, W, gap, targets).Success?
    ensures ProcessAll(num, ks, rows, W, gap, targets).value
         == ProcessGroup(num, RowsWithKey(rows, ks[0]), W, gap, targets).value
          + ProcessAll(num, ks[1..], rows, W, gap, targets).value
  {
  }

  /** The groups' outputs together hold each row of a listed key that
      passes its group's threshold, as often as the input does. */
  lemma {:induction false} ProcessAllRows(num: Numerics, ks: seq<string>, rows: seq<Row>, W: nat, gap: int, targets: seq<string>, x: Row)
    requires Seqs.NoDup(ks)
    requires ProcessAll(num, ks, rows, W, gap, targets).Success?
    ensures multiset(OutRows(ProcessAll(num, ks, rows, W, gap, targets).value))[x]
         == if x.key in ks && x.inTime >= Threshold(RowsWithKey(rows, x.key), W, gap) then multiset(rows)[x] else 0
  {
    if |ks| > 0 {
      var group := RowsWithKey(rows, ks[0]);
      var first := ProcessGroup(num, group, W, gap, targets).value;
      var rest := ProcessAll(num, ks[1..], rows, W, gap, targets).value;
      NoDupTail(ks);
      ProcessAllCons(num, ks, rows, W, gap, targets);
      ProcessAllRows(num, ks[1..], rows, W, gap, targets, x);
      OutRowsConcat(first, rest);
      KeptRowsCount(group, W, gap);
      Seqs.FilterCount(group, NotBefore(Threshold(group, W, gap)), x);
      Seqs.FilterCount(rows, HasKey(ks[0]), x);
      assert x.key in ks <==> x.key == ks[0] || x.key in ks[1..];
    }
  }

  lemma RunRowCount(num: Numerics, rows: seq<Row>, W: nat, gap: int, targets: seq<string>, ignoreFirstDay: bool, x: Row)
    requires Run(num, rows, W, gap, targets, ignoreFirstDay).Success?
    ensures multiset(OutRows(Run(num, rows, W, gap, targets, ignoreFirstDay).value))[x]
         == multiset(Seqs.Filter(rows, Survivor(rows, W, gap, ignoreFirstDay)))[x]
  {
    var ks := GroupKeys(rows);
    AscendingNoDup(ks);
    RunValue(num, rows, W, gap, targets, ignoreFirstDay);
    var out := ProcessAll(num, ks, rows, W, gap, targets).value;
    ProcessAllRows(num, ks, rows, W, gap, targets, x);
    Seqs.FilterCount(rows, Survivor(rows, W, gap, ignoreFirstDay), x);
    if x in rows {
      assert x.key in ks;
    }
    if ignoreFirstDay {
      OutRowsLaterDays(out);
      Seqs.FilterCount(OutRows(out), RowAfterFirstDay, x);
    }
  }

  lemma RunValue(num: Numerics, rows: seq<Row>, W: nat, gap: int, targets: seq<string>, ignoreFirstDay: bool)
    requires Run(num, rows, W, gap, targets, ignoreFirstDay).Success?
    ensures ProcessAll(num, GroupKeys(rows), rows, W, gap, targets).Success?
    ensures var out := ProcessAll(num, GroupKeys(rows), rows, W, gap, targets).value;
      Run(num, rows, W, gap, targets, ignoreFirstDay).value == if ignoreFirstDay then LaterDays(out) else out
  {
  }

  /** Row conservation: the output rows are, as a multiset, exactly the
      input rows that pass their group's warm-up threshold and, when the
      first day is ignored, have `Date > 0`; no row is duplicated. */
  lemma RunRowConservation(num: Numerics, rows: seq<Row>, W: nat, gap: int, targets: seq<string>, ignoreFirstDay: bool)
    requires Run(num, rows, W, gap, targets, ignoreFirstDay).Success?
    ensures multiset(OutRows(Run(num, rows, W, gap, targets, ignoreFirstDay).value))
         == multiset(Seqs.Filter(rows, Survivor(rows, W, gap, ignoreFirstDay)))
  {
    var out := OutRows(Run(num, rows, W, gap, targets, ignoreFirstDay).value);
    var survivors := Seqs.Filter(rows, Survivor(rows, W, gap, ignoreFirstDay));
    forall x
      ensures multiset(out)[x] == multiset(survivors)[x]
    {
      RunRowCount(num, rows, W, gap, targets, ignoreFirstDay, x);
    }
    Seqs.MultisetExt(out, survivors);
  }

  function OutHasKey(k: string): OutRow -> bool {
    (o: OutRow) => o.row.key == k
  }

  /** The output rows of group `k`. */
  function OutWithKey(out: seq<OutRow>, k: string): seq<OutRow> {
    Seqs.Filter(out, OutHasKey(k))
  }

  lemma {:induction false} OutWithKeyOfOneKey(out: seq<OutRow>, k0: string, k: string)
    requires forall o :: o in out ==> o.row.key == k0
    ensures OutWithKey(out, k) == if k == k0 then out else []
  {
    if |out| > 0 {
      OutWithKeyOfOneKey(out[1..], k0, k);
      assert out == [out[0]] + out[1..];
    }
  }

  /** Every output row of a group comes from that group. */
  lemma GroupOutputFromGroup(num: Numerics, group: seq<Row>, W: nat, gap: int, targets: seq<string>)
    requires ProcessGroup(num, group, W, gap, targets).Success?
    ensures forall o :: o in ProcessGroup(num, group, W, gap, targets).value ==> o.row in group
  {
    var out := ProcessGroup(num, group, W, gap, targets).value;
    SortKeepsRows(group);
    forall o | o in out
      ensures o.row in group
    {
      var j :| 0 <= j < |out| && out[j] == o;
      OutRowsIndex(out, j);
      assert o.row in KeptRows(group, W, gap);
    }
  }

  lemma {:induction false} ProcessAllWithKey(num: Numerics, ks: seq<string>, rows: seq<Row>, W: nat, gap: int, targets: seq<string>, k: string)
    requires Seqs.NoDup(ks)
    requires ProcessAll(num, ks, rows, W, gap, targets).Success?
    ensures k in ks ==> ProcessGroup(num, RowsWithKey(rows, k), W, gap, targets).Success?
    ensures OutWithKey(ProcessAll(num, ks, rows, W, gap, targets).value, k)
         == if k in ks then ProcessGroup(num, RowsWithKey(rows, k), W, gap, targets).value else []
  {
    if |ks| > 0 {
      var group := RowsWithKey(rows, ks[0]);
      var first := ProcessGroup(num, group, W, gap, targets).value;
      var rest := ProcessAll(num, ks[1..], rows, W, gap, targets).value;
      NoDupTail(ks);
      ProcessAllCons(num, ks, rows, W, gap, targets);
      ProcessAllWithKey(num, ks[1..], rows, W, gap, targets, k);
      Seqs.FilterConcat(first, rest, OutHasKey(k));
      GroupOutputFromGroup(num, group, W, gap, targets);
      OutWithKeyOfOneKey(first, ks[0], k);
      assert k in ks <==> k == ks[0] || k in ks[1..];
    }
  }

  /** A key the table does not have is an empty group, which outputs nothing. */
  lemma AbsentKeyGroup(num: Numerics, rows: seq<Row>, W: nat, gap: int, targets: seq<string>, k: string)
    requires k !in GroupKeys(rows)
    ensures ProcessGroup(num, RowsWithKey(rows, k), W, gap, targets) == Success([])
  {
    assert forall r :: r in rows ==> !HasKey(k)(r);
    Seqs.FilterNone(rows, HasKey(k));
    assert KeptRows([], W, gap) == [];
  }

  /** No leakage between groups: the output rows of key `k` are exactly what
      processing the rows of key `k` alone produces (after the same
      first-day filter). */
  lemma NoCrossGroupLeakage(num: Numerics, rows: seq<Row>, W: nat, gap: int, targets: seq<string>, ignoreFirstDay: bool, k: string)
    requires Run(num, rows, W, gap, targets, ignoreFirstDay).Success?
    ensures ProcessGroup(num, RowsWithKey(rows, k), W, gap, targets).Success?
    ensures OutWithKey(Run(num, rows, W, gap, targets, ignoreFirstDay).value, k)
         == var alone := ProcessGroup(num, RowsWithKey(rows, k), W, gap, targets).value;
            if ignoreFirstDay then LaterDays(alone) else alone
  {
    var ks := GroupKeys(rows);
    AscendingNoDup(ks);
    var out := ProcessAll(num, ks, rows, W, gap, targets).value;
    ProcessAllWithKey(num, ks, rows, W, gap, targets, k);
    if k !in ks {
      AbsentKeyGroup(num, rows, W, gap, targets, k);
    }
    Seqs.FilterCommute(out, OutHasKey(k), AfterFirstDay);
  }

  /** Whether processing the rows of key `k` alone fails. */
  predicate GroupFails(num: Numerics, rows: seq<Row>, k: string, W: nat, gap: int, targets: seq<string>) {
    ProcessGroup(num, RowsWithKey(rows, k), W, gap, targets).Failure?
  }

  lemma {:induction false} GroupFailureSpreads(num: Numerics, ks: seq<string>, rows: seq<Row>, W: nat, gap: int, targets: seq<string>, k: string)
    requires k in ks && GroupFails(num, rows, k, W, gap, targets)
    ensures ProcessAll(num, ks, rows, W, gap, targets).Failure?
  {
    if ks[0] != k && !GroupFails(num, rows, ks[0], W, gap, targets) {
      GroupFailureSpreads(num, ks[1..], rows, W, gap, targets, k);
    }
  }

  lemma {:induction false} FailingGroup(num: Numerics, ks: seq<string>, rows: seq<Row>, W: nat, gap: int, targets: seq<string>) returns (k: string)
    requires ProcessAll(num, ks, rows, W, gap, targets).Failure?
    ensures k in ks && GroupFails(num, rows, k, W, gap, targets)
  {
    if GroupFails(num, rows, ks[0], W, gap, targets) {
      k := ks[0];
    } else {
      k := FailingGroup(num, ks[1..], rows, W, gap, targets);
    }
  }

  lemma ProcessAllFails(num: Numerics, ks: seq<string>, rows: seq<Row>, W: nat, gap: int, targets: seq<string>)
    ensures ProcessAll(num, ks, rows, W, gap, targets).Failure? <==>
      exists k :: k in ks && GroupFails(num, rows, k, W, gap, targets)
  {
    if ProcessAll(num, ks, rows, W, gap, targets).Failure? {
      var k := FailingGroup(num, ks, rows, W, gap, targets);
    }
    forall k | k in ks && GroupFails(num, rows, k, W, gap, targets)
      ensures ProcessAll(num, ks, rows, W, gap, targets).Failure?
    {
      GroupFailureSpreads(num, ks, rows, W, gap, targets, k);
    }
  }

  /** The run fails exactly when the table is empty (nothing to concatenate)
      or some group fails. */
  lemma RunFailsIff(num: Numerics, rows: seq<Row>, W: nat, gap: int, targets: seq<string>, ignoreFirstDay: bool)
    ensures Run(num, rows, W, gap, targets, ignoreFirstDay).Failure? <==>
      || |rows| == 0
      || exists k :: k in GroupKeys(rows) && GroupFails(num, rows, k, W, gap, targets)
  {
    ProcessAllFails(num, GroupKeys(rows), rows, W, gap, targets);
    if |rows| > 0 {
      assert rows[0].key in GroupKeys(rows);
    }
  }
}
