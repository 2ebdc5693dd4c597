/** How the three learning drivers choose, for each date of the date list,
    the rows to train on and the rows or dates to test on. The training
    data, the models and the splits into training and validation data are
    left out; rows are any values with a `Date`.

    The drivers scan `days_set`, a list of `(first, last)` day pairs, for
    the test period. The CPU driver's scan has no `break`, so it keeps the
    last matching pair; the GPU driver breaks at the first; the multi-GPU
    driver breaks at the first and falls back to the end of the lists
    when the result is falsy (missing, or 0). A Python loop variable
    survives the loop, so when nothing matches the CPU and GPU drivers
    reuse the test date of the previous date (`prev`), or fail when there
    is none. */
module DateSelection {
  import opened Wrappers
  import Seqs
  import Arith

  /** The test strategy: the last day of the period, a sample of the
      whole period, or the next day. */
  datatype TestNote = LastOfPeriod | SampleOfPeriod | NextDay

  /** The training window: every earlier date, or only the last `k`. */
  datatype TrainRule = NoLimit | Limit(k: int)

  datatype SelectError = Unbound | EmptyDaysSet

  type Period = (int, int)

  // ---------------------------------------------------------------------
  // Which dates are used

  /** The last date of the list is not trained on when the test lies after
      it (last of period, next day); every copy of that date is skipped. */
  predicate SkipsDate(note: TestNote, dateLst: seq<int>, date: int) {
    (note == LastOfPeriod || note == NextDay) && |dateLst| > 0 && date == dateLst[|dateLst| - 1]
  }

  function NotSkipped(note: TestNote, dateLst: seq<int>): int -> bool {
    (d: int) => !SkipsDate(note, dateLst, d)
  }

  /** The dates of the list the driver trains and tests for, in order. */
  function ProcessedDates(note: TestNote, dateLst: seq<int>): (ds: seq<int>)
    ensures note == SampleOfPeriod ==> ds == dateLst
    ensures note != SampleOfPeriod && |dateLst| > 0 ==>
      && dateLst[|dateLst| - 1] !in ds
      && forall d :: d in dateLst && d != dateLst[|dateLst| - 1] ==> d in ds
    ensures forall d :: d in ds ==> d in dateLst
  {
    if note == SampleOfPeriod then
      Seqs.FilterAll(dateLst, NotSkipped(note, dateLst));
      Seqs.Filter(dateLst, NotSkipped(note, dateLst))
    else Seqs.Filter(dateLst, NotSkipped(note, dateLst))
  }

  predicate InTrainWindow(rule: TrainRule, date: int, d: int) {
    match rule
    case NoLimit => d <= date
    case Limit(k) => date - k + 1 <= d <= date
  }

  /** The rows trained (and validated) on for `date`. */
  function TrainRows<T(==,!new)>(rows: seq<T>, dateOf: T -> int, rule: TrainRule, date: int): (r: seq<T>)
    ensures forall x :: x in r <==> x in rows && InTrainWindow(rule, date, dateOf(x))
    ensures forall x :: x in r ==> dateOf(x) <= date
    ensures rule.Limit? ==> forall x :: x in r ==> date - rule.k < dateOf(x)
  {
    Seqs.Filter(rows, x => InTrainWindow(rule, date, dateOf(x)))
  }

  /** The rows tested on for the next-day strategy. */
  function NextDayRows<T(==,!new)>(rows: seq<T>, dateOf: T -> int, date: int): (r: seq<T>)
    ensures forall x :: x in r <==> x in rows && dateOf(x) == date + 1
  {
    Seqs.Filter(rows, x => dateOf(x) == date + 1)
  }

  /** The rows tested on for a test period `[first, last]`. */
  function PeriodRows<T(==,!new)>(rows: seq<T>, dateOf: T -> int, period: Period): (r: seq<T>)
    ensures forall x :: x in r <==> x in rows && period.0 <= dateOf(x) <= period.1
  {
    Seqs.Filter(rows, x => period.0 <= dateOf(x) <= period.1)
  }

  /** Next-day testing never tests on a trained date. */
  lemma NextDayDisjoint<T(!new)>(rows: seq<T>, dateOf: T -> int, rule: TrainRule, date: int)
    ensures forall x :: x in NextDayRows(rows, dateOf, date) ==> x !in TrainRows(rows, dateOf, rule, date)
  {
  }

  // ---------------------------------------------------------------------
  // The scans of days_set

  /** A period qualifies when `date` lies before its last day, with
      `slack` 0 (last of period: `date < last`) or 1 (sample of period:
      `date < last + 1`). */
  predicate Qualifies(p: Period, date: int, slack: int) {
    date < p.1 + slack
  }

  /** The first qualifying period. */
  function FirstMatch(daysSet: seq<Period>, date: int, slack: int): (r: Option<nat>)
    ensures r.Some? ==> (r.value < |daysSet| && Qualifies(daysSet[r.value], date, slack)
      && forall j :: 0 <= j < r.value ==> !Qualifies(daysSet[j], date, slack))
    ensures r.None? ==> forall j :: 0 <= j < |daysSet| ==> !Qualifies(daysSet[j], date, slack)
    decreases |daysSet|
  {
    if |daysSet| == 0 then None
    else if Qualifies(daysSet[0], date, slack) then Some(0)
    else
      var rest := FirstMatch(daysSet[1..], date, slack);
      if rest.Some? then Some(rest.value + 1) else None
  }

  /** The last qualifying period. */
  function LastMatch(daysSet: seq<Period>, date: int, slack: int): (r: Option<nat>)
    ensures r.Some? ==> (r.value < |daysSet| && Qualifies(daysSet[r.value], date, slack)
      && forall j :: r.value < j < |daysSet| ==> !Qualifies(daysSet[j], date, slack))
    ensures r.None? ==> forall j :: 0 <= j < |daysSet| ==> !Qualifies(daysSet[j], date, slack)
    decreases |daysSet|
  {
    if |daysSet| == 0 then None
    else if Qualifies(daysSet[|daysSet| - 1], date, slack) then Some(|daysSet| - 1)
    else LastMatch(daysSet[..|daysSet| - 1], date, slack)
  }

  /** The CPU driver's test date for the last-of-period strategy: the scan
      overwrites the date at every qualifying period. */
  method TestDateCPU(daysSet: seq<Period>, date: int, prev: Option<int>) returns (r: Result<int, SelectError>)
    ensures var m := LastMatch(daysSet, date, 0);
      && (m.Some? ==> r == Success(daysSet[m.value].1))
      && (m.None? ==> r == if prev.Some? then Success(prev.value) else Failure(Unbound))
  {
    var testDate := prev;
    var found: Option<nat> := None;
    var i := 0;
    while i < |daysSet|
      invariant 0 <= i <= |daysSet|
      invariant found == LastMatch(daysSet[..i], date, 0)
      invariant testDate == if found.Some? then Some(daysSet[found.value].1) else prev
    {
      assert daysSet[..i + 1][..i] == daysSet[..i];
      if date < daysSet[i].1 {
        testDate, found := Some(daysSet[i].1), Some(i);
      }
      i := i + 1;
    }
    assert daysSet[..i] == daysSet;
    r := if testDate.Some? then Success(testDate.value) else Failure(Unbound);
  }

  /** The GPU driver's test date: the scan stops at the first qualifying
      period. */
  method TestDateGPU(daysSet: seq<Period>, date: int, prev: Option<int>) returns (r: Result<int, SelectError>)
    ensures var m := FirstMatch(daysSet, date, 0);
      && (m.Some? ==> r == Success(daysSet[m.value].1))
      && (m.None? ==> r == if prev.Some? then Success(prev.value) else Failure(Unbound))
  {
    var testDate := prev;
    var i := 0;
    while i < |daysSet|
      invariant 0 <= i <= |daysSet|
      invariant forall j :: 0 <= j < i ==> !Qualifies(daysSet[j], date, 0)
      invariant testDate == prev
    {
      if date < daysSet[i].1 {
        testDate := Some(daysSet[i].1);
        FirstMatchAt(daysSet, date, 0, i);
        break;
      }
      i := i + 1;
    }
    if i == |daysSet| {
      FirstMatchNone(daysSet, date, 0);
    }
    r := if testDate.Some? then Success(testDate.value) else Failure(Unbound);
  }

  /** The multi-GPU driver's test date: the first qualifying period's last
      day, or the last date of the list when that is missing or 0. */
  method TestDateMulGPU(daysSet: seq<Period>, date: int, dateLst: seq<int>) returns (r: int)
    requires |dateLst| > 0
    ensures var m := FirstMatch(daysSet, date, 0);
      && (m.Some? && daysSet[m.value].1 != 0 ==> r == daysSet[m.value].1)
      && (m.None? || daysSet[m.value].1 == 0 ==> r == dateLst[|dateLst| - 1])
  {
    var testDate: Option<int> := None;
    var i := 0;
    while i < |daysSet|
      invariant 0 <= i <= |daysSet|
      invariant forall j :: 0 <= j < i ==> !Qualifies(daysSet[j], date, 0)
      invariant testDate == None
    {
      if date < daysSet[i].1 {
        testDate := Some(daysSet[i].1);
        FirstMatchAt(daysSet, date, 0, i);
        break;
      }
      i := i + 1;
    }
    if i == |daysSet| {
      FirstMatchNone(daysSet, date, 0);
    }
    r := if testDate.None? || testDate.value == 0 then dateLst[|dateLst| - 1] else testDate.value;
  }

  lemma {:induction false} FirstMatchAt(daysSet: seq<Period>, date: int, slack: int, i: nat)
    requires i < |daysSet| && Qualifies(daysSet[i], date, slack)
    requires forall j :: 0 <= j < i ==> !Qualifies(daysSet[j], date, slack)
    ensures FirstMatch(daysSet, date, slack) == Some(i)
  {
  }

  lemma FirstMatchNone(daysSet: seq<Period>, date: int, slack: int)
    requires forall j :: 0 <= j < |daysSet| ==> !Qualifies(daysSet[j], date, slack)
    ensures FirstMatch(daysSet, date, slack) == None
  {
  }

  /** The CPU driver's test period for the sample-of-period strategy. */
  method TestRangeCPU(daysSet: seq<Period>, date: int, prev: Option<Period>) returns (r: Result<Period, SelectError>)
    ensures var m := LastMatch(daysSet, date, 1);
      && (m.Some? ==> r == Success(daysSet[m.value]))
      && (m.None? ==> r == if prev.Some? then Success(prev.value) else Failure(Unbound))
  {
    var range := prev;
    var found: Option<nat> := None;
    var i := 0;
    while i < |daysSet|
      invariant 0 <= i <= |daysSet|
      invariant found == LastMatch(daysSet[..i], date, 1)
      invariant range == if found.Some? then Some(daysSet[found.value]) else prev
    {
      assert daysSet[..i + 1][..i] == daysSet[..i];
      if date < daysSet[i].1 + 1 {
        range, found := Some(daysSet[i]), Some(i);
      }
      i := i + 1;
    }
    assert daysSet[..i] == daysSet;
    r := if range.Some? then Success(range.value) else Failure(Unbound);
  }

  /** The GPU driver's test period: the first qualifying one. */
  function TestRangeGPU(daysSet: seq<Period>, date: int, prev: Option<Period>): (r: Result<Period, SelectError>)
    ensures var m := FirstMatch(daysSet, date, 1);
      && (m.Some? ==> r == Success(daysSet[m.value]))
      && (m.None? ==> r == if prev.Some? then Success(prev.value) else Failure(Unbound))
  {
    match FirstMatch(daysSet, date, 1)
    case Some(i) => Success(daysSet[i])
    case None => if prev.Some? then Success(prev.value) else Failure(Unbound)
  }

  /** The multi-GPU driver's test period as written: the first qualifying
      period, replaced by the last period of the list when either end is
      falsy, i.e. missing or 0 (an empty list then fails). */
  function TestRangeMulGPU(daysSet: seq<Period>, date: int): (r: Result<Period, SelectError>)
    ensures r.Failure? <==> |daysSet| == 0
    ensures var m := FirstMatch(daysSet, date, 1);
      && (m.Some? && daysSet[m.value].0 != 0 && daysSet[m.value].1 != 0 ==> r == Success(daysSet[m.value]))
      && (|daysSet| > 0 && (m.None? || daysSet[m.value].0 == 0 || daysSet[m.value].1 == 0)
          ==> r == Success(daysSet[|daysSet| - 1]))
  {
    var m := FirstMatch(daysSet, date, 1);
    if m.Some? && daysSet[m.value].0 != 0 && daysSet[m.value].1 != 0 then Success(daysSet[m.value])
    else if |daysSet| == 0 then Failure(EmptyDaysSet)
    else Success(daysSet[|daysSet| - 1])
  }

  /** The multi-GPU test period with the fallback taken only when no
      period qualifies. */
  function TestRangeMulGPUIntended(daysSet: seq<Period>, date: int): (r: Result<Period, SelectError>)
    ensures r.Failure? <==> |daysSet| == 0
    ensures var m := FirstMatch(daysSet, date, 1);
      && (m.Some? ==> r == Success(daysSet[m.value]))
      && (m.None? && |daysSet| > 0 ==> r == Success(daysSet[|daysSet| - 1]))
  {
    match FirstMatch(daysSet, date, 1)
    case Some(i) => Success(daysSet[i])
    case None => if |daysSet| == 0 then Failure(EmptyDaysSet) else Success(daysSet[|daysSet| - 1])
  }

  /** Whenever some period qualifies, the intended multi-GPU period is the
      GPU driver's, the first period that ends on or after `date`. */
  lemma MulGPUIntendedAgrees(daysSet: seq<Period>, date: int, prev: Option<Period>)
    requires FirstMatch(daysSet, date, 1).Some?
    ensures TestRangeMulGPUIntended(daysSet, date) == TestRangeGPU(daysSet, date, prev)
    ensures TestRangeMulGPUIntended(daysSet, date).Success?
      && date <= TestRangeMulGPUIntended(daysSet, date).value.1
    ensures TestRangeMulGPU(daysSet, date) != TestRangeMulGPUIntended(daysSet, date) ==>
      var i := FirstMatch(daysSet, date, 1).value; daysSet[i].0 == 0 || daysSet[i].1 == 0
  {
  }

  // ---------------------------------------------------------------------
  // Consequences for ordered periods

  /** Periods listed in order of their last day. */
  predicate SortedEnds(daysSet: seq<Period>) {
    forall i, j :: 0 <= i < j < |daysSet| ==> daysSet[i].1 <= daysSet[j].1
  }

  /** With ordered periods, the scan without `break` always ends on the
      last period once any period qualifies. */
  lemma LastMatchIsLastPeriod(daysSet: seq<Period>, date: int, slack: int)
    requires SortedEnds(daysSet)
    requires FirstMatch(daysSet, date, slack).Some?
    ensures LastMatch(daysSet, date, slack) == Some(|daysSet| - 1)
  {
    var f := FirstMatch(daysSet, date, slack).value;
    assert Qualifies(daysSet[|daysSet| - 1], date, slack) by {
      if f < |daysSet| - 1 {
        assert daysSet[f].1 <= daysSet[|daysSet| - 1].1;
      }
    }
  }

  /** With ordered periods, the first qualifying period is the one whose
      last day comes soonest after `date`. */
  lemma FirstMatchIsNearest(daysSet: seq<Period>, date: int, slack: int)
    requires SortedEnds(daysSet)
    requires FirstMatch(daysSet, date, slack).Some?
    ensures forall j :: 0 <= j < |daysSet| && Qualifies(daysSet[j], date, slack) ==> daysSet[FirstMatch(daysSet, date, slack).value].1 <= daysSet[j].1
  {
  }

  /** The periods of the drivers' own documentation example: thirty days,
      lights changed on days 11 and 21. */
  const ExamplePeriods: seq<Period> := [(0, 9), (10, 19), (20, 29)]

  /** On that example, for date 3 the CPU driver tests on day 29 (the last
      period) where the GPU driver tests on day 9 (the end of date 3's own
      period); and the multi-GPU driver samples days 20-29 instead of 0-9
      because the period's first day, 0, is falsy. */
  lemma ExampleSelections()
    ensures LastMatch(ExamplePeriods, 3, 0) == Some(2) && ExamplePeriods[2].1 == 29
    ensures FirstMatch(ExamplePeriods, 3, 0) == Some(0) && ExamplePeriods[0].1 == 9
    ensures TestRangeGPU(ExamplePeriods, 3, None) == Success((0, 9))
    ensures TestRangeMulGPU(ExamplePeriods, 3) == Success((20, 29))
    ensures TestRangeMulGPUIntended(ExamplePeriods, 3) == Success((0, 9))
  {
    FirstMatchAt(ExamplePeriods, 3, 0, 0);
    FirstMatchAt(ExamplePeriods, 3, 1, 0);
    LastMatchIsLastPeriod(ExamplePeriods, 3, 0);
  }

  // ---------------------------------------------------------------------
  // Early stopping

  /** `max(1, int(n_estimators * 0.1))`: a tenth of the estimators,
      truncated, and never below 1. */
  function EarlyStoppingRounds(nEstimators: int): (esr: int)
    ensures esr >= 1
    ensures nEstimators >= 20 ==> esr * 10 <= nEstimators < esr * 10 + 10
    ensures nEstimators < 20 ==> esr == 1
  {
    var tenth := Arith.TruncDiv(nEstimators, 10);
    if tenth > 1 then tenth else 1
  }
}
