/** A cell with a traffic light. The light counts simulation steps round a
    cycle of `interval` steps and shows green while the count lies in
    `(start, end]`; a vehicle may enter only on green. The light otherwise
    behaves as the ordinary cell it extends (loading and unloading do not
    look at the phase). */
module TrafficLight {
  import opened Wrappers
  import CommonCell

  datatype Light = Light(cell: CommonCell.Cell, phase: bool, start: int, end: int, interval: int, count: int)

  datatype LightError = InvalidInterval | InvalidPhaseInterval | CountOutOfRange

  /** The parameters a light may be built with. */
  predicate ValidPhase(interval: int, start: int, end: int) {
    interval > 0 && 0 <= start < end <= interval
  }

  /** What every light keeps true between calls. */
  predicate WellFormed(l: Light) {
    ValidPhase(l.interval, l.start, l.end) && 0 <= l.count <= l.interval
  }

  /** Builds a light; it starts red at count 0. */
  function NewTrafficLightCell(id: int, speed: int, capacity: real, interval: int, start: int, end: int): (r: Result<Light, LightError>)
    ensures r.Success? <==> ValidPhase(interval, start, end)
    ensures r.Success? ==> WellFormed(r.value) && r.value.count == 0 && !r.value.phase
    ensures r.Success? ==> r.value.cell == CommonCell.NewCommonCell(id, speed, capacity)
    ensures r.Failure? && interval <= 0 ==> r.error == InvalidInterval
  {
    if interval <= 0 then Failure(InvalidInterval)
    else if start < 0 || end <= start || end > interval then Failure(InvalidPhaseInterval)
    else Success(Light(CommonCell.NewCommonCell(id, speed, capacity), false, start, end, interval, 0))
  }

  /** Turns an ordinary cell into a light: same ID, speed limit and
      capacity, but a fresh cell that holds no vehicle. */
  function ChangeToTrafficLightCell(c: CommonCell.Cell, interval: int, start: int, end: int): (r: Result<Light, LightError>)
    ensures r.Success? <==> ValidPhase(interval, start, end)
    ensures r.Success? ==> r.value.cell.id == c.id && r.value.cell.speedLimit == c.speedLimit && r.value.cell.capacity == c.capacity
    ensures r.Success? ==> r.value.cell.occupation == 0.0 && r.value.cell.container == {} && r.value.cell.buffer == []
  {
    NewTrafficLightCell(c.id, c.speedLimit, c.capacity, interval, start, end)
  }

  /** Green exactly for counts in `(start, end]`. */
  predicate GreenAt(l: Light, n: int) {
    l.start < n <= l.end
  }

  /** The count after one step. */
  function NextCount(n: int, interval: int): int {
    if n + 1 > interval then 1 else n + 1
  }

  /** One simulation step of the light. */
  function Cycle(l: Light): (r: Light)
    ensures r == l.(count := r.count, phase := r.phase)
    ensures WellFormed(l) ==> WellFormed(r) && 1 <= r.count <= l.interval
    ensures r.phase <==> GreenAt(l, r.count)
  {
    var n := NextCount(l.count, l.interval);
    l.(count := n, phase := l.start < n && n <= l.end)
  }

  /** A vehicle may enter on green when it fits. */
  predicate Loadable(l: Light, o: CommonCell.Occupant) {
    l.phase && CommonCell.Loadable(l.cell, o)
  }

  function SetCount(l: Light, n: int): (r: Result<Light, LightError>)
    ensures r.Success? <==> 1 <= n <= l.interval
    ensures r.Success? ==> r.value == l.(count := n)
    ensures r.Success? && WellFormed(l) ==> WellFormed(r.value)
  {
    if n <= 0 || n > l.interval then Failure(CountOutOfRange) else Success(l.(count := n))
  }

  // ---------------------------------------------------------------------
  // The share of green over a full cycle

  /** The state after `k` steps. */
  function CycleN(l: Light, k: nat): (r: Light)
    ensures r == l.(count := r.count, phase := r.phase)
    decreases k
  {
    if k == 0 then l else CycleN(Cycle(l), k - 1)
  }

  /** How many of the next `k` steps show green. */
  function GreenSteps(l: Light, k: nat): nat
    decreases k
  {
    if k == 0 then 0 else (if Cycle(l).phase then 1 else 0) + GreenSteps(Cycle(l), k - 1)
  }

  /** How many counts in `(a, b]` are green. */
  function GreenIn(start: int, end: int, a: int, b: int): nat
    decreases b - a
  {
    if b <= a then 0 else GreenIn(start, end, a, b - 1) + (if start < b <= end then 1 else 0)
  }

  lemma {:induction false} GreenInClosed(start: int, end: int, a: int, b: int)
    requires a <= b
    ensures GreenIn(start, end, a, b) == if b <= start || end <= a || end <= start then 0
      else (if b < end then b else end) - (if a > start then a else start)
    decreases b - a
  {
    if b > a {
      GreenInClosed(start, end, a, b - 1);
    }
  }

  lemma GreenInSplit(start: int, end: int, a: int, b: int, c: int)
    requires a <= b <= c
    ensures GreenIn(start, end, a, c) == GreenIn(start, end, a, b) + GreenIn(start, end, b, c)
  {
    GreenInClosed(start, end, a, b);
    GreenInClosed(start, end, b, c);
    GreenInClosed(start, end, a, c);
  }

  /** Steps that stay below the end of the cycle visit consecutive counts. */
  lemma {:induction false} GreenStepsNoWrap(l: Light, k: nat)
    requires 0 <= l.count && l.count + k <= l.interval
    ensures GreenSteps(l, k) == GreenIn(l.start, l.end, l.count, l.count + k)
    ensures CycleN(l, k).count == l.count + k
    ensures CycleN(l, k) == l.(count := CycleN(l, k).count, phase := CycleN(l, k).phase)
    decreases k
  {
    if k > 0 {
      var m := Cycle(l);
      GreenStepsNoWrap(m, k - 1);
      GreenInSplit(l.start, l.end, l.count, l.count + 1, l.count + k);
    }
  }

  lemma {:induction false} GreenStepsSplit(l: Light, j: nat, k: nat)
    ensures GreenSteps(l, j + k) == GreenSteps(l, j) + GreenSteps(CycleN(l, j), k)
    decreases j
  {
    if j > 0 {
      GreenStepsSplit(Cycle(l), j - 1, k);
    }
  }

  /** The steps ahead depend only on the count, not on the phase shown now;
      a light at the end of its cycle continues like one at count 0. */
  lemma {:induction false} GreenStepsFromEnd(l: Light, k: nat)
    requires l.interval > 0 && l.count == l.interval
    ensures GreenSteps(l, k) == GreenSteps(l.(count := 0), k)
  {
    if k > 0 {
      assert Cycle(l) == Cycle(l.(count := 0));
    }
  }

  /** Over any `interval` consecutive steps a well-formed light is green
      exactly `end - start` times. */
  lemma GreenShare(l: Light)
    requires WellFormed(l)
    ensures GreenSteps(l, l.interval) == l.end - l.start
  {
    var c := l.count;
    var first := l.interval - c;
    assert first + c == l.interval;
    GreenStepsSplit(l, first, c);
    GreenStepsNoWrap(l, first);
    var atEnd := CycleN(l, first);
    var restart := atEnd.(count := 0);
    assert restart.start == l.start && restart.end == l.end && restart.interval == l.interval;
    GreenStepsFromEnd(atEnd, c);
    GreenStepsNoWrap(restart, c);
    assert GreenSteps(atEnd, c) == GreenIn(l.start, l.end, 0, c);
    assert GreenSteps(l, first) == GreenIn(l.start, l.end, c, l.interval);
    GreenInSplit(l.start, l.end, 0, c, l.interval);
    GreenInClosed(l.start, l.end, 0, l.interval);
  }

  /** A full cycle brings a light that has stepped at least once back to
      its count. */
  lemma {:induction false} FullCycleReturns(l: Light)
    requires WellFormed(l) && l.count >= 1
    ensures CycleN(l, l.interval).count == l.count
  {
    var c := l.count;
    var first := l.interval - c;
    CycleNSplit(l, first, c);
    GreenStepsNoWrap(l, first);
    var atEnd := CycleN(l, first);
    CycleNFromEnd(atEnd, c);
    GreenStepsNoWrap(atEnd.(count := 0), c);
  }

  lemma {:induction false} CycleNSplit(l: Light, j: nat, k: nat)
    ensures CycleN(l, j + k) == CycleN(CycleN(l, j), k)
    decreases j
  {
    if j > 0 {
      CycleNSplit(Cycle(l), j - 1, k);
    }
  }

  /** How many of the next `k` steps would admit `o`, the cell itself left
      as it is. */
  function AdmitSteps(l: Light, o: CommonCell.Occupant, k: nat): nat
    decreases k
  {
    if k == 0 then 0 else (if Loadable(Cycle(l), o) then 1 else 0) + AdmitSteps(Cycle(l), o, k - 1)
  }

  /** A vehicle that fits is admitted on exactly the green steps; one that
      does not fit, on none. */
  lemma {:induction false} AdmitStepsGreen(l: Light, o: CommonCell.Occupant, k: nat)
    ensures AdmitSteps(l, o, k) == if CommonCell.Loadable(l.cell, o) then GreenSteps(l, k) else 0
    decreases k
  {
    if k > 0 {
      AdmitStepsGreen(Cycle(l), o, k - 1);
    }
  }

  /** Over a full cycle a well-formed light admits a vehicle that fits on
      exactly `end - start` steps, and one that does not fit on none. */
  lemma AdmissionsPerCycle(l: Light, o: CommonCell.Occupant)
    requires WellFormed(l)
    ensures AdmitSteps(l, o, l.interval) == if CommonCell.Loadable(l.cell, o) then l.end - l.start else 0
  {
    AdmitStepsGreen(l, o, l.interval);
    GreenShare(l);
  }

  lemma CycleNFromEnd(l: Light, k: nat)
    requires l.interval > 0 && l.count == l.interval && k > 0
    ensures CycleN(l, k) == CycleN(l.(count := 0), k)
  {
    assert Cycle(l) == Cycle(l.(count := 0));
  }
}
