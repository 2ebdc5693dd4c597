/** An ordinary cell of the road network: a capacity shared by the vehicles
    it holds, and a FIFO entry buffer of vehicles waiting to enter the
    network at this cell. Vehicles are identified by their occupant record;
    the `float64` occupation and capacity are exact reals here. */
module CommonCell {
  import opened Wrappers

  /** A vehicle as a cell sees it: its identity and the space it takes. */
  datatype Occupant = Occupant(id: int, occupy: real)

  datatype Cell = Cell(
    id: int, speedLimit: int, capacity: real, occupation: real,
    container: set<Occupant>, buffer: seq<Occupant>)

  /** The `(bool, error)` pair of `Load`, `Unload` and `BufferUnload`,
      together with the cell after the call. */
  datatype Outcome = Outcome(ok: bool, cell: Cell)

  function NewCommonCell(id: int, speed: int, capacity: real): (c: Cell)
    ensures c.id == id && c.speedLimit == speed && c.capacity == capacity
    ensures c.occupation == 0.0 && c.container == {} && c.buffer == []
  {
    Cell(id, speed, capacity, 0.0, {}, [])
  }

  /** The vehicle fits into the space the cell has left. */
  predicate Loadable(c: Cell, o: Occupant) {
    c.occupation + o.occupy <= c.capacity
  }

  function Load(c: Cell, o: Occupant): (r: Outcome)
    ensures r.ok <==> Loadable(c, o)
    ensures !r.ok ==> r.cell == c
    ensures r.ok ==> r.cell.container == c.container + {o}
    ensures r.ok ==> r.cell.occupation == c.occupation + o.occupy
    ensures r.cell == c.(container := r.cell.container, occupation := r.cell.occupation)
  {
    if c.occupation + o.occupy > c.capacity then Outcome(false, c)
    else Outcome(true, c.(container := c.container + {o}, occupation := c.occupation + o.occupy))
  }

  function Unload(c: Cell, o: Occupant): (r: Outcome)
    ensures r.ok <==> o in c.container
    ensures !r.ok ==> r.cell == c
    ensures r.ok ==> r.cell.container == c.container - {o}
    ensures r.ok ==> r.cell.occupation == c.occupation - o.occupy
    ensures r.cell == c.(container := r.cell.container, occupation := r.cell.occupation)
  {
    if o !in c.container then Outcome(false, c)
    else Outcome(true, c.(container := c.container - {o}, occupation := c.occupation - o.occupy))
  }

  // ---------------------------------------------------------------------
  // Occupation accounting

  /** Total space taken by a set of occupants. */
  ghost function Occupancy(s: set<Occupant>): real {
    if s == {} then 0.0 else var o :| o in s; o.occupy + Occupancy(s - {o})
  }

  lemma {:induction false} OccupancyRemove(s: set<Occupant>, o: Occupant)
    requires o in s
    ensures Occupancy(s) == o.occupy + Occupancy(s - {o})
    decreases |s|
  {
    var p :| p in s && Occupancy(s) == p.occupy + Occupancy(s - {p});
    if p != o {
      OccupancyRemove(s - {p}, o);
      OccupancyRemove(s - {o}, p);
      assert s - {p} - {o} == s - {o} - {p};
    }
  }

  /** The recorded occupation is the total of the vehicles held, it stays
      within capacity, and every vehicle takes some space. */
  ghost predicate Consistent(c: Cell) {
    && c.occupation == Occupancy(c.container)
    && c.occupation <= c.capacity
    && forall o :: o in c.container ==> o.occupy > 0.0
  }

  lemma NewCellConsistent(id: int, speed: int, capacity: real)
    requires capacity >= 0.0
    ensures Consistent(NewCommonCell(id, speed, capacity))
  {
  }

  /** Loading a vehicle the cell does not hold yet keeps the books right. */
  lemma LoadPreserves(c: Cell, o: Occupant)
    requires Consistent(c) && o !in c.container && o.occupy > 0.0
    ensures Consistent(Load(c, o).cell)
  {
    if Load(c, o).ok {
      OccupancyRemove(c.container + {o}, o);
      assert c.container + {o} - {o} == c.container;
    }
  }

  lemma UnloadPreserves(c: Cell, o: Occupant)
    requires Consistent(c)
    ensures Consistent(Unload(c, o).cell)
  {
    if o in c.container {
      OccupancyRemove(c.container, o);
    }
  }

  /** Loading a vehicle the cell already holds counts its space twice: the
      set does not grow but the occupation does. */
  lemma LoadTwiceOvercounts(c: Cell, o: Occupant)
    requires Consistent(c) && o in c.container && Loadable(c, o)
    ensures Load(c, o).ok && !Consistent(Load(c, o).cell)
  {
    assert c.container + {o} == c.container;
  }

  /** `Loadable` is exactly the check `Load` makes, and a load it allows
      leaves the cell within its capacity. */
  lemma LoadableIsLoadCheck(c: Cell, o: Occupant)
    ensures Loadable(c, o) <==> Load(c, o).ok
    ensures Loadable(c, o) ==> Load(c, o).cell.occupation <= Load(c, o).cell.capacity
  {
  }

  /** Unloading right after a successful load restores the cell. */
  lemma LoadThenUnload(c: Cell, o: Occupant)
    requires o !in c.container && Loadable(c, o)
    ensures Unload(Load(c, o).cell, o) == Outcome(true, c)
  {
    assert c.container + {o} - {o} == c.container;
  }

  // ---------------------------------------------------------------------
  // The entry buffer

  /** Queues a vehicle at the back of the buffer; it always succeeds. */
  function BufferLoad(c: Cell, o: Occupant): (r: Cell)
    ensures r == c.(buffer := r.buffer)
    ensures |r.buffer| == |c.buffer| + 1
    ensures r.buffer[..|c.buffer|] == c.buffer && r.buffer[|c.buffer|] == o
  {
    c.(buffer := c.buffer + [o])
  }

  /** The buffer from front to back. */
  function ListBuffer(c: Cell): seq<Occupant> {
    c.buffer
  }

  /** Queues the vehicles one after another. */
  function BufferLoadAll(c: Cell, os: seq<Occupant>): Cell
    decreases |os|
  {
    if |os| == 0 then c else BufferLoadAll(BufferLoad(c, os[0]), os[1..])
  }

  /** The buffer is first in, first out: vehicles queued one after another
      are listed after those already waiting, in the order they came, and
      nothing else about the cell changes. */
  lemma {:induction false} BufferIsFifo(c: Cell, os: seq<Occupant>)
    ensures ListBuffer(BufferLoadAll(c, os)) == ListBuffer(c) + os
    ensures BufferLoadAll(c, os) == c.(buffer := BufferLoadAll(c, os).buffer)
    decreases |os|
  {
    if |os| > 0 {
      var d := BufferLoad(c, os[0]);
      BufferIsFifo(d, os[1..]);
      assert d.buffer == c.buffer + [os[0]];
      assert [os[0]] + os[1..] == os;
      assert c.buffer + [os[0]] + os[1..] == c.buffer + os;
    } else {
      assert c.buffer + os == c.buffer;
    }
  }

  /** Position of the first occurrence of `x` in `s`. */
  function FirstIndex(s: seq<Occupant>, x: Occupant): (i: nat)
    requires x in s
    ensures i < |s| && s[i] == x && x !in s[..i]
  {
    if s[0] == x then 0 else FirstIndex(s[1..], x) + 1
  }

  /** The list walk of `BufferUnload`: drop the first element equal to `x`. */
  function RemoveFirst(s: seq<Occupant>, x: Occupant): (t: seq<Occupant>)
    ensures x !in s ==> t == s
  {
    if |s| == 0 then []
    else if s[0] == x then s[1..]
    else [s[0]] + RemoveFirst(s[1..], x)
  }

  /** Removing the first occurrence splices out exactly that position. */
  lemma {:induction false} RemoveFirstSplices(s: seq<Occupant>, x: Occupant)
    requires x in s
    ensures RemoveFirst(s, x) == s[..FirstIndex(s, x)] + s[FirstIndex(s, x) + 1..]
  {
    if s[0] != x {
      RemoveFirstSplices(s[1..], x);
      var i := FirstIndex(s[1..], x);
      assert s[..i + 1] == [s[0]] + s[1..][..i];
      assert s[i + 2..] == s[1..][i + 1..];
    }
  }

  lemma {:induction false} RemoveFirstCounts(s: seq<Occupant>, x: Occupant)
    requires x in s
    ensures |RemoveFirst(s, x)| == |s| - 1
    ensures multiset(RemoveFirst(s, x)) == multiset(s) - multiset{x}
  {
    var i := FirstIndex(s, x);
    RemoveFirstSplices(s, x);
    var a, b := s[..i], s[i + 1..];
    assert s == a + [x] + b;
    assert multiset(s) == multiset(a) + multiset{x} + multiset(b);
  }

  function BufferUnload(c: Cell, o: Occupant): (r: Outcome)
    ensures r.ok <==> o in c.buffer
    ensures !r.ok ==> r.cell == c
    ensures r.cell == c.(buffer := r.cell.buffer)
  {
    if o in c.buffer then Outcome(true, c.(buffer := RemoveFirst(c.buffer, o))) else Outcome(false, c)
  }

  /** A vehicle queued at the back and taken out again leaves the buffer as
      it was, provided it was not queued already. */
  lemma BufferLoadThenUnload(c: Cell, o: Occupant)
    requires o !in c.buffer
    ensures BufferUnload(BufferLoad(c, o), o) == Outcome(true, c)
  {
    var b := c.buffer + [o];
    assert FirstIndex(b, o) == |c.buffer|;
    RemoveFirstSplices(b, o);
    assert b[..|c.buffer|] == c.buffer;
  }

  /** Taking a vehicle out of the buffer keeps everybody else in order. */
  lemma BufferUnloadKeepsOrder(c: Cell, o: Occupant)
    requires o in c.buffer
    ensures ListBuffer(BufferUnload(c, o).cell)
        == ListBuffer(c)[..FirstIndex(c.buffer, o)] + ListBuffer(c)[FirstIndex(c.buffer, o) + 1..]
  {
    RemoveFirstSplices(c.buffer, o);
  }
}
