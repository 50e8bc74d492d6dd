/** Day 14: sand pouring from `(500, 0)` into a cave of rock paths. Each
    grain falls straight down, else down-left, else down-right, and rests
    when it can do none of these. */
module Regolith {
  import opened Util

  /** A cell `(x, y)`; `y` grows downwards. */
  type Pos = (int, int)

  /** Where the sand comes from. */
  const Source: Pos := (500, 0)

  // ---------------------------------------------------------------- rocks

  /** The cells one segment of a path adds: both ends and, along the row
      or the column of `from`, the cells from the lower coordinate up to
      but not including the higher one. */
  function Segment(from: Pos, to: Pos): set<Pos>
  {
    {from, to} +
    if from.0 == to.0 then
      var lo, hi := Min(from.1, to.1), Max(from.1, to.1);
      set r | lo <= r < hi :: (from.0, r)
    else
      var lo, hi := Min(from.0, to.0), Max(from.0, to.0);
      set r | lo <= r < hi :: (r, from.1)
  }

  /** A vertical or horizontal segment holds exactly the cells between its
      ends, both ends included. */
  lemma SegmentSpec(from: Pos, to: Pos, p: Pos)
    ensures from.0 == to.0 ==>
      (p in Segment(from, to) <==> p.0 == from.0 && Min(from.1, to.1) <= p.1 <= Max(from.1, to.1))
    ensures from.0 != to.0 && from.1 == to.1 ==>
      (p in Segment(from, to) <==> p.1 == from.1 && Min(from.0, to.0) <= p.0 <= Max(from.0, to.0))
  {
  }

  /** The cells of one rock path: the segments between consecutive
      points. A path of a single point adds nothing. */
  function PathCells(path: seq<Pos>): set<Pos>
  {
    if |path| < 2 then {}
    else PathCells(path[..|path| - 1]) + Segment(path[|path| - 2], path[|path| - 1])
  }

  /** A cell belongs to a path exactly when it belongs to one of its
      segments, and every point of a path of two or more points is
      rock. */
  lemma {:induction false} PathCellsSpec(path: seq<Pos>, p: Pos)
    ensures p in PathCells(path) <==> exists k :: 0 <= k < |path| - 1 && p in Segment(path[k], path[k + 1])
    ensures |path| >= 2 ==> forall k :: 0 <= k < |path| ==> path[k] in PathCells(path)
    decreases |path|
  {
    if |path| >= 2 {
      var init := path[..|path| - 1];
      PathCellsSpec(init, p);
      if p in PathCells(path) && p !in PathCells(init) {
        assert p in Segment(path[|path| - 2], path[|path| - 1]);
      }
      forall k | 0 <= k < |path| ensures path[k] in PathCells(path) {
        if k < |path| - 1 {
          PathSegmentIn(path, k);
        } else {
          PathSegmentIn(path, k - 1);
        }
      }
    }
  }

  /** Every segment of a path is part of it. */
  lemma {:induction false} PathSegmentIn(path: seq<Pos>, k: nat)
    requires k + 1 < |path|
    ensures Segment(path[k], path[k + 1]) <= PathCells(path)
    decreases |path|
  {
    if k + 2 < |path| {
      var init := path[..|path| - 1];
      PathSegmentIn(init, k);
      assert init[k] == path[k] && init[k + 1] == path[k + 1];
    }
  }

  /** The scan: the cells of every path. */
  function Rocks(paths: seq<seq<Pos>>): (r: set<Pos>)
    ensures forall k :: 0 <= k < |paths| ==> PathCells(paths[k]) <= r
  {
    if |paths| == 0 then {} else Rocks(paths[..|paths| - 1]) + PathCells(paths[|paths| - 1])
  }

  /** A cell is rock exactly when it lies on one of the paths. */
  lemma {:induction false} RocksSpec(paths: seq<seq<Pos>>, p: Pos)
    ensures p in Rocks(paths) <==> exists k :: 0 <= k < |paths| && p in PathCells(paths[k])
    decreases |paths|
  {
    if |paths| > 0 {
      var init := paths[..|paths| - 1];
      RocksSpec(init, p);
      if p in Rocks(init) {
        var k :| 0 <= k < |init| && p in PathCells(init[k]);
        assert init[k] == paths[k];
      }
      if exists k :: 0 <= k < |paths| && p in PathCells(paths[k]) {
        var k :| 0 <= k < |paths| && p in PathCells(paths[k]);
        if k < |init| {
          assert init[k] == paths[k];
        }
      }
    }
  }

  // ---------------------------------------------------------------- sand

  /** How a simulation stops: at a grain reaching row `y` or below (part
      one), or at a grain resting at the source (part two). */
  datatype Exit = Floor(y: int) | AtSource

  predicate Holds(exit: Exit, s: Pos)
  {
    match exit
    case Floor(y) => s.1 >= y
    case AtSource => s == Source
  }

  /** A cell a grain may move into: free, and above the row `bottom`. */
  predicate Open(filled: set<Pos>, bottom: int, p: Pos)
  {
    p !in filled && p.1 < bottom
  }

  /** The move from `s`: straight down, else down-left, else down-right,
      whichever is open first; `None` when the grain comes to rest. */
  function Next(filled: set<Pos>, bottom: int, s: Pos): (r: Option<Pos>)
    ensures r.None? <==>
      !Open(filled, bottom, (s.0, s.1 + 1)) && !Open(filled, bottom, (s.0 - 1, s.1 + 1)) &&
      !Open(filled, bottom, (s.0 + 1, s.1 + 1))
    ensures r.Some? ==> Open(filled, bottom, r.value) && r.value.1 == s.1 + 1 && Abs(r.value.0 - s.0) <= 1
    ensures r.Some? && r.value.0 != s.0 ==> !Open(filled, bottom, (s.0, s.1 + 1))
    ensures r.Some? && r.value.0 == s.0 + 1 ==> !Open(filled, bottom, (s.0 - 1, s.1 + 1))
  {
    if Open(filled, bottom, (s.0, s.1 + 1)) then Some((s.0, s.1 + 1))
    else if Open(filled, bottom, (s.0 - 1, s.1 + 1)) then Some((s.0 - 1, s.1 + 1))
    else if Open(filled, bottom, (s.0 + 1, s.1 + 1)) then Some((s.0 + 1, s.1 + 1))
    else None
  }

  /** Where one grain ends: at rest in a cell, or stopped by the exit
      condition while falling. */
  datatype Outcome = Rest(at: Pos) | Stopped(at: Pos)

  /** The inner loop: a grain falls from `s` until it rests or meets the
      exit condition. It rests where no move is open; it moves only down
      through open cells, at most one column per row. */
  function Fall(filled: set<Pos>, bottom: int, s: Pos, exit: Exit): (r: Outcome)
    ensures r.Rest? ==> Next(filled, bottom, r.at).None?
    ensures r.Stopped? ==> Holds(exit, r.at) && r.at.1 > s.1
    ensures r.at == s || (Open(filled, bottom, r.at) && r.at.1 > s.1)
    ensures Abs(r.at.0 - s.0) <= r.at.1 - s.1
    decreases bottom - s.1
  {
    match Next(filled, bottom, s)
    case None => Rest(s)
    case Some(n) => if Holds(exit, n) then Stopped(n) else Fall(filled, bottom, n, exit)
  }

  /** The cells a grain from the source can rest in: rows `0` to
      `bottom - 1`, no further sideways than it has fallen. */
  function Cone(bottom: int): set<Pos>
  {
    set x, y | 0 <= y < bottom && 500 - bottom <= x <= 500 + bottom :: (x, y)
  }

  /** The outer loop: grains one after the other, each resting grain
      added to `filled`. A grain resting at the source without meeting
      the exit condition would repeat forever: `None`. The cells filled
      only grow, every new one within reach of the source; in part two
      the run ends with the source filled. */
  function Pour(filled: set<Pos>, bottom: int, exit: Exit): (r: Option<set<Pos>>)
    ensures r.Some? ==> filled <= r.value
    ensures r.Some? ==> forall p :: p in r.value - filled ==> p in Cone(bottom) || p == Source
    ensures r.Some? && exit == AtSource ==> Source in r.value
    decreases |Cone(bottom) - filled|
  {
    match Fall(filled, bottom, Source, exit)
    case Stopped(_) => Some(filled)
    case Rest(p) =>
      var more := filled + {p};
      if Holds(exit, p) then Some(more)
      else if p == Source then None
      else
        assert p in Cone(bottom) - filled;
        assert Cone(bottom) - filled == (Cone(bottom) - more) + {p};
        Pour(more, bottom, exit)
  }

  /** `simulate`: how many grains come to rest, as the growth of the
      filled cells over the scan. */
  function Simulate(scan: set<Pos>, bottom: int, exit: Exit): (r: Option<nat>)
    ensures r.Some? ==> Pour(scan, bottom, exit).Some? && r.value == |Pour(scan, bottom, exit).value - scan|
  {
    match Pour(scan, bottom, exit)
    case None => None
    case Some(filled) =>
      assert filled == scan + (filled - scan);
      Some(|filled| - |scan|)
  }

  // ------------------------------------------------------------- answers

  /** The deepest row holding rock. */
  ghost function Deepest(rocks: set<Pos>): (m: int)
    requires rocks != {}
    ensures exists p :: p in rocks && p.1 == m
    ensures forall p :: p in rocks ==> p.1 <= m
    decreases |rocks|
  {
    var p :| p in rocks;
    if rocks == {p} then p.1
    else
      var m := Deepest(rocks - {p});
      if p.1 >= m then p.1 else m
  }

  /** Part one: sand stops once a grain passes the deepest rock; `None`
      where there is no rock (the source unwraps an empty maximum). */
  ghost function PartOne(rocks: set<Pos>): Option<nat>
  {
    if rocks == {} then None
    else
      var b := Deepest(rocks);
      Simulate(rocks, b + 1, Floor(b))
  }

  /** Part two: a floor two rows below the deepest rock, sand until the
      source is blocked. */
  ghost function PartTwo(rocks: set<Pos>): Option<nat>
  {
    if rocks == {} then None
    else
      var b := Deepest(rocks);
      Simulate(rocks, b + 2, AtSource)
  }
}
