/** Day 18: a lava droplet scanned as unit cubes. Part one counts the
    faces of the cubes that touch no other cube; part two counts only the
    faces reached by a breadth-first search through the air around the
    droplet, inside its bounding box grown by one cell. */
module Droplet {
  import opened Util

  datatype Point = Point(x: int, y: int, z: int)

  /** `Point::from_vec`: the first three values; `None` where the source
      would index past the end. */
  function FromVec(v: seq<int>): (r: Option<Point>)
    ensures r.Some? <==> |v| >= 3
    ensures r.Some? ==> r.value.x == v[0] && r.value.y == v[1] && r.value.z == v[2]
  {
    if |v| < 3 then None else Some(Point(v[0], v[1], v[2]))
  }

  // ------------------------------------------------------------ neighbours

  /** The `d`-th face neighbour, in the source's order: x - 1, x + 1,
      y + 1, y - 1, z + 1, z - 1. */
  function Offset(p: Point, d: nat): Point
    requires d < 6
  {
    if d == 0 then Point(p.x - 1, p.y, p.z)
    else if d == 1 then Point(p.x + 1, p.y, p.z)
    else if d == 2 then Point(p.x, p.y + 1, p.z)
    else if d == 3 then Point(p.x, p.y - 1, p.z)
    else if d == 4 then Point(p.x, p.y, p.z + 1)
    else Point(p.x, p.y, p.z - 1)
  }

  /** Two cells sharing a face. */
  predicate Adjacent(p: Point, q: Point)
  {
    Abs(p.x - q.x) + Abs(p.y - q.y) + Abs(p.z - q.z) == 1
  }

  /** The offsets are exactly the face neighbours, each reached by one
      direction only. */
  lemma OffsetSpec(p: Point, q: Point)
    ensures Adjacent(p, q) <==> exists d :: 0 <= d < 6 && Offset(p, d) == q
    ensures forall d, e :: 0 <= d < e < 6 ==> Offset(p, d) != Offset(p, e)
  {
    if Adjacent(p, q) {
      if q.x == p.x - 1 {
        assert Offset(p, 0) == q;
      } else if q.x == p.x + 1 {
        assert Offset(p, 1) == q;
      } else if q.y == p.y + 1 {
        assert Offset(p, 2) == q;
      } else if q.y == p.y - 1 {
        assert Offset(p, 3) == q;
      } else if q.z == p.z + 1 {
        assert Offset(p, 4) == q;
      } else {
        assert Offset(p, 5) == q;
      }
    }
  }

  lemma AdjacentSymmetric(p: Point, q: Point)
    requires Adjacent(p, q)
    ensures Adjacent(q, p)
  {
    assert Abs(p.x - q.x) == Abs(q.x - p.x);
    assert Abs(p.y - q.y) == Abs(q.y - p.y);
    assert Abs(p.z - q.z) == Abs(q.z - p.z);
  }

  /** Inside the bounding box `lo`..`hi`. */
  predicate Within(p: Point, lo: Point, hi: Point)
  {
    lo.x <= p.x <= hi.x && lo.y <= p.y <= hi.y && lo.z <= p.z <= hi.z
  }

  /** Inside the bounding box grown by one cell on every side. */
  predicate InBox(p: Point, lo: Point, hi: Point)
  {
    lo.x - 1 <= p.x <= hi.x + 1 && lo.y - 1 <= p.y <= hi.y + 1 && lo.z - 1 <= p.z <= hi.z + 1
  }

  function NeighboursFrom(p: Point, lo: Point, hi: Point, d: nat): (r: seq<Point>)
    requires d <= 6
    ensures |r| <= 6 - d
    ensures forall q :: q in r <==> exists e :: d <= e < 6 && Offset(p, e) == q && InBox(q, lo, hi)
    ensures forall i, j :: 0 <= i < j < |r| ==> r[i] != r[j]
    decreases 6 - d
  {
    if d == 6 then []
    else
      var rest := NeighboursFrom(p, lo, hi, d + 1);
      OffsetSpec(p, p);
      assert Offset(p, d) !in rest;
      if InBox(Offset(p, d), lo, hi) then [Offset(p, d)] + rest else rest
  }

  /** `get_neighbours_in_bounds`: the face neighbours inside the grown
      box, without repeats. */
  function Neighbours(p: Point, lo: Point, hi: Point): (r: seq<Point>)
    ensures |r| <= 6
    ensures forall q :: q in r <==> Adjacent(p, q) && InBox(q, lo, hi)
    ensures forall i, j :: 0 <= i < j < |r| ==> r[i] != r[j]
  {
    var r := NeighboursFrom(p, lo, hi, 0);
    forall q ensures q in r <==> Adjacent(p, q) && InBox(q, lo, hi) {
      OffsetSpec(p, q);
    }
    r
  }

  // ---------------------------------------------------------------- bounds

  /** Coordinate `a` (0, 1, 2 for x, y, z). */
  function Coord(p: Point, a: nat): int
  {
    if a == 0 then p.x else if a == 1 then p.y else p.z
  }

  function Least(keys: seq<Point>, a: nat): (m: int)
    requires |keys| > 0
    ensures forall k :: 0 <= k < |keys| ==> m <= Coord(keys[k], a)
    ensures exists k :: 0 <= k < |keys| && m == Coord(keys[k], a)
  {
    if |keys| == 1 then Coord(keys[0], a)
    else
      var m := Least(keys[..|keys| - 1], a);
      assert forall k :: 0 <= k < |keys| - 1 ==> keys[..|keys| - 1][k] == keys[k];
      if Coord(keys[|keys| - 1], a) < m then Coord(keys[|keys| - 1], a) else m
  }

  function Greatest(keys: seq<Point>, a: nat): (m: int)
    requires |keys| > 0
    ensures forall k :: 0 <= k < |keys| ==> Coord(keys[k], a) <= m
    ensures exists k :: 0 <= k < |keys| && m == Coord(keys[k], a)
  {
    if |keys| == 1 then Coord(keys[0], a)
    else
      var m := Greatest(keys[..|keys| - 1], a);
      assert forall k :: 0 <= k < |keys| - 1 ==> keys[..|keys| - 1][k] == keys[k];
      if Coord(keys[|keys| - 1], a) > m then Coord(keys[|keys| - 1], a) else m
  }

  /** `get_bounds`: the least and greatest coordinate on each axis;
      `None` for no cubes, where the source unwraps an empty minimum.
      Every cube lies within the bounds, and each bound is met by some
      cube. */
  function GetBounds(keys: seq<Point>): (r: Option<(Point, Point)>)
    ensures r.None? <==> |keys| == 0
    ensures r.Some? ==> forall k :: 0 <= k < |keys| ==> Within(keys[k], r.value.0, r.value.1)
    ensures r.Some? ==> exists k :: 0 <= k < |keys| && keys[k].x == r.value.0.x
    ensures r.Some? ==> exists k :: 0 <= k < |keys| && keys[k].y == r.value.0.y
    ensures r.Some? ==> exists k :: 0 <= k < |keys| && keys[k].z == r.value.0.z
    ensures r.Some? ==> exists k :: 0 <= k < |keys| && keys[k].x == r.value.1.x
    ensures r.Some? ==> exists k :: 0 <= k < |keys| && keys[k].y == r.value.1.y
    ensures r.Some? ==> exists k :: 0 <= k < |keys| && keys[k].z == r.value.1.z
  {
    if |keys| == 0 then None
    else
      var lo := Point(Least(keys, 0), Least(keys, 1), Least(keys, 2));
      var hi := Point(Greatest(keys, 0), Greatest(keys, 1), Greatest(keys, 2));
      assert forall k :: 0 <= k < |keys| ==> Within(keys[k], lo, hi) by {
        forall k | 0 <= k < |keys| ensures Within(keys[k], lo, hi) {
          assert Least(keys, 0) <= Coord(keys[k], 0) && Least(keys, 1) <= Coord(keys[k], 1);
          assert Least(keys, 2) <= Coord(keys[k], 2) && Greatest(keys, 0) >= Coord(keys[k], 0);
          assert Greatest(keys, 1) >= Coord(keys[k], 1) && Greatest(keys, 2) >= Coord(keys[k], 2);
        }
      }
      Attained(keys, lo, hi);
      Some((lo, hi))
  }

  /** Each of the six bounds is some cube's coordinate. */
  lemma Attained(keys: seq<Point>, lo: Point, hi: Point)
    requires |keys| > 0
    requires lo == Point(Least(keys, 0), Least(keys, 1), Least(keys, 2))
    requires hi == Point(Greatest(keys, 0), Greatest(keys, 1), Greatest(keys, 2))
    ensures exists k :: 0 <= k < |keys| && keys[k].x == lo.x
    ensures exists k :: 0 <= k < |keys| && keys[k].y == lo.y
    ensures exists k :: 0 <= k < |keys| && keys[k].z == lo.z
    ensures exists k :: 0 <= k < |keys| && keys[k].x == hi.x
    ensures exists k :: 0 <= k < |keys| && keys[k].y == hi.y
    ensures exists k :: 0 <= k < |keys| && keys[k].z == hi.z
  {
    var a :| 0 <= a < |keys| && Least(keys, 0) == Coord(keys[a], 0);
    var b :| 0 <= b < |keys| && Least(keys, 1) == Coord(keys[b], 1);
    var c :| 0 <= c < |keys| && Least(keys, 2) == Coord(keys[c], 2);
    var d :| 0 <= d < |keys| && Greatest(keys, 0) == Coord(keys[d], 0);
    var e :| 0 <= e < |keys| && Greatest(keys, 1) == Coord(keys[e], 1);
    var f :| 0 <= f < |keys| && Greatest(keys, 2) == Coord(keys[f], 2);
    assert keys[a].x == lo.x && keys[b].y == lo.y && keys[c].z == lo.z;
    assert keys[d].x == hi.x && keys[e].y == hi.y && keys[f].z == hi.z;
  }

  // -------------------------------------------------------------- part one

  /** The cubes: the keys of the source's map, each once. */
  function Cubes(keys: seq<Point>): set<Point>
  {
    set k | 0 <= k < |keys| :: keys[k]
  }

  predicate Distinct(keys: seq<Point>)
  {
    forall i, j :: 0 <= i < j < |keys| ==> keys[i] != keys[j]
  }

  /** How many of `ns` are not cubes. */
  function CountOutside(ns: seq<Point>, cubes: set<Point>): nat
  {
    if |ns| == 0 then 0
    else (if ns[0] in cubes then 0 else 1) + CountOutside(ns[1..], cubes)
  }

  /** The faces counted for the cubes `keys`. */
  function SidesOf(keys: seq<Point>, cubes: set<Point>, lo: Point, hi: Point): nat
  {
    if |keys| == 0 then 0
    else SidesOf(keys[..|keys| - 1], cubes, lo, hi) + CountOutside(Neighbours(keys[|keys| - 1], lo, hi), cubes)
  }

  /** `count_all_sides`; `None` for no cubes. */
  function CountAllSides(keys: seq<Point>): (r: Option<nat>)
    ensures r.None? <==> |keys| == 0
    ensures r.Some? ==> r.value <= 6 * |keys|
  {
    match GetBounds(keys)
    case None => None
    case Some(b) =>
      SidesBound(keys, Cubes(keys), b.0, b.1);
      Some(SidesOf(keys, Cubes(keys), b.0, b.1))
  }

  lemma {:induction false} SidesBound(keys: seq<Point>, cubes: set<Point>, lo: Point, hi: Point)
    ensures SidesOf(keys, cubes, lo, hi) <= 6 * |keys|
  {
    if |keys| > 0 {
      SidesBound(keys[..|keys| - 1], cubes, lo, hi);
      OutsideBound(Neighbours(keys[|keys| - 1], lo, hi), cubes);
    }
  }

  lemma {:induction false} OutsideBound(ns: seq<Point>, cubes: set<Point>)
    ensures CountOutside(ns, cubes) <= |ns|
  {
    if |ns| > 0 {
      OutsideBound(ns[1..], cubes);
    }
  }

  /** The directions from `d` on in which `c` has no cube. */
  function OpenCount(c: Point, cubes: set<Point>, d: nat): nat
    requires d <= 6
    decreases 6 - d
  {
    if d == 6 then 0
    else (if Offset(c, d) in cubes then 0 else 1) + OpenCount(c, cubes, d + 1)
  }

  /** The exposed faces of cube `c` from direction `d` on, as (cube,
      outside cell) pairs. */
  function CubeFaces(c: Point, cubes: set<Point>, d: nat): (r: set<(Point, Point)>)
    requires d <= 6
    ensures |r| == OpenCount(c, cubes, d)
    ensures forall q :: (c, q) in r <==> q !in cubes && exists e :: d <= e < 6 && Offset(c, e) == q
    ensures forall a, q :: (a, q) in r ==> a == c
    decreases 6 - d
  {
    if d == 6 then {}
    else
      var rest := CubeFaces(c, cubes, d + 1);
      OffsetSpec(c, c);
      assert (c, Offset(c, d)) !in rest;
      if Offset(c, d) in cubes then rest else {(c, Offset(c, d))} + rest
  }

  /** The exposed faces of the cubes `keys`. */
  function KeysFaces(keys: seq<Point>, cubes: set<Point>): (r: set<(Point, Point)>)
    ensures forall c, q :: (c, q) in r <==> c in keys && q !in cubes && exists e :: 0 <= e < 6 && Offset(c, e) == q
  {
    if |keys| == 0 then {}
    else
      var init := keys[..|keys| - 1];
      assert keys == init + [keys[|keys| - 1]];
      KeysFaces(init, cubes) + CubeFaces(keys[|keys| - 1], cubes, 0)
  }

  /** The exposed faces are the pairs of a cube and a face neighbour that
      is not a cube. */
  lemma KeysFacesSpec(keys: seq<Point>, cubes: set<Point>, c: Point, q: Point)
    ensures (c, q) in KeysFaces(keys, cubes) <==> c in keys && q !in cubes && Adjacent(c, q)
  {
    OffsetSpec(c, q);
  }

  /** On a cube within the bounds no neighbour is filtered out, so the
      count is the number of directions without a cube. */
  lemma {:induction false} OutsideIsOpen(c: Point, cubes: set<Point>, lo: Point, hi: Point, d: nat)
    requires Within(c, lo, hi) && d <= 6
    ensures CountOutside(NeighboursFrom(c, lo, hi, d), cubes) == OpenCount(c, cubes, d)
    decreases 6 - d
  {
    if d < 6 {
      OutsideIsOpen(c, cubes, lo, hi, d + 1);
      var rest := NeighboursFrom(c, lo, hi, d + 1);
      assert InBox(Offset(c, d), lo, hi);
      assert ([Offset(c, d)] + rest)[1..] == rest;
    }
  }

  /** The faces counted for distinct cubes within the bounds are exactly
      their exposed faces. */
  lemma {:induction false} SidesAreFaces(keys: seq<Point>, cubes: set<Point>, lo: Point, hi: Point)
    requires Distinct(keys) && forall k :: 0 <= k < |keys| ==> Within(keys[k], lo, hi)
    ensures SidesOf(keys, cubes, lo, hi) == |KeysFaces(keys, cubes)|
  {
    if |keys| > 0 {
      var init := keys[..|keys| - 1];
      var c := keys[|keys| - 1];
      assert forall k :: 0 <= k < |init| ==> init[k] == keys[k];
      SidesAreFaces(init, cubes, lo, hi);
      OutsideIsOpen(c, cubes, lo, hi, 0);
      assert c !in init;
      var a, b := KeysFaces(init, cubes), CubeFaces(c, cubes, 0);
      FacesDisjoint(init, cubes, c);
      assert |a + b| == |a| + |b|;
    }
  }

  lemma FacesDisjoint(init: seq<Point>, cubes: set<Point>, c: Point)
    requires c !in init
    ensures KeysFaces(init, cubes) * CubeFaces(c, cubes, 0) == {}
  {
    var a, b := KeysFaces(init, cubes), CubeFaces(c, cubes, 0);
    forall f | f in b ensures f !in a {
      assert f == (f.0, f.1);
      assert f.0 == c;
    }
  }

  /** Part one counts, for distinct cubes, every pair of a cube and a
      face neighbour that is not a cube. */
  lemma AllSidesAreFaces(keys: seq<Point>)
    requires Distinct(keys) && |keys| > 0
    ensures CountAllSides(keys).value == |KeysFaces(keys, Cubes(keys))|
  {
    var b := GetBounds(keys).value;
    SidesAreFaces(keys, Cubes(keys), b.0, b.1);
  }

  // -------------------------------------------------------------- part two

  /** The grown box as a set of cells. */
  ghost function Box(lo: Point, hi: Point): set<Point>
  {
    set x, y, z | lo.x - 1 <= x <= hi.x + 1 && lo.y - 1 <= y <= hi.y + 1 && lo.z - 1 <= z <= hi.z + 1
      :: Point(x, y, z)
  }

  lemma BoxHolds(lo: Point, hi: Point, s: set<Point>)
    requires forall p :: p in s ==> InBox(p, lo, hi)
    ensures s <= Box(lo, hi)
  {
    forall p | p in s ensures p in Box(lo, hi) {
      assert p == Point(p.x, p.y, p.z);
    }
  }

  lemma Shrinks(box: set<Point>, a: set<Point>, b: set<Point>)
    requires a <= b <= box && a != b
    ensures |box - b| < |box - a|
  {
    assert b == a + (b - a) && a * (b - a) == {};
    assert b - a != {};
    assert |b| == |a| + |b - a|;
    assert box == (box - b) + b && (box - b) * b == {};
    assert |box| == |box - b| + |b|;
    assert box == (box - a) + a && (box - a) * a == {};
    assert |box| == |box - a| + |a|;
  }

  /** The search's visited cells are air cells of the grown box. */
  ghost predicate AirOnly(visited: set<Point>, lo: Point, hi: Point, cubes: set<Point>)
  {
    forall q :: q in visited ==> InBox(q, lo, hi) && q !in cubes
  }

  /** Every queued cell has been visited, is queued once, and has not
      been taken out of the queue before. */
  ghost predicate Queued(queue: seq<Point>, visited: set<Point>, popped: set<Point>)
  {
    Distinct(queue) && forall k :: 0 <= k < |queue| ==> queue[k] in visited && queue[k] !in popped
  }

  /** Every counted face joins a cube to an air cell already taken out of
      the queue, or to the cell `p` being expanded and one of the cubes
      `done` met from it. */
  ghost predicate Pending(touched: set<(Point, Point)>, cubes: set<Point>, popped: set<Point>, p: Point, done: set<Point>)
  {
    forall c, q :: (c, q) in touched ==>
      c in cubes && q !in cubes && Adjacent(c, q) && (q in popped || (q == p && c in done))
  }

  /** The cells of `ns` before index `j`. */
  ghost function Prefix(ns: seq<Point>, j: nat): set<Point>
    requires j <= |ns|
  {
    set i | 0 <= i < j :: ns[i]
  }

  lemma PrefixNext(ns: seq<Point>, j: nat)
    requires j < |ns| && Distinct(ns)
    ensures Prefix(ns, j + 1) == Prefix(ns, j) + {ns[j]}
    ensures ns[j] !in Prefix(ns, j)
  {
  }

  lemma PopFront(queue: seq<Point>, visited: set<Point>, popped: set<Point>)
    requires Queued(queue, visited, popped) && |queue| > 0
    ensures Queued(queue[1..], visited, popped + {queue[0]})
    ensures queue[0] in visited && queue[0] !in popped
  {
    assert forall k :: 0 <= k < |queue[1..]| ==> queue[1..][k] == queue[k + 1];
  }

  /** Queueing an air cell not yet visited keeps the queue's shape. */
  lemma VisitAir(queue: seq<Point>, visited: set<Point>, popped: set<Point>, n: Point,
                 lo: Point, hi: Point, cubes: set<Point>)
    requires Queued(queue, visited, popped) && AirOnly(visited, lo, hi, cubes) && popped <= visited
    requires n !in visited && n !in cubes && InBox(n, lo, hi)
    ensures Queued(queue + [n], visited + {n}, popped) && AirOnly(visited + {n}, lo, hi, cubes)
  {
    var q := queue + [n];
    assert forall k :: 0 <= k < |queue| ==> q[k] == queue[k];
  }

  /** Counting the face between cube `n` and the cell `p` being
      expanded adds a face not counted before. */
  lemma CountFace(touched: set<(Point, Point)>, cubes: set<Point>, popped: set<Point>, p: Point,
                  done: set<Point>, n: Point)
    requires Pending(touched, cubes, popped, p, done)
    requires n in cubes && n !in done && p !in cubes && p !in popped && Adjacent(n, p)
    ensures (n, p) !in touched
    ensures Pending(touched + {(n, p)}, cubes, popped, p, done + {n})
  {
  }

  lemma PendingStart(touched: set<(Point, Point)>, cubes: set<Point>, popped: set<Point>, p: Point)
    requires Pending(touched, cubes, popped, p, {}) 
    ensures forall c, q :: (c, q) in touched ==> q in popped
  {
  }

  lemma PendingClose(touched: set<(Point, Point)>, cubes: set<Point>, popped: set<Point>, p: Point, done: set<Point>)
    requires Pending(touched, cubes, popped, p, done)
    ensures Pending(touched, cubes, popped + {p}, p, {})
  {
  }

  /** Pending faces are exposed faces. */
  lemma TouchedAreFaces(keys: seq<Point>, touched: set<(Point, Point)>, popped: set<Point>, p: Point)
    requires Pending(touched, Cubes(keys), popped, p, {})
    ensures |touched| <= |KeysFaces(keys, Cubes(keys))|
  {
    forall f | f in touched ensures f in KeysFaces(keys, Cubes(keys)) {
      assert f == (f.0, f.1);
      KeysFacesSpec(keys, Cubes(keys), f.0, f.1);
    }
    SubsetSize(touched, KeysFaces(keys, Cubes(keys)));
  }

  /** One step of the search: the neighbours of `p` are examined in
      order; a cube adds a face, an air cell not yet visited is queued. */
  method Expand(p: Point, lo: Point, hi: Point, cubes: set<Point>, queue: seq<Point>, visited: set<Point>,
                ghost popped: set<Point>, ghost touched: set<(Point, Point)>, count: nat)
    returns (queue': seq<Point>, visited': set<Point>, ghost touched': set<(Point, Point)>, count': nat)
    requires AirOnly(visited, lo, hi, cubes) && Queued(queue, visited, popped + {p})
    requires popped + {p} <= visited && p !in popped
    requires Pending(touched, cubes, popped, p, {}) && count == |touched|
    ensures AirOnly(visited', lo, hi, cubes) && Queued(queue', visited', popped + {p})
    ensures visited <= visited' && (visited' == visited ==> queue' == queue)
    ensures Pending(touched', cubes, popped + {p}, p, {}) && count' == |touched'|
  {
    var ns := Neighbours(p, lo, hi);
    queue', visited', touched', count' := queue, visited, touched, count;
    ghost var done: set<Point> := {};
    var j := 0;
    while j < |ns|
      invariant j <= |ns|
      invariant AirOnly(visited', lo, hi, cubes)
      invariant Queued(queue', visited', popped + {p})
      invariant popped + {p} <= visited <= visited'
      invariant visited' == visited ==> queue' == queue
      invariant done <= Prefix(ns, j)
      invariant Pending(touched', cubes, popped, p, done)
      invariant count' == |touched'|
    {
      var n := ns[j];
      PrefixNext(ns, j);
      if n in cubes {
        AdjacentSymmetric(p, n);
        CountFace(touched', cubes, popped, p, done, n);
        count' := count' + 1;
        touched' := touched' + {(n, p)};
        done := done + {n};
      } else if n !in visited' {
        VisitAir(queue', visited', popped + {p}, n, lo, hi, cubes);
        queue' := queue' + [n];
        visited' := visited' + {n};
      }
      j := j + 1;
    }
    PendingClose(touched', cubes, popped, p, done);
  }

  /** `count_exterior_faces`: a breadth-first search from the corner below
      the box's least corner, through the cells of the grown box that are
      not cubes, counting every step that meets a cube. `None` for no
      cubes. Each cell is queued at most once, only air cells of the box
      are visited, and every counted face is a different exposed face, so
      the result is at most part one's. */
  method CountExteriorFaces(keys: seq<Point>) returns (r: Option<nat>)
    requires Distinct(keys)
    ensures r.None? <==> |keys| == 0
    ensures r.Some? ==> r.value <= CountAllSides(keys).value
  {
    if |keys| == 0 {
      return None;
    }
    var bounds := GetBounds(keys).value;
    var lo, hi := bounds.0, bounds.1;
    var cubes := Cubes(keys);
    var start := Point(lo.x - 1, lo.y - 1, lo.z - 1);
    assert start !in cubes;
    var queue := [start];
    var visited := {start};
    ghost var popped: set<Point> := {};
    ghost var touched: set<(Point, Point)> := {};
    var count := 0;
    while |queue| > 0
      invariant AirOnly(visited, lo, hi, cubes)
      invariant Queued(queue, visited, popped)
      invariant popped <= visited
      invariant Pending(touched, cubes, popped, start, {})
      invariant count == |touched|
      decreases |Box(lo, hi) - visited|, |queue|
    {
      var p := queue[0];
      PopFront(queue, visited, popped);
      queue := queue[1..];
      ghost var visited0 := visited;
      PendingStart(touched, cubes, popped, start);
      queue, visited, touched, count := Expand(p, lo, hi, cubes, queue, visited, popped, touched, count);
      popped := popped + {p};
      if visited != visited0 {
        BoxHolds(lo, hi, visited);
        Shrinks(Box(lo, hi), visited0, visited);
      }
    }
    TouchedAreFaces(keys, touched, popped, start);
    AllSidesAreFaces(keys);
    return Some(count);
  }

  lemma SubsetSize<T>(a: set<T>, b: set<T>)
    requires a <= b
    ensures |a| <= |b|
  {
    assert b == a + (b - a);
  }
}
