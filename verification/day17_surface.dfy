/** The settled-rock surface of the falling-rock chamber (day 17): its
    height, its normalisation to a zero baseline, and the flood fill that
    prunes it down to the cells a falling rock can still reach. */
module Surface {
  import opened Util

  /** A chamber cell `(x, y)`: `x` is the column, `y` grows upwards. */
  type Point = (int, int)

  /** The chamber is seven columns wide. */
  const Width: int := 7

  predicate InWidth(p: Point) { 0 <= p.0 < Width }

  /** The floor the simulation starts from: row `-1` filled across the
      chamber. */
  function Floor(): (f: set<Point>)
    ensures FullRow(f, -1)
    ensures forall p {:trigger p in f} :: p in f ==> p.1 == -1 && InWidth(p)
  {
    set x | 0 <= x < Width :: (x, -1)
  }

  /** Every column holds a cell of `s` in row `y`: a barrier nothing falls
      through. */
  ghost predicate FullRow(s: set<Point>, y: int)
  {
    forall x {:trigger (x, y) in s} :: 0 <= x < Width ==> (x, y) in s
  }

  // ---------------------------------------------------------------- heights

  /** Some cell of a non-empty surface is at least as high as all others. */
  lemma {:induction false} HighestExists(s: set<Point>)
    requires s != {}
    ensures exists p {:trigger p in s} :: p in s && forall q {:trigger q in s} :: q in s ==> q.1 <= p.1
    decreases |s|
  {
    var p :| p in s;
    var rest := s - {p};
    if rest == {} {
      assert s == {p};
    } else {
      HighestExists(rest);
      var w :| w in rest && forall q {:trigger q in rest} :: q in rest ==> q.1 <= w.1;
      var best := if p.1 <= w.1 then w else p;
      forall q | q in s ensures q.1 <= best.1 {
        if q != p {
          assert q in rest;
        }
      }
      assert best in s;
    }
  }

  /** Some cell of a non-empty surface is at most as high as all others. */
  lemma {:induction false} LowestExists(s: set<Point>)
    requires s != {}
    ensures exists p {:trigger p in s} :: p in s && forall q {:trigger q in s} :: q in s ==> p.1 <= q.1
    decreases |s|
  {
    var p :| p in s;
    var rest := s - {p};
    if rest == {} {
      assert s == {p};
    } else {
      LowestExists(rest);
      var w :| w in rest && forall q {:trigger q in rest} :: q in rest ==> w.1 <= q.1;
      var best := if w.1 <= p.1 then w else p;
      forall q | q in s ensures best.1 <= q.1 {
        if q != p {
          assert q in rest;
        }
      }
      assert best in s;
    }
  }

  /** `get_max_surface_height`: the largest `y` of the surface, or 0 for an
      empty surface. */
  ghost function MaxY(s: set<Point>): (m: int)
    ensures s == {} ==> m == 0
    ensures s != {} ==> (exists p {:trigger p in s} :: p in s && p.1 == m)
    ensures forall p {:trigger p in s} :: p in s ==> p.1 <= m
  {
    if s == {} then 0
    else
      HighestExists(s);
      var p :| p in s && forall q {:trigger q in s} :: q in s ==> q.1 <= p.1;
      p.1
  }

  /** The smallest `y` of the surface, or 0 for an empty surface (the
      `unwrap_or(0)` of `normalize_surface_height`). */
  ghost function MinY(s: set<Point>): (m: int)
    ensures s == {} ==> m == 0
    ensures s != {} ==> (exists p {:trigger p in s} :: p in s && p.1 == m)
    ensures forall p {:trigger p in s} :: p in s ==> m <= p.1
  {
    if s == {} then 0
    else
      LowestExists(s);
      var p :| p in s && forall q {:trigger q in s} :: q in s ==> p.1 <= q.1;
      p.1
  }

  lemma MinYUnique(s: set<Point>, m: int)
    requires exists p {:trigger p in s} :: p in s && p.1 == m
    requires forall p {:trigger p in s} :: p in s ==> m <= p.1
    ensures MinY(s) == m
  {
  }

  lemma MaxYUnique(s: set<Point>, m: int)
    requires exists p {:trigger p in s} :: p in s && p.1 == m
    requires forall p {:trigger p in s} :: p in s ==> p.1 <= m
    ensures MaxY(s) == m
  {
  }

  lemma AboveSurface(s: set<Point>, q: Point)
    requires q.1 > MaxY(s)
    ensures q !in s
  {
  }

  lemma MinYAtMostMaxY(s: set<Point>)
    ensures MinY(s) <= MaxY(s)
  {
    if s != {} {
      var p :| p in s && p.1 == MinY(s);
    }
  }

  /** Settling more cells never lowers the surface. */
  lemma MaxYMonotone(a: set<Point>, b: set<Point>)
    requires a != {} && a <= b
    ensures MaxY(a) <= MaxY(b)
  {
    var p :| p in a && p.1 == MaxY(a);
    assert p in b;
  }

  // ---------------------------------------------------------- normalisation

  /** A cell moved `d` rows up (down for negative `d`). */
  function Raise(p: Point, d: int): Point
  {
    (p.0, p.1 + d)
  }

  /** Every cell of `s` moved `m` rows down. */
  ghost function Lower(s: set<Point>, m: int): (r: set<Point>)
    ensures forall q {:trigger q in r} :: q in r <==> Raise(q, m) in s
    decreases |s|
  {
    if s == {} then {}
    else
      var p :| p in s;
      assert Raise(Raise(p, -m), m) == p;
      Lower(s - {p}, m) + {Raise(p, -m)}
  }

  lemma LowerOut(s: set<Point>, m: int, p: Point, z: Point)
    requires p in s && z in Lower(s, m)
    ensures z in Lower(s - {p}, m) || z == Raise(p, -m)
  {
    if Raise(z, m) != p {
      assert Raise(z, m) in s - {p};
    }
  }

  lemma LowerIn(s: set<Point>, m: int, p: Point, z: Point)
    requires p in s && (z in Lower(s - {p}, m) || z == Raise(p, -m))
    ensures z in Lower(s, m)
  {
    if z == Raise(p, -m) {
      assert Raise(z, m) == p;
    }
  }

  lemma LowerNotBack(s: set<Point>, m: int, p: Point)
    ensures Raise(p, -m) !in Lower(s - {p}, m)
  {
    assert Raise(Raise(p, -m), m) == p;
  }

  lemma LowerStep(s: set<Point>, m: int, p: Point)
    requires p in s
    ensures Lower(s, m) == Lower(s - {p}, m) + {Raise(p, -m)}
    ensures Raise(p, -m) !in Lower(s - {p}, m)
  {
    var q := Raise(p, -m);
    var a := Lower(s - {p}, m);
    LowerNotBack(s, m, p);
    forall z | z in Lower(s, m) ensures z in a + {q} {
      LowerOut(s, m, p, z);
    }
    forall z | z in a + {q} ensures z in Lower(s, m) {
      LowerIn(s, m, p, z);
    }
  }

  /** Moving cells is one-to-one: no two cells land on the same spot. */
  lemma {:induction false} LowerCard(s: set<Point>, m: int)
    ensures |Lower(s, m)| == |s|
    decreases |s|
  {
    if s != {} {
      var p :| p in s;
      LowerCard(s - {p}, m);
      LowerStep(s, m, p);
    }
  }

  lemma LowerMinY(s: set<Point>, m: int)
    requires s != {}
    ensures MinY(Lower(s, m)) == MinY(s) - m
  {
    var p :| p in s && p.1 == MinY(s);
    assert Raise(Raise(p, -m), m) == p;
    assert Raise(p, -m) in Lower(s, m);
    forall q | q in Lower(s, m) ensures MinY(s) - m <= q.1 {
      assert Raise(q, m) in s;
    }
    MinYUnique(Lower(s, m), MinY(s) - m);
  }

  /** `normalize_surface_height`: shifts the surface so its lowest cell is
      in row 0, keeping every column and the number of cells. */
  ghost function Normalize(s: set<Point>): (r: set<Point>)
    ensures forall q {:trigger q in r} :: q in r <==> Raise(q, MinY(s)) in s
    ensures |r| == |s|
    ensures s != {} ==> MinY(r) == 0
  {
    LowerCard(s, MinY(s));
    if s != {} then LowerMinY(s, MinY(s)); Lower(s, MinY(s))
    else Lower(s, MinY(s))
  }

  /** Normalising twice is normalising once. */
  lemma NormalizeIdempotent(s: set<Point>)
    ensures Normalize(Normalize(s)) == Normalize(s)
  {
    var n := Normalize(s);
    if s == {} {
      assert n == {};
      return;
    }
    assert MinY(n) == 0;
    forall z | z in Normalize(n) ensures z in n {
      assert Raise(z, 0) == z;
    }
    forall z | z in n ensures z in Normalize(n) {
      assert Raise(z, 0) == z;
    }
  }

  // ------------------------------------------------------------- flood fill

  /** The three cells `explore_surface` looks at from `p`. */
  function Down(p: Point): Point { (p.0, p.1 - 1) }
  function Left(p: Point): Point { (p.0 - 1, p.1) }
  function Right(p: Point): Point { (p.0 + 1, p.1) }

  /** The part of the chamber the flood fill can visit without falling
      past the lowest surface row `lo`; it never moves up from row `h`. */
  predicate InBox(p: Point, lo: int, h: int)
  {
    InWidth(p) && lo <= p.1 <= h
  }

  ghost function Box(lo: int, h: int): set<Point>
  {
    set x, y | 0 <= x < Width && lo <= y <= h :: (x, y)
  }

  lemma BoxMember(p: Point, lo: int, h: int)
    requires InBox(p, lo, h)
    ensures p in Box(lo, h)
  {
    var (x, y) := p;
    assert (x, y) in Box(lo, h);
  }

  /** The row above the surface from which the flood fill starts. */
  function Starts(h: int): (r: seq<Point>)
    ensures |r| == Width && forall i {:trigger r[i]} :: 0 <= i < Width ==> r[i] == (i, h)
  {
    seq(Width, i => (i, h))
  }

  /** Every in-box neighbour of `e` has been explored. */
  ghost predicate Expanded(e: Point, lo: int, h: int, explored: set<Point>)
  {
    (InBox(Down(e), lo, h) ==> Down(e) in explored)
    && (InBox(Left(e), lo, h) ==> Left(e) in explored)
    && (InBox(Right(e), lo, h) ==> Right(e) in explored)
  }

  /** Looks at one neighbour `q`: if it is in the box and unexplored it is
      marked explored, and pushed for further exploration unless it is a
      surface cell. */
  ghost function Visit(s: set<Point>, lo: int, h: int, q: Point, explored: set<Point>)
    : (r: (set<Point>, seq<Point>))
    ensures InBox(q, lo, h) ==> q in r.0
    ensures r.0 == explored || (InBox(q, lo, h) && q !in explored && r.0 == explored + {q})
    ensures r.1 == (if r.0 == explored || q in s then [] else [q])
  {
    if InBox(q, lo, h) && q !in explored then (explored + {q}, if q in s then [] else [q])
    else (explored, [])
  }

  /** Visits the neighbours of `p` below, to the left and to the right. */
  ghost function Expand(s: set<Point>, lo: int, h: int, p: Point, explored: set<Point>)
    : (r: (set<Point>, seq<Point>))
    ensures explored <= r.0 && Expanded(p, lo, h, r.0)
    ensures forall q :: q in r.0 && q !in explored ==> InBox(q, lo, h)
    ensures forall q :: q in r.0 && q !in explored && q !in s ==> q in r.1
    ensures forall q :: q in r.1 ==> q in r.0 && q !in s
    ensures r.0 == explored ==> r.1 == []
    ensures forall q :: q in r.0 && q !in explored ==> q == Down(p) || q == Left(p) || q == Right(p)
  {
    var a := Visit(s, lo, h, Down(p), explored);
    var b := Visit(s, lo, h, Left(p), a.0);
    var c := Visit(s, lo, h, Right(p), b.0);
    (c.0, a.1 + b.1 + c.1)
  }

  /** The iterative flood fill (an explicit stack in place of the source's
      recursion): everything explored from the cells on `stack`. */
  ghost function Flood(s: set<Point>, lo: int, h: int, stack: seq<Point>, explored: set<Point>)
    : (e: set<Point>)
    requires forall q :: q in explored ==> InBox(q, lo, h)
    ensures explored <= e
    ensures forall q :: q in e ==> InBox(q, lo, h)
    decreases Box(lo, h) - explored, |stack|
  {
    if stack == [] then explored
    else
      var p := stack[|stack| - 1];
      var x := Expand(s, lo, h, p, explored);
      if x.0 == explored then
        Flood(s, lo, h, stack[..|stack| - 1], explored)
      else
        FloodProgress(lo, h, explored, x.0);
        Flood(s, lo, h, stack[..|stack| - 1] + x.1, x.0)
  }

  lemma FloodProgress(lo: int, h: int, explored: set<Point>, bigger: set<Point>)
    requires explored < bigger
    requires forall q :: q in bigger ==> InBox(q, lo, h)
    ensures Box(lo, h) - bigger < Box(lo, h) - explored
  {
    assert !(bigger <= explored);
    var q :| q in bigger && q !in explored;
    BoxMember(q, lo, h);
  }

  /** Every explored empty cell has been expanded, or is still waiting on
      the stack. */
  ghost predicate Pending(s: set<Point>, lo: int, h: int, stack: seq<Point>, explored: set<Point>)
  {
    forall e :: e in explored && e !in s && e !in stack ==> Expanded(e, lo, h, explored)
  }

  /** The result of the flood fill is closed, and everything on the stack
      has been expanded. */
  lemma {:induction false} FloodClosed(s: set<Point>, lo: int, h: int, stack: seq<Point>, explored: set<Point>)
    requires forall q :: q in explored ==> InBox(q, lo, h)
    requires Pending(s, lo, h, stack, explored)
    ensures Closed(s, lo, h, Flood(s, lo, h, stack, explored))
    ensures forall p :: p in stack ==> Expanded(p, lo, h, Flood(s, lo, h, stack, explored))
    decreases Box(lo, h) - explored, |stack|
  {
    var e := Flood(s, lo, h, stack, explored);
    if stack != [] {
      var p := stack[|stack| - 1];
      var x := Expand(s, lo, h, p, explored);
      var rest := stack[..|stack| - 1];
      assert stack == rest + [p];
      if x.0 == explored {
        assert Pending(s, lo, h, rest, explored);
        FloodClosed(s, lo, h, rest, explored);
        ExpandedGrows(p, lo, h, x.0, e);
      } else {
        FloodProgress(lo, h, explored, x.0);
        assert Pending(s, lo, h, rest + x.1, x.0) by {
          forall q | q in x.0 && q !in s && q !in rest + x.1 ensures Expanded(q, lo, h, x.0) {
            if q != p {
              assert q in explored && q !in stack;
              ExpandedGrows(q, lo, h, explored, x.0);
            }
          }
        }
        FloodClosed(s, lo, h, rest + x.1, x.0);
        ExpandedGrows(p, lo, h, x.0, e);
      }
    }
  }

  lemma ExpandedGrows(p: Point, lo: int, h: int, a: set<Point>, b: set<Point>)
    requires Expanded(p, lo, h, a) && a <= b
    ensures Expanded(p, lo, h, b)
  {
  }

  /** A set closed under the flood fill's moves. */
  ghost predicate Closed(s: set<Point>, lo: int, h: int, c: set<Point>)
  {
    forall e :: e in c && e !in s ==> Expanded(e, lo, h, c)
  }

  /** The flood fill explores nothing beyond what any closed set containing
      its seeds must hold: it is the least such set. */
  lemma {:induction false} FloodLeast(s: set<Point>, lo: int, h: int, stack: seq<Point>, explored: set<Point>, c: set<Point>)
    requires forall q :: q in explored ==> InBox(q, lo, h)
    requires Closed(s, lo, h, c) && explored <= c
    requires forall p :: p in stack ==> Expanded(p, lo, h, c)
    ensures Flood(s, lo, h, stack, explored) <= c
    decreases Box(lo, h) - explored, |stack|
  {
    if stack != [] {
      var p := stack[|stack| - 1];
      var x := Expand(s, lo, h, p, explored);
      var rest := stack[..|stack| - 1];
      assert forall q :: q in rest ==> q in stack;
      assert p in stack;
      assert Expanded(p, lo, h, c);
      forall q | q in x.0 ensures q in c {
        if q !in explored {
          assert InBox(q, lo, h);
        }
      }
      if x.0 == explored {
        FloodLeast(s, lo, h, rest, explored, c);
      } else {
        FloodProgress(lo, h, explored, x.0);
        FloodLeast(s, lo, h, rest + x.1, x.0, c);
      }
    }
  }

  /** The row just above the highest surface cell, where the flood fill
      starts. */
  ghost function StartRow(s: set<Point>): int
  {
    MaxY(s) + 1
  }

  /** The cells explored from the row above the surface. */
  ghost function Explored(s: set<Point>): set<Point>
  {
    Flood(s, MinY(s), StartRow(s), Starts(StartRow(s)), {})
  }

  /** The source's recursion only returns if no explored empty cell lies in
      the lowest surface row: from such a cell it would descend forever. */
  ghost predicate Leaks(s: set<Point>)
  {
    exists x {:trigger (x, MinY(s)) in Explored(s)} :: (x, MinY(s)) in Explored(s) && (x, MinY(s)) !in s
  }

  /** `find_surface_topology`: the surface cells a rock falling from above
      can touch, normalised; `None` where the source would not return. */
  ghost function Topology(s: set<Point>): (r: Option<set<Point>>)
    ensures r.Some? <==> !Leaks(s)
  {
    if Leaks(s) then None else Some(Normalize(Explored(s) * s))
  }

  lemma ExploredClosed(s: set<Point>)
    ensures forall e :: e in Explored(s) ==> InBox(e, MinY(s), StartRow(s))
    ensures forall i :: 0 <= i < |Starts(StartRow(s))| ==> Expanded(Starts(StartRow(s))[i], MinY(s), StartRow(s), Explored(s))
    ensures Closed(s, MinY(s), StartRow(s), Explored(s))
  {
    FloodClosed(s, MinY(s), StartRow(s), Starts(StartRow(s)), {});
  }

  /** A set in which every seed of the start row has been expanded holds
      the whole start row. */
  lemma SeedsCoverRow(lo: int, h: int, e: set<Point>)
    requires lo <= h
    requires forall i :: 0 <= i < |Starts(h)| ==> Expanded(Starts(h)[i], lo, h, e)
    ensures forall x {:trigger (x, h) in e} :: 0 <= x < Width ==> (x, h) in e
  {
    var st := Starts(h);
    forall x | 0 <= x < Width ensures (x, h) in e {
      if x == 0 {
        assert Expanded(st[1], lo, h, e) && Left(st[1]) == (x, h);
      } else {
        assert Expanded(st[x - 1], lo, h, e) && Right(st[x - 1]) == (x, h);
      }
    }
  }

  /** Everything explored stays in the box, the seeds are expanded, the
      whole start row is explored, and the explored set is closed. */
  lemma ExploredShape(s: set<Point>)
    ensures forall e :: e in Explored(s) ==> InBox(e, MinY(s), StartRow(s))
    ensures forall i :: 0 <= i < |Starts(StartRow(s))| ==> Expanded(Starts(StartRow(s))[i], MinY(s), StartRow(s), Explored(s))
    ensures forall x {:trigger (x, StartRow(s)) in Explored(s)} :: 0 <= x < Width ==> (x, StartRow(s)) in Explored(s)
    ensures Closed(s, MinY(s), StartRow(s), Explored(s))
  {
    MinYAtMostMaxY(s);
    ExploredClosed(s);
    SeedsCoverRow(MinY(s), StartRow(s), Explored(s));
  }

  lemma SubsetCard<T>(a: set<T>, b: set<T>)
    requires a <= b
    ensures |a| <= |b|
  {
    assert b == a + (b - a);
    assert a * (b - a) == {};
  }

  /** Pruning keeps only cells of the input surface, moved to the zero
      baseline, and so only columns 0..6. */
  lemma TopologyKeepsSurfaceCells(s: set<Point>)
    requires Topology(s).Some?
    ensures forall q {:trigger q in Topology(s).value} :: q in Topology(s).value ==> Raise(q, MinY(Explored(s) * s)) in s
    ensures forall q :: q in Topology(s).value ==> InWidth(q)
  {
    var kept := Explored(s) * s;
    ExploredClosed(s);
    forall q | q in Topology(s).value ensures InWidth(q) {
      assert Raise(q, MinY(kept)) in kept;
    }
  }

  /** Pruning never keeps more cells than the input has, and its result has
      its lowest cell in row 0. */
  lemma TopologySizeAndBaseline(s: set<Point>)
    requires Topology(s).Some?
    ensures |Topology(s).value| <= |s|
    ensures MinY(Topology(s).value) == 0
  {
    var kept := Explored(s) * s;
    SubsetCard(kept, s);
  }

  /** Removing from a closed set a surface cell that no explored empty
      cell looks at keeps it closed. */
  lemma ClosedWithout(s: set<Point>, lo: int, h: int, c: set<Point>, p: Point)
    requires Closed(s, lo, h, c) && p in s
    requires forall e :: e in c && e !in s ==> p != Down(e) && p != Left(e) && p != Right(e)
    ensures Closed(s, lo, h, c - {p})
  {
  }

  /** Every kept cell is a surface cell next to an explored empty cell, or
      lies in the row the flood fill starts from. */
  lemma TopologyTouchesReachable(s: set<Point>, p: Point)
    requires p in Explored(s) * s
    ensures p.1 == StartRow(s) || exists e :: e in Explored(s) && e !in s && (p == Down(e) || p == Left(e) || p == Right(e))
  {
    var lo, h := MinY(s), StartRow(s);
    var e := Explored(s);
    if p.1 != h && !exists e :: e in Explored(s) && e !in s && (p == Down(e) || p == Left(e) || p == Right(e)) {
      // Without p the explored set is still closed and still holds the
      // seeds' neighbours, which contradicts leastness.
      ExploredShape(s);
      var c := e - {p};
      ClosedWithout(s, lo, h, e, p);
      forall i | 0 <= i < Width ensures Expanded(Starts(h)[i], lo, h, c) {
        var q := Starts(h)[i];
        assert q == (i, h) && q in e;
        AboveSurface(s, q);
        assert Expanded(q, lo, h, e);
      }
      FloodLeast(s, lo, h, Starts(h), {}, c);
    }
  }

  /** The floor row is a barrier: a surface whose lowest row is full never
      makes the flood fill descend forever. */
  lemma FullRowStopsFlood(s: set<Point>)
    requires FullRow(s, MinY(s))
    ensures Topology(s).Some?
  {
  }

  /** Walking down a column of a closed set from an explored cell reaches a
      surface cell, or an empty cell in the lowest row. */
  lemma {:induction false} ColumnDescent(s: set<Point>, lo: int, c: set<Point>, h: int, x: int, y: int)
    requires Closed(s, lo, h, c) && 0 <= x < Width && lo <= y <= h && (x, y) in c
    ensures exists y' {:trigger (x, y') in c} :: lo <= y' <= y && (x, y') in c && ((x, y') in s || y' == lo)
    decreases y - lo
  {
    if (x, y) !in s && y > lo {
      assert Expanded((x, y), lo, h, c);
      assert InBox(Down((x, y)), lo, h);
      ColumnDescent(s, lo, c, h, x, y - 1);
      var y' :| lo <= y' <= y - 1 && (x, y') in c && ((x, y') in s || y' == lo);
    } else {
      assert lo <= y <= y && (x, y) in c;
    }
  }

  /** A flood fill that does not leak finds at least one surface cell. */
  lemma TopologyNonEmpty(s: set<Point>)
    requires Topology(s).Some?
    ensures Topology(s).value != {}
  {
    var lo, h := MinY(s), StartRow(s);
    ExploredShape(s);
    var e := Explored(s);
    ColumnDescent(s, lo, e, h, 0, h);
    var y :| lo <= y <= h && (0, y) in e && ((0, y) in s || y == lo);
    assert (0, y) in e * s;
  }

  // ------------------------------------------------------------- no leaks

  /** Every surface cell lies in one of the seven columns. */
  ghost predicate InChamber(s: set<Point>)
  {
    forall p {:trigger p in s} :: p in s ==> InWidth(p)
  }

  /** A box cell above row `h` of a closed set, or a cell of that set, is
      still closed in a taller box: new rows only add room above. */
  lemma ClosedTaller(s: set<Point>, t: set<Point>, lo: int, h: int, h2: int, e: set<Point>)
    requires s <= t && lo <= h <= h2
    requires Closed(s, lo, h, e) && forall q :: q in e ==> InBox(q, lo, h)
    requires forall x {:trigger (x, h) in e} :: 0 <= x < Width ==> (x, h) in e
    ensures Closed(t, lo, h2, e + Box(h + 1, h2))
  {
    var c := e + Box(h + 1, h2);
    forall q | q in c && q !in t ensures Expanded(q, lo, h2, c) {
      if q in e {
        assert Expanded(q, lo, h, e);
      } else {
        assert h < q.1;
        if InBox(Down(q), lo, h2) {
          if q.1 - 1 > h {
            BoxMember(Down(q), h + 1, h2);
          } else {
            assert (q.0, h) in e;
          }
        }
        if InBox(Left(q), lo, h2) {
          BoxMember(Left(q), h + 1, h2);
        }
        if InBox(Right(q), lo, h2) {
          BoxMember(Right(q), h + 1, h2);
        }
      }
    }
  }

  /** The exploration of a bigger surface from a higher start row stays
      within a closed set of the smaller one plus the rows added above. */
  lemma TallerFloodWithin(s: set<Point>, t: set<Point>, lo: int, h: int, h2: int, e: set<Point>)
    requires s <= t && lo <= h <= h2
    requires Closed(s, lo, h, e) && forall q :: q in e ==> InBox(q, lo, h)
    requires forall x {:trigger (x, h) in e} :: 0 <= x < Width ==> (x, h) in e
    requires forall x {:trigger (x, h2) in t} :: (x, h2) !in t
    ensures Flood(t, lo, h2, Starts(h2), {}) <= e + Box(h + 1, h2)
  {
    var c := e + Box(h + 1, h2);
    ClosedTaller(s, t, lo, h, h2, e);
    var st := Starts(h2);
    forall i | 0 <= i < |st| ensures Expanded(st[i], lo, h2, c) {
      var q := st[i];
      assert q == (i, h2) && q !in t;
      if h2 > h {
        BoxMember(q, h + 1, h2);
      } else {
        assert q in e;
      }
    }
    forall q | q in c ensures InBox(q, lo, h2) {
    }
    FloodLeast(t, lo, h2, st, {}, c);
  }

  /** Settling cells no lower than the lowest surface row never opens a
      leak: the exploration of the bigger surface stays within the old
      exploration plus the new rows above it. */
  lemma AddNoLeak(s: set<Point>, r: set<Point>)
    requires s != {} && !Leaks(s)
    requires forall q {:trigger q in r} :: q in r ==> q.1 >= MinY(s)
    ensures MinY(s + r) == MinY(s)
    ensures !Leaks(s + r)
  {
    var t := s + r;
    var lo, h := MinY(s), StartRow(s);
    var p :| p in s && p.1 == lo;
    assert p in t;
    MinYUnique(t, lo);
    MaxYMonotone(s, t);
    MinYAtMostMaxY(s);
    var h2 := StartRow(t);
    ExploredShape(s);
    var e := Explored(s);
    forall x ensures (x, h2) !in t {
      AboveSurface(t, (x, h2));
    }
    TallerFloodWithin(s, t, lo, h, h2, e);
    assert Explored(t) == Flood(t, lo, h2, Starts(h2), {});
    forall x | (x, lo) in Explored(t) ensures (x, lo) in t {
      assert (x, lo) !in Box(h + 1, h2);
    }
  }

  /** The highest surface cell of a surface inside the chamber is reached
      from the row above it, so pruning keeps it. */
  lemma PruneKeepsTop(s: set<Point>)
    requires s != {} && InChamber(s)
    ensures Explored(s) * s != {}
    ensures MaxY(Explored(s) * s) == MaxY(s)
  {
    var lo, h := MinY(s), StartRow(s);
    var e := Explored(s);
    ExploredShape(s);
    MinYAtMostMaxY(s);
    var p :| p in s && p.1 == MaxY(s);
    var q := (p.0, h);
    assert q in e;
    AboveSurface(s, q);
    assert Expanded(q, lo, h, e);
    assert Down(q) == p;
    assert p in e * s;
    MaxYUnique(e * s, MaxY(s));
  }

  /** A set closed for a box stays closed for a box with a higher floor. */
  lemma ExpandedHigherFloor(q: Point, lo: int, m: int, h: int, c: set<Point>)
    requires Expanded(q, lo, h, c) && lo <= m
    ensures Expanded(q, m, h, c)
  {
  }

  /** Dropping from the surface cells a closed set never looks past, and
      raising the box's floor, keeps the set closed and its seeds expanded,
      so the smaller surface's exploration stays inside it. */
  lemma PrunedFloodWithin(s: set<Point>, lo: int, m: int, h: int, e: set<Point>)
    requires lo <= m && Closed(s, lo, h, e) && forall q :: q in e ==> InBox(q, lo, h)
    requires OpenRow(s, h, e)
    ensures Flood(e * s, m, h, Starts(h), {}) <= e
  {
    forall q | q in e && q !in e * s ensures Expanded(q, m, h, e) {
      ExpandedHigherFloor(q, lo, m, h, e);
    }
    var st := Starts(h);
    forall i | 0 <= i < |st| ensures Expanded(st[i], m, h, e) {
      assert st[i] == (i, h);
      assert (i, h) in e && (i, h) !in s;
      assert Expanded((i, h), lo, h, e);
      ExpandedHigherFloor(st[i], lo, m, h, e);
    }
    FloodLeast(e * s, m, h, st, {}, e);
  }

  /** Pruning the surface never lets the exploration reach further: the
      pruned surface's exploration stays within the original's. */
  lemma PruneExploresLess(s: set<Point>)
    requires s != {} && InChamber(s) && !Leaks(s)
    ensures Explored(s) * s != {}
    ensures MinY(s) <= MinY(Explored(s) * s)
    ensures Explored(Explored(s) * s) <= Explored(s)
  {
    var lo, h := MinY(s), StartRow(s);
    var e := Explored(s);
    var k := e * s;
    ExploredShape(s);
    PruneKeepsTop(s);
    var m := MinY(k);
    var p :| p in k && p.1 == m;
    StartRowOpen(s);
    PrunedFloodWithin(s, lo, m, h, e);
    ExploredFrom(k, m, h);
  }

  /** Normalising moves the highest row down by the lowest one. */
  lemma MaxYNormalized(s: set<Point>)
    requires s != {}
    ensures MaxY(Normalize(s)) == MaxY(s) - MinY(s)
  {
    var m := MinY(s);
    var t := Normalize(s);
    var p :| p in s && p.1 == MaxY(s);
    assert Raise(Raise(p, -m), m) == p;
    assert Raise(p, -m) in t;
    forall q | q in t ensures q.1 <= MaxY(s) - m {
      assert Raise(q, m) in s;
    }
    MaxYUnique(t, MaxY(s) - m);
  }

  /** A cell expanded in a closed set stays expanded once cell, box and set
      are all moved down by `m` rows. */
  lemma ExpandedLowered(q: Point, m: int, lo: int, h: int, c: set<Point>)
    requires Expanded(Raise(q, m), lo + m, h + m, c)
    ensures Expanded(q, lo, h, Lower(c, m))
  {
    var d := Lower(c, m);
    if InBox(Down(q), lo, h) {
      assert Raise(Down(q), m) == Down(Raise(q, m));
    }
    if InBox(Left(q), lo, h) {
      assert Raise(Left(q), m) == Left(Raise(q, m));
    }
    if InBox(Right(q), lo, h) {
      assert Raise(Right(q), m) == Right(Raise(q, m));
    }
  }

  /** A set closed for a surface, moved down by `m` rows together with the
      surface and the box (to rows `lo2` to `h2`), is still closed. */
  lemma LoweredClosed(k: set<Point>, t: set<Point>, m: int, lo: int, h: int, lo2: int, h2: int, c: set<Point>)
    requires Closed(k, lo, h, c) && lo2 == lo - m && h2 == h - m
    requires forall q {:trigger q in t} :: q in t <==> Raise(q, m) in k
    ensures Closed(t, lo2, h2, Lower(c, m))
  {
    var d := Lower(c, m);
    forall q | q in d && q !in t ensures Expanded(q, lo2, h2, d) {
      assert Raise(q, m) in c && Raise(q, m) !in k;
      ExpandedLowered(q, m, lo2, h2, c);
    }
  }

  /** Every cell of row `h` lies in `c` and not in the surface `k`. */
  ghost predicate OpenRow(k: set<Point>, h: int, c: set<Point>)
  {
    forall x {:trigger (x, h) in c} :: 0 <= x < Width ==> (x, h) in c && (x, h) !in k
  }

  /** The seeds of a moved box are expanded in the moved set when the
      original seeds were open cells of a closed set. */
  lemma LoweredSeeds(k: set<Point>, m: int, lo: int, h: int, lo2: int, h2: int, c: set<Point>)
    requires Closed(k, lo, h, c) && lo2 == lo - m && h2 == h - m
    requires OpenRow(k, h, c)
    ensures forall p :: p in Starts(h2) ==> Expanded(p, lo2, h2, Lower(c, m))
  {
    var st := Starts(h2);
    forall p | p in st ensures Expanded(p, lo2, h2, Lower(c, m)) {
      var i :| 0 <= i < |st| && st[i] == p;
      assert Raise(p, m) == (i, h);
      assert (i, h) in c && (i, h) !in k;
      ExpandedLowered(p, m, lo2, h2, c);
    }
  }

  lemma LoweredInBox(m: int, lo: int, h: int, lo2: int, h2: int, c: set<Point>)
    requires forall q :: q in c ==> InBox(q, lo, h)
    requires lo2 == lo - m && h2 == h - m
    ensures forall q :: q in Lower(c, m) ==> InBox(q, lo2, h2)
  {
    forall q | q in Lower(c, m) ensures InBox(q, lo2, h2) {
      assert InBox(Raise(q, m), lo, h);
    }
  }

  /** The row the exploration starts from is explored and free of
      surface cells. */
  lemma StartRowOpen(s: set<Point>)
    ensures OpenRow(s, StartRow(s), Explored(s))
  {
    ExploredShape(s);
    forall x | 0 <= x < Width ensures (x, StartRow(s)) !in s {
      AboveSurface(s, (x, StartRow(s)));
    }
  }

  /** A closed set moved down with its surface bounds the moved surface's
      exploration. */
  lemma LoweredFloodWithin(k: set<Point>, t: set<Point>, m: int, lo: int, h: int, lo2: int, h2: int, c: set<Point>)
    requires Closed(k, lo, h, c) && forall q :: q in c ==> InBox(q, lo, h)
    requires lo2 == lo - m && h2 == h - m
    requires forall q {:trigger q in t} :: q in t <==> Raise(q, m) in k
    requires OpenRow(k, h, c)
    ensures Flood(t, lo2, h2, Starts(h2), {}) <= Lower(c, m)
  {
    LoweredSeeds(k, m, lo, h, lo2, h2, c);
    LoweredClosed(k, t, m, lo, h, lo2, h2, c);
    LoweredInBox(m, lo, h, lo2, h2, c);
    FloodLeast(t, lo2, h2, Starts(h2), {}, Lower(c, m));
  }

  /** Moving a surface down moves its exploration down with it. */
  lemma NormalizeExploresWithin(k: set<Point>)
    requires k != {}
    ensures Explored(Normalize(k)) <= Lower(Explored(k), MinY(k))
  {
    var h2 := StartRow(k) - MinY(k);
    MaxYNormalized(k);
    ExploredFrom(Normalize(k), 0, h2);
    NormalizedFloodWithin(k, h2);
  }

  /** The exploration of a surface whose lowest row is `lo` and whose
      start row is `h`. */
  lemma ExploredFrom(s: set<Point>, lo: int, h: int)
    requires MinY(s) == lo && StartRow(s) == h
    ensures Explored(s) == Flood(s, lo, h, Starts(h), {})
  {
  }

  /** The flood of the normalised surface from its moved start row stays
      within the surface's exploration moved down. */
  lemma NormalizedFloodWithin(k: set<Point>, h2: int)
    requires k != {} && h2 == StartRow(k) - MinY(k)
    ensures Flood(Normalize(k), 0, h2, Starts(h2), {}) <= Lower(Explored(k), MinY(k))
  {
    var m, h := MinY(k), StartRow(k);
    ExploredShape(k);
    StartRowOpen(k);
    LoweredFloodWithin(k, Normalize(k), m, m, h, 0, h2, Explored(k));
  }

  /** Every cell explored in the normalised surface, raised back, was
      explored in the surface itself. */
  lemma NormalizeExploresLess(k: set<Point>)
    requires k != {}
    ensures forall q {:trigger q in Explored(Normalize(k))} :: q in Explored(Normalize(k)) ==> Raise(q, MinY(k)) in Explored(k)
  {
    NormalizeExploresWithin(k);
  }

  /** An open explored cell in row `m` of a column, where no explored
      surface cell lies below row `m`, leaves the lowest row of that column
      open and explored. */
  lemma DescentToFloor(s: set<Point>, lo: int, c: set<Point>, h: int, x: int, m: int)
    requires Closed(s, lo, h, c) && 0 <= x < Width && lo <= m <= h && (x, m) in c && (x, m) !in s
    requires forall p {:trigger p in c * s} :: p in c * s ==> m <= p.1
    ensures (x, lo) in c && (x, lo) !in s
  {
    ColumnDescent(s, lo, c, h, x, m);
    var y :| lo <= y <= m && (x, y) in c && ((x, y) in s || y == lo);
    assert (x, y) in s ==> (x, y) in c * s;
  }

  /** In a surface that does not leak, an explored cell in the lowest row
      of the pruned surface is a surface cell: below an open one the
      exploration would reach the lowest row. */
  lemma PrunedFloorSolid(s: set<Point>, x: int)
    requires s != {} && InChamber(s) && !Leaks(s)
    ensures (x, MinY(Explored(s) * s)) in Explored(s) ==> (x, MinY(Explored(s) * s)) in s
  {
    var lo, h := MinY(s), StartRow(s);
    var e := Explored(s);
    var k := e * s;
    var m := MinY(k);
    if (x, m) in e && (x, m) !in s {
      PruneExploresLess(s);
      ExploredShape(s);
      DescentToFloor(s, lo, e, h, x, m);
      assert Leaks(s);
    }
  }

  /** A surface whose explored cells in its lowest row are all surface
      cells still has that property once normalised: it does not leak. */
  lemma NormalizeNoLeak(k: set<Point>)
    requires k != {}
    requires forall x {:trigger (x, MinY(k)) in Explored(k)} :: (x, MinY(k)) in Explored(k) ==> (x, MinY(k)) in k
    ensures !Leaks(Normalize(k))
  {
    var m := MinY(k);
    var t := Normalize(k);
    NormalizeExploresLess(k);
    forall x | (x, 0) in Explored(t) ensures (x, 0) in t {
      assert Raise((x, 0), m) in Explored(k);
    }
    assert MinY(t) == 0;
  }

  /** The topology of a surface that does not leak does not leak either,
      and stays inside the chamber. */
  lemma TopologyNoLeak(s: set<Point>)
    requires s != {} && InChamber(s) && !Leaks(s)
    ensures Topology(s).Some?
    ensures InChamber(Topology(s).value) && Topology(s).value != {}
    ensures !Leaks(Topology(s).value)
  {
    var e := Explored(s);
    var k := e * s;
    TopologyKeepsSurfaceCells(s);
    TopologyNonEmpty(s);
    PruneExploresLess(s);
    forall x | (x, MinY(k)) in Explored(k) ensures (x, MinY(k)) in k {
      PrunedFloorSolid(s, x);
    }
    NormalizeNoLeak(k);
  }
}
