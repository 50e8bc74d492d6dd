/** One rock falling through the chamber (day 17): spawning, pushes by the
    jets of hot gas, and the fall that stops when the next row down would
    overlap the settled surface. Every move shifts all cells of a rock
    alike, so a falling rock is its shape plus the position of its corner. */
module RockFall {
  import opened Util
  import opened Surface

  /** A rock shape: the offsets of its cells from its lower-left corner. */
  datatype Rock = Rock(points: seq<Point>)

  /** The five shapes, in the order they fall: `-`, `+`, mirrored `L`,
      `|` and the square. */
  const Rocks: seq<Rock> := [
    Rock([(0, 0), (1, 0), (2, 0), (3, 0)]),
    Rock([(1, 0), (0, 1), (1, 1), (2, 1), (1, 2)]),
    Rock([(0, 0), (1, 0), (2, 0), (2, 1), (2, 2)]),
    Rock([(0, 0), (0, 1), (0, 2), (0, 3)]),
    Rock([(0, 0), (1, 0), (0, 1), (1, 1)])
  ]

  /** A shape offset placed with its corner at (`x`, `y`). */
  function Shift(p: Point, x: int, y: int): Point
  {
    (p.0 + x, p.1 + y)
  }

  /** Some cell of `shape` placed at (`x`, `y`) overlaps the surface. */
  function Hits(s: set<Point>, shape: seq<Point>, x: int, y: int): bool
  {
    |shape| > 0 && (Shift(shape[0], x, y) in s || Hits(s, shape[1..], x, y))
  }

  /** Every cell of `shape` placed at column `x` lies inside the seven
      columns. */
  function Fits(shape: seq<Point>, x: int): bool
  {
    |shape| == 0 || (InWidth(Shift(shape[0], x, 0)) && Fits(shape[1..], x))
  }

  /** The cells of `shape` placed at (`x`, `y`). */
  function Cells(shape: seq<Point>, x: int, y: int): set<Point>
  {
    if |shape| == 0 then {} else {Shift(shape[0], x, y)} + Cells(shape[1..], x, y)
  }

  lemma {:induction false} HitsIff(s: set<Point>, shape: seq<Point>, x: int, y: int)
    ensures Hits(s, shape, x, y) <==> exists i :: 0 <= i < |shape| && Shift(shape[i], x, y) in s
    decreases |shape|
  {
    if |shape| > 0 {
      HitsIff(s, shape[1..], x, y);
      if Hits(s, shape[1..], x, y) {
        var i :| 0 <= i < |shape[1..]| && Shift(shape[1..][i], x, y) in s;
        assert Shift(shape[i + 1], x, y) in s;
      }
      forall i | 1 <= i < |shape| && Shift(shape[i], x, y) in s
        ensures Hits(s, shape[1..], x, y)
      {
        assert shape[1..][i - 1] == shape[i];
      }
    }
  }

  lemma {:induction false} FitsIff(shape: seq<Point>, x: int)
    ensures Fits(shape, x) <==> forall i :: 0 <= i < |shape| ==> InWidth(Shift(shape[i], x, 0))
    decreases |shape|
  {
    if |shape| > 0 {
      FitsIff(shape[1..], x);
      assert forall i :: 1 <= i < |shape| ==> shape[1..][i - 1] == shape[i];
    }
  }

  lemma {:induction false} CellsIff(shape: seq<Point>, x: int, y: int, p: Point)
    ensures p in Cells(shape, x, y) <==> exists i :: 0 <= i < |shape| && Shift(shape[i], x, y) == p
    decreases |shape|
  {
    if |shape| > 0 {
      CellsIff(shape[1..], x, y, p);
      if p in Cells(shape[1..], x, y) {
        var i :| 0 <= i < |shape[1..]| && Shift(shape[1..][i], x, y) == p;
        assert Shift(shape[i + 1], x, y) == p;
      }
      forall i | 1 <= i < |shape| && Shift(shape[i], x, y) == p
        ensures p in Cells(shape[1..], x, y)
      {
        assert shape[1..][i - 1] == shape[i];
      }
    }
  }

  /** The surface and a placed rock that does not hit it share no cell. */
  lemma {:induction false} MissDisjoint(s: set<Point>, shape: seq<Point>, x: int, y: int)
    requires !Hits(s, shape, x, y)
    ensures s * Cells(shape, x, y) == {}
    decreases |shape|
  {
    if |shape| > 0 {
      MissDisjoint(s, shape[1..], x, y);
    }
  }

  /** The highest row offset of a non-empty shape. */
  function Top(shape: seq<Point>): (m: int)
    requires |shape| > 0
    ensures exists i :: 0 <= i < |shape| && shape[i].1 == m
    ensures forall i :: 0 <= i < |shape| ==> shape[i].1 <= m
  {
    if |shape| == 1 then shape[0].1
    else Max(Top(shape[..|shape| - 1]), shape[|shape| - 1].1)
  }

  /** The lowest row offset of a non-empty shape. */
  function Bottom(shape: seq<Point>): (m: int)
    requires |shape| > 0
    ensures exists i :: 0 <= i < |shape| && shape[i].1 == m
    ensures forall i :: 0 <= i < |shape| ==> m <= shape[i].1
  {
    if |shape| == 1 then shape[0].1
    else Min(Bottom(shape[..|shape| - 1]), shape[|shape| - 1].1)
  }

  /** The column shift of one jet: `>` right, `<` left, anything else
      (such as a trailing newline) none. */
  function JetShift(jet: char): int
  {
    if jet == '>' then 1 else if jet == '<' then -1 else 0
  }

  /** The start position of a rock's corner: two columns from the left
      wall, with its lowest row three empty rows above the highest surface
      cell. */
  const SpawnColumn: int := 2

  ghost function SpawnRow(s: set<Point>): int
  {
    MaxY(s) + 1 + 3
  }

  /** A shape whose first cell is in row offset 0, with no cell below it
      and no column offset beyond 3, has its lowest row at 0 and fits the
      chamber at the spawn column. */
  lemma ShapeFacts(shape: seq<Point>)
    requires |shape| > 0 && shape[0].1 == 0
    requires forall i :: 0 <= i < |shape| ==> 0 <= shape[i].1 && 0 <= shape[i].0 <= 3
    ensures Bottom(shape) == 0 && Fits(shape, SpawnColumn)
  {
    var j :| 0 <= j < |shape| && shape[j].1 == Bottom(shape);
    FitsIff(shape, SpawnColumn);
  }

  /** Each catalogue shape has its lowest row at offset 0 and fits the
      chamber at the spawn column. */
  lemma CatalogueShapes(k: nat)
    requires k < |Rocks|
    ensures |Rocks[k].points| > 0 && Bottom(Rocks[k].points) == 0 && Fits(Rocks[k].points, SpawnColumn)
  {
    var shape := Rocks[k].points;
    if k == 0 {
      assert shape == [(0, 0), (1, 0), (2, 0), (3, 0)];
    } else if k == 1 {
      assert shape == [(1, 0), (0, 1), (1, 1), (2, 1), (1, 2)];
    } else if k == 2 {
      assert shape == [(0, 0), (1, 0), (2, 0), (2, 1), (2, 2)];
    } else if k == 3 {
      assert shape == [(0, 0), (0, 1), (0, 2), (0, 3)];
    } else {
      assert shape == [(0, 0), (1, 0), (0, 1), (1, 1)];
    }
    ShapeFacts(shape);
  }

  /** Each catalogue rock spawns inside the chamber, clear of the surface,
      with its lowest cell exactly in row `MaxY(s) + 4`: rows `MaxY(s) + 1`
      to `MaxY(s) + 3` hold neither surface nor rock. */
  lemma SpawnProperties(k: nat, s: set<Point>)
    requires k < |Rocks|
    ensures var shape := Rocks[k].points;
      |shape| > 0 && Fits(shape, SpawnColumn) && !Hits(s, shape, SpawnColumn, SpawnRow(s))
      && Bottom(shape) + SpawnRow(s) == MaxY(s) + 4
  {
    var shape := Rocks[k].points;
    CatalogueShapes(k);
    HitsIff(s, shape, SpawnColumn, SpawnRow(s));
    forall i | 0 <= i < |shape| ensures Shift(shape[i], SpawnColumn, SpawnRow(s)) !in s {
      AboveSurface(s, Shift(shape[i], SpawnColumn, SpawnRow(s)));
    }
  }

  /** The column shift a jet actually applies to `shape` with its corner at
      (`x`, `y`): its own shift if the moved rock stays inside the chamber
      and clear of the surface, else none. */
  function PushShift(s: set<Point>, shape: seq<Point>, x: int, y: int, jet: char): (dx: int)
    ensures dx == 0 || dx == JetShift(jet)
  {
    var nx := x + JetShift(jet);
    if !Hits(s, shape, nx, y) && Fits(shape, nx) then JetShift(jet) else 0
  }

  /** A push is taken exactly when the moved rock stays inside the chamber
      and clear of the surface, so a rock inside the chamber and clear of
      the surface stays so. */
  lemma PushProperties(s: set<Point>, shape: seq<Point>, x: int, y: int, jet: char)
    ensures var nx := x + JetShift(jet);
      JetShift(jet) != 0 ==> (PushShift(s, shape, x, y, jet) != 0 <==> !Hits(s, shape, nx, y) && Fits(shape, nx))
    ensures var nx := x + PushShift(s, shape, x, y, jet);
      !Hits(s, shape, x, y) && Fits(shape, x) ==> !Hits(s, shape, nx, y) && Fits(shape, nx)
  {
  }

  /** Where a falling rock comes to rest. */
  datatype Landing = Landing(
    wind: nat,             // the jet index after the last push
    surface: set<Point>,   // the surface with the rock's cells added
    x: int,                // the column of the rock's corner at rest
    y: int,                // the row of the rock's corner at rest
    pushes: nat)           // the number of jets consumed

  /** The measure of a fall: the rows left between the rock's top and `lo`. */
  function Height(shape: seq<Point>, y: int, lo: int): nat
    requires |shape| > 0
  {
    if Top(shape) + y >= lo then Top(shape) + y - lo + 1 else 0
  }

  /** `simulate_rock_fall` with the rock's corner at (`x`, `y`): alternately
      a push by jet `wind` and a step down, until the step down would
      overlap the surface. `lo` is a row no surface cell lies below (the
      lowest surface row, as `Drop` passes it); `None` where the source
      loops forever: once the whole rock is below that row nothing can stop
      it. */
  ghost function Fall(s: set<Point>, lo: int, shape: seq<Point>, x: int, y: int, jets: seq<char>, wind: nat): (r: Option<Landing>)
    requires |jets| > 0 && wind < |jets| && |shape| > 0
    ensures r.Some? ==> r.value.pushes >= 1 && r.value.wind < |jets|
    ensures r.Some? ==> r.value.y == y + 1 - r.value.pushes
    decreases Height(shape, y, lo)
  {
    if Top(shape) + y < lo then None
    else
      var nx := x + PushShift(s, shape, x, y, jets[wind]);
      var w := (wind + 1) % |jets|;
      if Hits(s, shape, nx, y - 1) then
        Some(Landing(w, s + Cells(shape, nx, y), nx, y, 1))
      else
        match Fall(s, lo, shape, nx, y - 1, jets, w)
        case None => None
        case Some(l) => Some(l.(pushes := l.pushes + 1))
  }

  /** One step of `Fall` that does not land: the rest of the fall, one
      more push. */
  lemma FallStep(s: set<Point>, lo: int, shape: seq<Point>, x: int, y: int, jets: seq<char>, wind: nat)
    requires |jets| > 0 && wind < |jets| && |shape| > 0 && Top(shape) + y >= lo
    requires !Hits(s, shape, x + PushShift(s, shape, x, y, jets[wind]), y - 1)
    ensures var nx := x + PushShift(s, shape, x, y, jets[wind]);
      var rest := Fall(s, lo, shape, nx, y - 1, jets, (wind + 1) % |jets|);
      Fall(s, lo, shape, x, y, jets, wind)
        == if rest.None? then None else Some(rest.value.(pushes := rest.value.pushes + 1))
  {
  }

  /** One step of `Fall` that lands where the push left the rock. */
  lemma FallStop(s: set<Point>, lo: int, shape: seq<Point>, x: int, y: int, jets: seq<char>, wind: nat)
    requires |jets| > 0 && wind < |jets| && |shape| > 0 && Top(shape) + y >= lo
    requires Hits(s, shape, x + PushShift(s, shape, x, y, jets[wind]), y - 1)
    ensures var nx := x + PushShift(s, shape, x, y, jets[wind]);
      Fall(s, lo, shape, x, y, jets, wind)
        == Some(Landing((wind + 1) % |jets|, s + Cells(shape, nx, y), nx, y, 1))
  {
  }

  /** A falling rock consumes one jet per push, cyclically: it ends at jet
      index `wind + pushes` modulo the number of jets. */
  lemma {:induction false} FallWind(s: set<Point>, lo: int, shape: seq<Point>, x: int, y: int, jets: seq<char>, wind: nat)
    requires |jets| > 0 && wind < |jets| && |shape| > 0
    requires Fall(s, lo, shape, x, y, jets, wind).Some?
    ensures Fall(s, lo, shape, x, y, jets, wind).value.wind
      == (wind + Fall(s, lo, shape, x, y, jets, wind).value.pushes) % |jets|
    decreases Height(shape, y, lo)
  {
    var nx := x + PushShift(s, shape, x, y, jets[wind]);
    var w := (wind + 1) % |jets|;
    if Hits(s, shape, nx, y - 1) {
      FallStop(s, lo, shape, x, y, jets, wind);
    } else {
      FallStep(s, lo, shape, x, y, jets, wind);
      FallWind(s, lo, shape, nx, y - 1, jets, w);
      var l := Fall(s, lo, shape, nx, y - 1, jets, w).value;
      ModSucc(wind, l.pushes, |jets|);
      assert l.wind == (wind + (l.pushes + 1)) % |jets|;
    }
  }

  /** Where a falling rock stops, its cells are added to the surface and
      the row below it is blocked. */
  lemma {:induction false} FallLands(s: set<Point>, lo: int, shape: seq<Point>, x: int, y: int, jets: seq<char>, wind: nat)
    requires |jets| > 0 && wind < |jets| && |shape| > 0
    requires Fall(s, lo, shape, x, y, jets, wind).Some?
    ensures var l := Fall(s, lo, shape, x, y, jets, wind).value;
      l.surface == s + Cells(shape, l.x, l.y) && Hits(s, shape, l.x, l.y - 1)
    decreases Height(shape, y, lo)
  {
    var nx := x + PushShift(s, shape, x, y, jets[wind]);
    if Hits(s, shape, nx, y - 1) {
      FallStop(s, lo, shape, x, y, jets, wind);
    } else {
      FallStep(s, lo, shape, x, y, jets, wind);
      FallLands(s, lo, shape, nx, y - 1, jets, (wind + 1) % |jets|);
    }
  }

  /** A rock that starts inside the chamber and clear of the surface
      comes to rest inside the chamber and clear of it. */
  lemma {:induction false} FallStaysClear(s: set<Point>, lo: int, shape: seq<Point>, x: int, y: int, jets: seq<char>, wind: nat)
    requires |jets| > 0 && wind < |jets| && |shape| > 0
    requires Fall(s, lo, shape, x, y, jets, wind).Some?
    requires !Hits(s, shape, x, y) && Fits(shape, x)
    ensures var l := Fall(s, lo, shape, x, y, jets, wind).value;
      !Hits(s, shape, l.x, l.y) && Fits(shape, l.x)
    decreases Height(shape, y, lo)
  {
    var nx := x + PushShift(s, shape, x, y, jets[wind]);
    PushProperties(s, shape, x, y, jets[wind]);
    if Hits(s, shape, nx, y - 1) {
      FallStop(s, lo, shape, x, y, jets, wind);
    } else {
      FallStep(s, lo, shape, x, y, jets, wind);
      FallStaysClear(s, lo, shape, nx, y - 1, jets, (wind + 1) % |jets|);
    }
  }

  /** A placed cell that lies in the surface makes the rock hit it. */
  lemma HitsAt(s: set<Point>, shape: seq<Point>, x: int, y: int, i: int)
    requires 0 <= i < |shape|
    ensures Shift(shape[i], x, y) in s ==> Hits(s, shape, x, y)
  {
    HitsIff(s, shape, x, y);
  }

  /** A placed cell of a fitting rock lies inside the chamber. */
  lemma FitsAt(shape: seq<Point>, x: int, i: int)
    requires 0 <= i < |shape| && Fits(shape, x)
    ensures 0 <= shape[i].0 + x < Width
  {
    FitsIff(shape, x);
    assert InWidth(Shift(shape[i], x, 0));
  }

  /** A fitting rock moved down one row that stays clear of a full row
      `y0` is still above that row. */
  lemma StepAboveRow(s: set<Point>, shape: seq<Point>, x: int, y: int, y0: int)
    requires |shape| > 0 && FullRow(s, y0) && Fits(shape, x)
    requires Bottom(shape) + y > y0 && !Hits(s, shape, x, y - 1)
    ensures Bottom(shape) + y - 1 > y0
  {
    var i :| 0 <= i < |shape| && shape[i].1 == Bottom(shape);
    FitsAt(shape, x, i);
    HitsAt(s, shape, x, y - 1, i);
    assert (shape[i].0 + x, y0) in s;
  }

  /** A full lowest row is a barrier: a rock inside the chamber and above
      that row always comes to rest. */
  lemma {:induction false} FullRowStopsFall(s: set<Point>, shape: seq<Point>, x: int, y: int, jets: seq<char>, wind: nat)
    requires |jets| > 0 && wind < |jets| && |shape| > 0
    requires FullRow(s, MinY(s)) && !Hits(s, shape, x, y) && Fits(shape, x)
    requires Bottom(shape) + y > MinY(s)
    ensures Fall(s, MinY(s), shape, x, y, jets, wind).Some?
    decreases Height(shape, y, MinY(s))
  {
    var lo := MinY(s);
    var nx := x + PushShift(s, shape, x, y, jets[wind]);
    PushProperties(s, shape, x, y, jets[wind]);
    if Hits(s, shape, nx, y - 1) {
      FallStop(s, lo, shape, x, y, jets, wind);
    } else {
      StepAboveRow(s, shape, nx, y, lo);
      FallStep(s, lo, shape, x, y, jets, wind);
      FullRowStopsFall(s, shape, nx, y - 1, jets, (wind + 1) % |jets|);
    }
  }

  /** A full row `y0` is never crossed: a rock inside the chamber and
      above it comes to rest above it. */
  lemma {:induction false} FallStaysAbove(s: set<Point>, lo: int, shape: seq<Point>, x: int, y: int, jets: seq<char>, wind: nat, y0: int)
    requires |jets| > 0 && wind < |jets| && |shape| > 0
    requires FullRow(s, y0) && !Hits(s, shape, x, y) && Fits(shape, x) && Bottom(shape) + y > y0
    requires Fall(s, lo, shape, x, y, jets, wind).Some?
    ensures Bottom(shape) + Fall(s, lo, shape, x, y, jets, wind).value.y > y0
    decreases Height(shape, y, lo)
  {
    var nx := x + PushShift(s, shape, x, y, jets[wind]);
    PushProperties(s, shape, x, y, jets[wind]);
    if Hits(s, shape, nx, y - 1) {
      FallStop(s, lo, shape, x, y, jets, wind);
    } else {
      StepAboveRow(s, shape, nx, y, y0);
      FallStep(s, lo, shape, x, y, jets, wind);
      FallStaysAbove(s, lo, shape, nx, y - 1, jets, (wind + 1) % |jets|, y0);
    }
  }

  /** `simulate_rock_fall`: rock `rock` spawns above the surface and falls
      with jets from index `wind`. */
  ghost function Drop(s: set<Point>, rock: Rock, jets: seq<char>, wind: nat): (r: Option<Landing>)
    requires |jets| > 0 && wind < |jets| && |rock.points| > 0
  {
    Fall(s, MinY(s), rock.points, SpawnColumn, SpawnRow(s), jets, wind)
  }

  /** A catalogue rock dropped on a surface with a full lowest row comes to
      rest clear of the surface and inside the chamber, adding exactly its
      cells, and the surface never gets lower. */
  lemma DropOnBarrier(s: set<Point>, k: nat, jets: seq<char>, wind: nat)
    requires |jets| > 0 && wind < |jets| && k < |Rocks|
    requires s != {} && FullRow(s, MinY(s))
    ensures Drop(s, Rocks[k], jets, wind).Some?
    ensures var l := Drop(s, Rocks[k], jets, wind).value;
      !Hits(s, Rocks[k].points, l.x, l.y) && Fits(Rocks[k].points, l.x)
      && l.surface == s + Cells(Rocks[k].points, l.x, l.y)
      && |l.surface| == |s| + |Cells(Rocks[k].points, l.x, l.y)|
    ensures MaxY(s) <= MaxY(Drop(s, Rocks[k], jets, wind).value.surface)
  {
    var shape, y := Rocks[k].points, SpawnRow(s);
    SpawnProperties(k, s);
    MinYAtMostMaxY(s);
    FullRowStopsFall(s, shape, SpawnColumn, y, jets, wind);
    FallLands(s, MinY(s), shape, SpawnColumn, y, jets, wind);
    FallStaysClear(s, MinY(s), shape, SpawnColumn, y, jets, wind);
    var l := Drop(s, Rocks[k], jets, wind).value;
    MissDisjoint(s, shape, l.x, l.y);
    MaxYMonotone(s, l.surface);
  }

  // ----------------------------------------------- falls on a sealed surface

  /** A cell a falling rock can occupy on surface `s`: above the row the
      exploration starts from, or explored and free of surface. */
  ghost predicate Open(s: set<Point>, p: Point)
  {
    p.1 > StartRow(s) || (p in Explored(s) && p !in s)
  }

  /** Every cell of `shape` placed at (`x`, `y`) is open. */
  ghost predicate ShapeOpen(s: set<Point>, shape: seq<Point>, x: int, y: int)
  {
    forall i :: 0 <= i < |shape| ==> Open(s, Shift(shape[i], x, y))
  }

  /** On a surface that does not leak, an open cell lies above the lowest
      surface row. */
  lemma OpenAboveFloor(s: set<Point>, p: Point)
    requires s != {} && !Leaks(s) && Open(s, p)
    ensures p.1 > MinY(s)
  {
    MinYAtMostMaxY(s);
    if p.1 <= StartRow(s) {
      ExploredShape(s);
      assert p == (p.0, p.1);
      assert p.1 == MinY(s) ==> (p.0, MinY(s)) in Explored(s) && (p.0, MinY(s)) !in s;
    }
  }

  /** An open cell stays open when moved sideways onto a chamber cell that
      is free of surface. */
  lemma OpenSideways(s: set<Point>, p: Point, q: Point)
    requires Open(s, p) && (q == Left(p) || q == Right(p)) && InWidth(q) && q !in s
    ensures Open(s, q)
  {
    if p.1 <= StartRow(s) {
      ExploredShape(s);
      assert Expanded(p, MinY(s), StartRow(s), Explored(s));
    }
  }

  /** An open cell stays open when moved down onto a chamber cell that is
      free of surface, as long as the surface does not leak. */
  lemma OpenDown(s: set<Point>, p: Point)
    requires s != {} && !Leaks(s) && Open(s, p) && InWidth(p) && Down(p) !in s
    ensures Open(s, Down(p))
  {
    ExploredShape(s);
    if p.1 <= StartRow(s) {
      OpenAboveFloor(s, p);
      assert Expanded(p, MinY(s), StartRow(s), Explored(s));
    } else if p.1 - 1 == StartRow(s) {
      assert Down(p) == (p.0, StartRow(s));
    }
  }

  /** A push the jet actually applies keeps every cell of the rock open. */
  lemma ShapeOpenPush(s: set<Point>, shape: seq<Point>, x: int, y: int, nx: int)
    requires ShapeOpen(s, shape, x, y) && (nx == x - 1 || nx == x || nx == x + 1)
    requires Fits(shape, nx) && !Hits(s, shape, nx, y)
    ensures ShapeOpen(s, shape, nx, y)
  {
    forall i | 0 <= i < |shape| ensures Open(s, Shift(shape[i], nx, y)) {
      var p, q := Shift(shape[i], x, y), Shift(shape[i], nx, y);
      FitsAt(shape, nx, i);
      HitsAt(s, shape, nx, y, i);
      if nx == x - 1 {
        assert q == Left(p);
        OpenSideways(s, p, q);
      } else if nx == x + 1 {
        assert q == Right(p);
        OpenSideways(s, p, q);
      }
    }
  }

  /** A step down onto cells free of surface keeps every cell of the rock
      open, as long as the surface does not leak. */
  lemma ShapeOpenDown(s: set<Point>, shape: seq<Point>, x: int, y: int)
    requires s != {} && !Leaks(s) && ShapeOpen(s, shape, x, y)
    requires Fits(shape, x) && !Hits(s, shape, x, y - 1)
    ensures ShapeOpen(s, shape, x, y - 1)
  {
    forall i | 0 <= i < |shape| ensures Open(s, Shift(shape[i], x, y - 1)) {
      var p := Shift(shape[i], x, y);
      FitsAt(shape, x, i);
      HitsAt(s, shape, x, y - 1, i);
      assert Down(p) == Shift(shape[i], x, y - 1);
      OpenDown(s, p);
    }
  }

  /** On a surface that does not leak, a rock whose cells are all open and
      inside the chamber always comes to rest, with its cells still open:
      it can only move through cells the exploration reached, and those
      never include the lowest row. */
  lemma {:induction false} FallOpen(s: set<Point>, shape: seq<Point>, x: int, y: int, jets: seq<char>, wind: nat)
    requires |jets| > 0 && wind < |jets| && |shape| > 0
    requires s != {} && !Leaks(s) && ShapeOpen(s, shape, x, y) && Fits(shape, x)
    ensures Fall(s, MinY(s), shape, x, y, jets, wind).Some?
    ensures var l := Fall(s, MinY(s), shape, x, y, jets, wind).value;
      ShapeOpen(s, shape, l.x, l.y)
    decreases Height(shape, y, MinY(s))
  {
    var lo := MinY(s);
    var nx := x + PushShift(s, shape, x, y, jets[wind]);
    PushOpen(s, shape, x, y, jets[wind]);
    if Hits(s, shape, nx, y - 1) {
      FallStop(s, lo, shape, x, y, jets, wind);
    } else {
      ShapeOpenDown(s, shape, nx, y);
      FallStep(s, lo, shape, x, y, jets, wind);
      FallOpen(s, shape, nx, y - 1, jets, (wind + 1) % |jets|);
    }
  }

  /** A jet push keeps an open rock open and inside the chamber, and an
      open rock reaches at least the lowest surface row. */
  lemma PushOpen(s: set<Point>, shape: seq<Point>, x: int, y: int, c: char)
    requires |shape| > 0 && s != {} && !Leaks(s) && ShapeOpen(s, shape, x, y) && Fits(shape, x)
    ensures Top(shape) + y >= MinY(s)
    ensures var nx := x + PushShift(s, shape, x, y, c);
      ShapeOpen(s, shape, nx, y) && Fits(shape, nx)
  {
    OpenAboveFloor(s, Shift(shape[0], x, y));
    var nx := x + PushShift(s, shape, x, y, c);
    PushProperties(s, shape, x, y, c);
    assert JetShift(c) in {-1, 0, 1};
    HitsIff(s, shape, x, y);
    if nx != x {
      ShapeOpenPush(s, shape, x, y, nx);
    }
  }

  /** A spawned catalogue rock is open: it lies above the row the
      exploration starts from. */
  lemma SpawnOpen(s: set<Point>, k: nat)
    requires k < |Rocks|
    ensures ShapeOpen(s, Rocks[k].points, SpawnColumn, SpawnRow(s))
  {
    var shape := Rocks[k].points;
    SpawnProperties(k, s);
    forall i | 0 <= i < |shape| ensures Open(s, Shift(shape[i], SpawnColumn, SpawnRow(s))) {
      assert Bottom(shape) <= shape[i].1;
    }
  }

  /** The cells of an open rock inside the chamber lie inside the chamber
      and above the lowest surface row. */
  lemma OpenCells(s: set<Point>, shape: seq<Point>, x: int, y: int)
    requires s != {} && !Leaks(s) && ShapeOpen(s, shape, x, y) && Fits(shape, x)
    ensures forall q {:trigger q in Cells(shape, x, y)} :: q in Cells(shape, x, y) ==> q.1 >= MinY(s) && InWidth(q)
  {
    forall q | q in Cells(shape, x, y) ensures q.1 >= MinY(s) && InWidth(q) {
      CellsIff(shape, x, y, q);
      var i :| 0 <= i < |shape| && Shift(shape[i], x, y) == q;
      OpenAboveFloor(s, q);
      FitsAt(shape, x, i);
    }
  }

  /** A catalogue rock dropped on a surface inside the chamber that does
      not leak always comes to rest, adding exactly its own cells, and the
      new surface is inside the chamber and does not leak either. */
  lemma DropSealed(s: set<Point>, k: nat, jets: seq<char>, wind: nat)
    requires |jets| > 0 && wind < |jets| && k < |Rocks|
    requires s != {} && InChamber(s) && !Leaks(s)
    ensures Drop(s, Rocks[k], jets, wind).Some?
    ensures var l := Drop(s, Rocks[k], jets, wind).value;
      l.surface == s + Cells(Rocks[k].points, l.x, l.y)
      && InChamber(l.surface) && !Leaks(l.surface) && MinY(l.surface) == MinY(s)
  {
    var shape, y := Rocks[k].points, SpawnRow(s);
    SpawnProperties(k, s);
    SpawnOpen(s, k);
    FallOpen(s, shape, SpawnColumn, y, jets, wind);
    FallLands(s, MinY(s), shape, SpawnColumn, y, jets, wind);
    FallStaysClear(s, MinY(s), shape, SpawnColumn, y, jets, wind);
    var l := Drop(s, Rocks[k], jets, wind).value;
    var cells := Cells(shape, l.x, l.y);
    OpenCells(s, shape, l.x, l.y);
    AddNoLeak(s, cells);
  }
}
