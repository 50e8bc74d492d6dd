/** The day 17 driver: rocks fall one after another, and a cache keyed by
    (rock index, jet index, normalised surface) detects a repeating state so
    that whole runs of repeats can be skipped arithmetically. */
module CycleSim {
  import opened Util
  import opened Surface
  import opened RockFall

  /** The cache key: which rock falls next, which jet blows next, and the
      surface shape with its lowest row at 0. */
  datatype CacheKey = CacheKey(rockIndex: nat, windIndex: nat, cells: set<Point>)

  /** The key's hash: the two indices only, never the cells. */
  function KeyHash(k: CacheKey): (nat, nat)
  {
    (k.rockIndex, k.windIndex)
  }

  /** A subset as large as its superset is the superset. */
  lemma SubsetSameCard<T>(a: set<T>, b: set<T>)
    requires a <= b && |a| == |b|
    ensures a == b
  {
    assert b == a + (b - a);
    assert |b - a| == 0;
  }

  /** The key's equality: same indices, same number of cells and every cell
      of `a` in `b`. It is exactly equality of keys, and equal keys hash
      alike, so the cache behaves as a map from keys by value. */
  method KeyEq(a: CacheKey, b: CacheKey) returns (r: bool)
    ensures r <==> a == b
    ensures r ==> KeyHash(a) == KeyHash(b)
  {
    if a.rockIndex != b.rockIndex || a.windIndex != b.windIndex || |a.cells| != |b.cells| {
      return false;
    }
    var todo := a.cells;
    while todo != {}
      invariant todo <= a.cells
      invariant a.cells - todo <= b.cells
      decreases |todo|
    {
      var p :| p in todo;
      if p !in b.cells {
        return false;
      }
      todo := todo - {p};
    }
    SubsetSameCard(a.cells, b.cells);
    return true;
  }

  /** What the cache remembers about the drop of rock number `count`: the
      height before it, the height it added, the jet index after it and
      the surface topology after it. */
  datatype Entry = Entry(count: nat, height: int, dh: int, wind: nat, next: set<Point>)

  /** The loop state of `simulate`. */
  datatype Sim = Sim(
    i: nat,                        // rocks accounted for so far
    height: int,                   // tower height after those rocks
    wind: nat,                     // next jet index
    surface: set<Point>,           // current surface
    cache: map<CacheKey, Entry>)

  /** The start: no rocks, height 0, and the floor in row -1. */
  function Init(): (r: Sim)
    ensures r.i == 0 && r.height == 0 && r.wind == 0 && r.cache == map[]
    ensures r.surface != {} && FullRow(r.surface, -1)
  {
    assert (0, -1) in Floor();
    Sim(0, 0, 0, Floor(), map[])
  }

  /** Every cache entry was recorded at an earlier rock with the same
      shape index, from a height no greater than the current one, and
      holds a non-negative gain, a valid jet index and a non-empty
      surface. */
  ghost predicate CacheValid(c: map<CacheKey, Entry>, i: nat, height: int, nRocks: nat, nJets: nat)
    requires nRocks > 0
  {
    forall k :: k in c ==>
      c[k].count < i && c[k].height <= height && c[k].dh >= 0 && c[k].wind < nJets
      && c[k].next != {} && k.rockIndex == c[k].count % nRocks
  }

  ghost predicate Valid(sim: Sim, nRocks: nat, nJets: nat)
    requires nRocks > 0
  {
    sim.wind < nJets && sim.height >= 0 && sim.surface != {}
    && CacheValid(sim.cache, sim.i, sim.height, nRocks, nJets)
  }

  /** The number of whole repeats of a cycle of `i - count` rocks that fit
      in the rocks still to fall. */
  function Repeats(i: nat, count: nat, cycles: nat): nat
    requires count < i <= cycles
  {
    (cycles - i) / (i - count)
  }

  /** The rock counter after a cache hit as the source computes it: the
      repeats are skipped and then one more rock is taken from the cache,
      whether or not any rocks remain. */
  function JumpAsWritten(i: nat, count: nat, cycles: nat): nat
    requires count < i <= cycles && Repeats(i, count, cycles) > 0
  {
    i + (i - count) * Repeats(i, count, cycles) + 1
  }

  /** The skipped repeats end exactly at `cycles` precisely when the rocks
      left are a whole number of cycles; the source's extra rock then
      overshoots `cycles` by one, so one rock's height too many is added. */
  lemma JumpAsWrittenOvershoots(i: nat, count: nat, cycles: nat)
    requires count < i <= cycles && Repeats(i, count, cycles) > 0
    ensures JumpAsWritten(i, count, cycles) <= cycles + 1
    ensures JumpAsWritten(i, count, cycles) == cycles + 1 <==> (cycles - i) % (i - count) == 0
  {
    var dc, left := i - count, cycles - i;
    assert left == dc * (left / dc) + left % dc;
  }

  /** A concrete case: rock 5 repeats the state of rock 3 with 7 rocks to
      drop in all; the counter ends at 8. */
  lemma JumpAsWrittenExample()
    ensures Repeats(5, 3, 7) == 1 && JumpAsWritten(5, 3, 7) == 8
  {
  }

  /** The corrected jump: the repeats are skipped and one more rock is
      taken from the cache only if rocks remain. Returns the new counter
      and whether the extra rock was taken. */
  function Jump(i: nat, count: nat, cycles: nat): (r: (nat, bool))
    requires count < i <= cycles
    ensures i <= r.0 <= cycles
    ensures r.1 <==> i + (i - count) * Repeats(i, count, cycles) < cycles
    ensures r.0 == i + (i - count) * Repeats(i, count, cycles) + (if r.1 then 1 else 0)
    ensures cycles - r.0 < i - count
  {
    var dc, left := i - count, cycles - i;
    var n := Repeats(i, count, cycles);
    assert left == dc * n + left % dc;
    var landed := i + dc * n;
    if landed < cycles then (landed + 1, true) else (landed, false)
  }

  /** Whenever the source's counter stays within `cycles`, the corrected
      jump agrees with it. */
  lemma JumpAgrees(i: nat, count: nat, cycles: nat)
    requires count < i <= cycles && Repeats(i, count, cycles) > 0
    requires JumpAsWritten(i, count, cycles) <= cycles
    ensures Jump(i, count, cycles) == (JumpAsWritten(i, count, cycles), true)
  {
  }

  /** A cycle whose two ends fall the same shape spans a multiple of the
      number of shapes, so the rock after any number of repeats has that
      shape too. */
  lemma JumpKeepsRock(i: nat, count: nat, n: nat, nRocks: nat)
    requires count < i && nRocks > 0 && i % nRocks == count % nRocks
    ensures (i + (i - count) * n) % nRocks == i % nRocks
  {
    var r := i % nRocks;
    var q1, q2 := i / nRocks, count / nRocks;
    assert i == q1 * nRocks + r;
    assert count == q2 * nRocks + r;
    assert i - count == (q1 - q2) * nRocks;
    assert (i - count) * n == (q1 - q2) * n * nRocks;
    assert i + (i - count) * n == (q1 + (q1 - q2) * n) * nRocks + r;
    ModUnique(i + (i - count) * n, q1 + (q1 - q2) * n, r, nRocks);
  }

  lemma MulNonNeg(a: int, b: int)
    requires a >= 0 && b >= 0
    ensures a * b >= 0
  {
  }

  /** The key `simulate` looks up before rock number `sim.i`, and the key it
      stores the drop under afterwards (the jet index before the drop). */
  ghost function KeyOf(sim: Sim, nRocks: nat): CacheKey
    requires nRocks > 0
  {
    CacheKey(sim.i % nRocks, sim.wind, Normalize(sim.surface))
  }

  /** A cache hit with at least one whole repeat left: the repeats are
      skipped, adding the cycle's height gain once per repeat, then the
      cached drop is applied if rocks remain. */
  ghost function Skip(sim: Sim, e: Entry, nRocks: nat, nJets: nat, cycles: nat): (r: Sim)
    requires nRocks > 0 && Valid(sim, nRocks, nJets) && sim.i < cycles
    requires KeyOf(sim, nRocks) in sim.cache && e == sim.cache[KeyOf(sim, nRocks)]
    requires Repeats(sim.i, e.count, cycles) > 0
    ensures Valid(r, nRocks, nJets)
    ensures sim.i < r.i <= cycles && sim.height <= r.height
  {
    var n := Repeats(sim.i, e.count, cycles);
    var (next, extra) := Jump(sim.i, e.count, cycles);
    MulNonNeg(sim.height - e.height, n);
    var height := sim.height + (sim.height - e.height) * n;
    if extra then Sim(next, height + e.dh, e.wind, e.next, sim.cache)
    else sim.(i := next, height := height)
  }

  /** Recording the drop of rock `e.count`, the current one, keeps the
      cache valid for the next rock. */
  lemma CacheInsert(c: map<CacheKey, Entry>, key: CacheKey, e: Entry, nRocks: nat, nJets: nat)
    requires nRocks > 0 && CacheValid(c, e.count, e.height, nRocks, nJets)
    requires e.dh >= 0 && e.wind < nJets && e.next != {} && key.rockIndex == e.count % nRocks
    ensures CacheValid(c[key := e], e.count + 1, e.height + e.dh, nRocks, nJets)
  {
  }

  /** The state after a dropped rock: the tower grows by the rise of the
      surface's highest row, the topology `next` becomes the surface and
      the cache records the drop under the key of the state before it. */
  ghost function Record(sim: Sim, l: Landing, next: set<Point>, nRocks: nat, nJets: nat): (r: Sim)
    requires nRocks > 0 && Valid(sim, nRocks, nJets)
    requires sim.surface <= l.surface && l.wind < nJets && next != {}
    ensures Valid(r, nRocks, nJets) && r.i == sim.i + 1
    ensures r.height == sim.height + MaxY(l.surface) - MaxY(sim.surface) >= sim.height
    ensures r.wind == l.wind && r.surface == next
    ensures KeyOf(sim, nRocks) in r.cache
  {
    MaxYMonotone(sim.surface, l.surface);
    var dh := MaxY(l.surface) - MaxY(sim.surface);
    var e := Entry(sim.i, sim.height, dh, l.wind, next);
    CacheInsert(sim.cache, KeyOf(sim, nRocks), e, nRocks, nJets);
    Sim(sim.i + 1, sim.height + dh, l.wind, next, sim.cache[KeyOf(sim, nRocks) := e])
  }

  /** No usable cache hit: rock `sim.i` is dropped, the topology of the new
      surface is taken and the cache records the drop. `None` where the
      source never returns: a rock with no cells, a rock that falls forever
      or a surface open to the bottom. */
  ghost function Fresh(sim: Sim, rocks: seq<Rock>, jets: seq<char>): (r: Option<Sim>)
    requires |rocks| > 0 && |jets| > 0 && Valid(sim, |rocks|, |jets|)
    ensures r.Some? ==> Valid(r.value, |rocks|, |jets|)
    ensures r.Some? ==> r.value.i == sim.i + 1 && sim.height <= r.value.height
    ensures r.Some? ==> KeyOf(sim, |rocks|) in r.value.cache
  {
    var rock := rocks[sim.i % |rocks|];
    if |rock.points| == 0 then None
    else
      match Drop(sim.surface, rock, jets, sim.wind)
      case None => None
      case Some(l) =>
        match Topology(l.surface)
        case None => None
        case Some(next) =>
          FallLands(sim.surface, MinY(sim.surface), rock.points, SpawnColumn, SpawnRow(sim.surface), jets, sim.wind);
          TopologyNonEmpty(l.surface);
          Some(Record(sim, l, next, |rocks|, |jets|))
  }

  /** A dropped rock that lands on a closed surface raises the tower by
      exactly the rise of the surface's highest row. */
  lemma FreshGrowth(sim: Sim, rocks: seq<Rock>, jets: seq<char>, l: Landing)
    requires |rocks| > 0 && |jets| > 0 && Valid(sim, |rocks|, |jets|)
    requires |rocks[sim.i % |rocks|].points| > 0
    requires Drop(sim.surface, rocks[sim.i % |rocks|], jets, sim.wind) == Some(l)
    requires Topology(l.surface).Some?
    ensures Fresh(sim, rocks, jets).Some?
    ensures Fresh(sim, rocks, jets).value.height == sim.height + MaxY(l.surface) - MaxY(sim.surface)
  {
  }

  /** One pass of the loop of `simulate`. */
  ghost function Step(sim: Sim, rocks: seq<Rock>, jets: seq<char>, cycles: nat): (r: Option<Sim>)
    requires |rocks| > 0 && |jets| > 0 && Valid(sim, |rocks|, |jets|) && sim.i < cycles
    ensures r.Some? ==> Valid(r.value, |rocks|, |jets|)
    ensures r.Some? ==> sim.i < r.value.i <= cycles && sim.height <= r.value.height
  {
    var key := KeyOf(sim, |rocks|);
    if key in sim.cache && Repeats(sim.i, sim.cache[key].count, cycles) > 0 then
      Some(Skip(sim, sim.cache[key], |rocks|, |jets|, cycles))
    else
      Fresh(sim, rocks, jets)
  }

  /** A cache hit always lands on a rock of the shape the hit was keyed
      on: the skip spans whole rounds of the shape list. */
  lemma StepJumpKeepsRock(sim: Sim, rocks: seq<Rock>, jets: seq<char>, cycles: nat)
    requires |rocks| > 0 && |jets| > 0 && Valid(sim, |rocks|, |jets|) && sim.i < cycles
    requires CacheKey(sim.i % |rocks|, sim.wind, Normalize(sim.surface)) in sim.cache
    ensures var e := sim.cache[CacheKey(sim.i % |rocks|, sim.wind, Normalize(sim.surface))];
      (sim.i + (sim.i - e.count) * Repeats(sim.i, e.count, cycles)) % |rocks| == sim.i % |rocks|
  {
    var e := sim.cache[CacheKey(sim.i % |rocks|, sim.wind, Normalize(sim.surface))];
    JumpKeepsRock(sim.i, e.count, Repeats(sim.i, e.count, cycles), |rocks|);
  }

  /** The loop of `simulate`, from `sim` until `cycles` rocks are
      accounted for. */
  ghost function Run(sim: Sim, rocks: seq<Rock>, jets: seq<char>, cycles: nat): (r: Option<Sim>)
    requires |rocks| > 0 && |jets| > 0 && Valid(sim, |rocks|, |jets|) && sim.i <= cycles
    ensures r.Some? ==> Valid(r.value, |rocks|, |jets|)
    ensures r.Some? ==> r.value.i == cycles && sim.height <= r.value.height
    decreases cycles - sim.i
  {
    if sim.i == cycles then Some(sim)
    else
      match Step(sim, rocks, jets, cycles)
      case None => None
      case Some(next) => Run(next, rocks, jets, cycles)
  }

  /** `simulate(rocks, jets, cycles)` with the corrected jump: the tower
      height after `cycles` rocks, or `None` where the source would not
      return. With no rocks at all, or no jets, the first rock already
      panics (the shape index `i % rocks.len()`, or the first jet lookup),
      so only zero rocks give a height. */
  ghost function Simulate(rocks: seq<Rock>, jets: seq<char>, cycles: nat): (r: Option<int>)
    ensures r.Some? ==> r.value >= 0
    ensures cycles == 0 ==> r == Some(0)
    ensures cycles > 0 && (|rocks| == 0 || |jets| == 0) ==> r.None?
  {
    if cycles == 0 then Some(0)
    else if |rocks| == 0 || |jets| == 0 then None
    else
      match Run(Init(), rocks, jets, cycles)
      case None => None
      case Some(s) => Some(s.height)
  }

  // -------------------------------------------------- the loop as written

  /** A cache stays valid for a later rock at a greater height. */
  lemma CacheValidGrows(c: map<CacheKey, Entry>, i: nat, height: int, i2: nat, height2: int, nRocks: nat, nJets: nat)
    requires nRocks > 0 && CacheValid(c, i, height, nRocks, nJets) && i <= i2 && height <= height2
    ensures CacheValid(c, i2, height2, nRocks, nJets)
  {
  }

  /** The source's skip: the counter jumps over the repeats and then one
      more cached rock is always applied, even when the repeats already
      reach `cycles`. */
  ghost function SkipAsWritten(sim: Sim, e: Entry, nRocks: nat, nJets: nat, cycles: nat): (r: Sim)
    requires nRocks > 0 && Valid(sim, nRocks, nJets) && sim.i < cycles
    requires KeyOf(sim, nRocks) in sim.cache && e == sim.cache[KeyOf(sim, nRocks)]
    requires Repeats(sim.i, e.count, cycles) > 0
    ensures Valid(r, nRocks, nJets)
    ensures sim.i < r.i <= cycles + 1 && sim.height + e.dh <= r.height
    ensures r.surface == e.next && r.wind == e.wind && r.cache == sim.cache
  {
    var next := JumpAsWritten(sim.i, e.count, cycles);
    JumpAsWrittenOvershoots(sim.i, e.count, cycles);
    var gain := (sim.height - e.height) * Repeats(sim.i, e.count, cycles);
    MulNonNeg(sim.height - e.height, Repeats(sim.i, e.count, cycles));
    CacheValidGrows(sim.cache, sim.i, sim.height, next, sim.height + gain + e.dh, nRocks, nJets);
    Sim(next, sim.height + gain + e.dh, e.wind, e.next, sim.cache)
  }

  /** One pass of the loop of `simulate` as written. */
  ghost function StepAsWritten(sim: Sim, rocks: seq<Rock>, jets: seq<char>, cycles: nat): (r: Option<Sim>)
    requires |rocks| > 0 && |jets| > 0 && Valid(sim, |rocks|, |jets|) && sim.i < cycles
    ensures r.Some? ==> Valid(r.value, |rocks|, |jets|)
    ensures r.Some? ==> sim.i < r.value.i <= cycles + 1 && sim.height <= r.value.height
  {
    var key := KeyOf(sim, |rocks|);
    if key in sim.cache && Repeats(sim.i, sim.cache[key].count, cycles) > 0 then
      Some(SkipAsWritten(sim, sim.cache[key], |rocks|, |jets|, cycles))
    else
      Fresh(sim, rocks, jets)
  }

  /** The loop of `simulate` as written: it runs while fewer than `cycles`
      rocks are accounted for, so a skip that overshoots ends it at
      `cycles + 1`. */
  ghost function RunAsWritten(sim: Sim, rocks: seq<Rock>, jets: seq<char>, cycles: nat): (r: Option<Sim>)
    requires |rocks| > 0 && |jets| > 0 && Valid(sim, |rocks|, |jets|) && sim.i <= cycles + 1
    ensures r.Some? ==> cycles <= r.value.i <= cycles + 1 || (r.value == sim && sim.i > cycles)
    ensures r.Some? ==> Valid(r.value, |rocks|, |jets|) && sim.height <= r.value.height
    decreases cycles + 1 - sim.i
  {
    if sim.i >= cycles then Some(sim)
    else
      match StepAsWritten(sim, rocks, jets, cycles)
      case None => None
      case Some(next) => RunAsWritten(next, rocks, jets, cycles)
  }

  /** `simulate(rocks, jets, cycles)` exactly as written. */
  ghost function SimulateAsWritten(rocks: seq<Rock>, jets: seq<char>, cycles: nat): (r: Option<int>)
    ensures r.Some? ==> r.value >= 0
    ensures cycles == 0 ==> r == Some(0)
    ensures cycles > 0 && (|rocks| == 0 || |jets| == 0) ==> r.None?
  {
    if cycles == 0 then Some(0)
    else if |rocks| == 0 || |jets| == 0 then None
    else
      match RunAsWritten(Init(), rocks, jets, cycles)
      case None => None
      case Some(s) => Some(s.height)
  }

  /** One pass as written agrees with the corrected pass, except after a
      skip whose repeats end exactly at `cycles`: then the source's counter
      is one past `cycles` and its height is one cached drop higher than
      the corrected state, which stops at `cycles` with the same key. */
  lemma StepAsWrittenVsStep(sim: Sim, rocks: seq<Rock>, jets: seq<char>, cycles: nat)
    requires |rocks| > 0 && |jets| > 0 && Valid(sim, |rocks|, |jets|) && sim.i < cycles
    ensures StepAsWritten(sim, rocks, jets, cycles).Some? <==> Step(sim, rocks, jets, cycles).Some?
    ensures StepAsWritten(sim, rocks, jets, cycles).Some? ==>
      var a, c := StepAsWritten(sim, rocks, jets, cycles).value, Step(sim, rocks, jets, cycles).value;
      a == c
      || (a.i == cycles + 1 && c.i == cycles && c.cache == sim.cache && KeyOf(c, |rocks|) in c.cache
          && a.height == c.height + c.cache[KeyOf(c, |rocks|)].dh)
  {
    var key := KeyOf(sim, |rocks|);
    if key in sim.cache && Repeats(sim.i, sim.cache[key].count, cycles) > 0 {
      var e := sim.cache[key];
      var (next, extra) := Jump(sim.i, e.count, cycles);
      JumpAsWrittenOvershoots(sim.i, e.count, cycles);
      if extra {
        JumpAgrees(sim.i, e.count, cycles);
      } else {
        StepJumpKeepsRock(sim, rocks, jets, cycles);
        var c := Skip(sim, e, |rocks|, |jets|, cycles);
        assert c == sim.(i := next, height := c.height);
        assert KeyOf(c, |rocks|) == key;
      }
    }
  }

  /** The loop as written ends where the corrected loop ends, with the same
      state, unless its last skip overshot: then it has counted one rock
      past `cycles` and its height is one cached drop higher. */
  lemma {:induction false} RunAsWrittenVsRun(sim: Sim, rocks: seq<Rock>, jets: seq<char>, cycles: nat)
    requires |rocks| > 0 && |jets| > 0 && Valid(sim, |rocks|, |jets|) && sim.i <= cycles
    ensures RunAsWritten(sim, rocks, jets, cycles).Some? <==> Run(sim, rocks, jets, cycles).Some?
    ensures RunAsWritten(sim, rocks, jets, cycles).Some? ==>
      var a, c := RunAsWritten(sim, rocks, jets, cycles).value, Run(sim, rocks, jets, cycles).value;
      (a.i == cycles && a == c)
      || (a.i == cycles + 1 && KeyOf(c, |rocks|) in c.cache
          && a.height == c.height + c.cache[KeyOf(c, |rocks|)].dh)
    ensures RunAsWritten(sim, rocks, jets, cycles).Some? ==>
      Run(sim, rocks, jets, cycles).value.height <= RunAsWritten(sim, rocks, jets, cycles).value.height
    decreases cycles - sim.i
  {
    if sim.i < cycles {
      StepAsWrittenVsStep(sim, rocks, jets, cycles);
      var a := StepAsWritten(sim, rocks, jets, cycles);
      if a.Some? {
        var c := Step(sim, rocks, jets, cycles).value;
        if a.value == c {
          RunAsWrittenVsRun(c, rocks, jets, cycles);
        }
      }
    }
  }

  /** The source's answer is defined exactly when the corrected one is,
      and is never lower. */
  lemma SimulateAsWrittenVsSimulate(rocks: seq<Rock>, jets: seq<char>, cycles: nat)
    ensures SimulateAsWritten(rocks, jets, cycles).Some? <==> Simulate(rocks, jets, cycles).Some?
    ensures Simulate(rocks, jets, cycles).Some? ==>
      Simulate(rocks, jets, cycles).value <= SimulateAsWritten(rocks, jets, cycles).value
  {
    if cycles > 0 && |rocks| > 0 && |jets| > 0 {
      var init := Init();
      var a, c := RunAsWritten(init, rocks, jets, cycles), Run(init, rocks, jets, cycles);
      RunAsWrittenVsRun(init, rocks, jets, cycles);
      assert Simulate(rocks, jets, cycles) == if c.Some? then Some(c.value.height) else None;
      assert SimulateAsWritten(rocks, jets, cycles) == if a.Some? then Some(a.value.height) else None;
    }
  }

  /** The floor: lowest and highest row -1. */
  lemma FloorRows()
    ensures MinY(Floor()) == -1 && MaxY(Floor()) == -1 && FullRow(Floor(), MinY(Floor()))
    ensures FlatFloor(Floor())
  {
    assert (0, -1) in Floor();
    MinYUnique(Floor(), -1);
    MaxYUnique(Floor(), -1);
  }

  /** A flat shape that hits a surface lying entirely in row -1 when
      moved one row down rests in row 0. */
  lemma RestsOnRowZero(s: set<Point>, shape: seq<Point>, x: int, y: int)
    requires forall p {:trigger p in s} :: p in s ==> p.1 == -1
    requires forall i :: 0 <= i < |shape| ==> shape[i].1 == 0
    requires Hits(s, shape, x, y - 1)
    ensures y == 0
  {
    HitsIff(s, shape, x, y - 1);
    var i :| 0 <= i < |shape| && Shift(shape[i], x, y - 1) in s;
  }

  /** A surface lying entirely in one full row -1, like the floor. */
  ghost predicate FlatFloor(s: set<Point>)
  {
    (0, -1) in s && FullRow(s, -1) && forall p {:trigger p in s} :: p in s ==> p.1 == -1
  }

  /** A flat shape falling onto a flat floor rests in row 0. */
  lemma FlatRests(s: set<Point>, shape: seq<Point>, x: int, y: int, jets: seq<char>, wind: nat)
    requires FlatFloor(s) && |jets| > 0 && wind < |jets| && |shape| > 0
    requires forall i :: 0 <= i < |shape| ==> shape[i].1 == 0
    requires Fall(s, -1, shape, x, y, jets, wind).Some?
    ensures Fall(s, -1, shape, x, y, jets, wind).value.y == 0
  {
    var l := Fall(s, -1, shape, x, y, jets, wind).value;
    FallLands(s, -1, shape, x, y, jets, wind);
    RestsOnRowZero(s, shape, l.x, l.y);
  }

  /** A flat floor's lowest row is -1. */
  lemma FlatFloorMinY(s: set<Point>)
    requires FlatFloor(s)
    ensures MinY(s) == -1
  {
    assert (0, -1) in s;
    MinYUnique(s, -1);
  }

  lemma FlatFloorMaxY(s: set<Point>)
    requires FlatFloor(s)
    ensures MaxY(s) == -1
  {
    assert (0, -1) in s;
    MaxYUnique(s, -1);
  }

  /** Every cell of the horizontal bar lies in its row 0. */
  lemma BarIsFlat()
    ensures |Rocks[0].points| > 0
    ensures forall i :: 0 <= i < |Rocks[0].points| ==> Rocks[0].points[i].1 == 0
  {
    assert Rocks[0].points == [(0, 0), (1, 0), (2, 0), (3, 0)];
  }

  /** The horizontal bar dropped on a flat floor rests in row 0. */
  lemma FirstDrop(s: set<Point>, jets: seq<char>, wind: nat)
    requires FlatFloor(s) && |jets| > 0 && wind < |jets|
    ensures Drop(s, Rocks[0], jets, wind).Some?
    ensures Drop(s, Rocks[0], jets, wind).value.y == 0
  {
    FlatFloorMinY(s);
    DropOnBarrier(s, 0, jets, wind);
    BarIsFlat();
    FlatRests(s, Rocks[0].points, SpawnColumn, SpawnRow(s), jets, wind);
  }

  /** The cells a flat shape adds in row 0 on top of a flat floor leave a
      surface spanning rows -1 and 0 whose lowest row is full. */
  lemma FlatOnFlat(s: set<Point>, shape: seq<Point>, x: int)
    requires FlatFloor(s) && |shape| > 0
    requires forall i :: 0 <= i < |shape| ==> shape[i].1 == 0
    ensures var t := s + Cells(shape, x, 0);
      MinY(t) == -1 && MaxY(t) == 0 && FullRow(t, MinY(t))
  {
    var t := s + Cells(shape, x, 0);
    CellsIff(shape, x, 0, Shift(shape[0], x, 0));
    assert (0, -1) in t;
    forall p | p in t ensures -1 <= p.1 <= 0 {
      CellsIff(shape, x, 0, p);
    }
    MinYUnique(t, -1);
    MaxYUnique(t, 0);
  }

  /** After the bar the surface spans rows -1 and 0 and its lowest row is
      full. */
  lemma FirstSurface(s: set<Point>, jets: seq<char>, wind: nat)
    requires FlatFloor(s) && |jets| > 0 && wind < |jets|
    ensures Drop(s, Rocks[0], jets, wind).Some?
    ensures var t := Drop(s, Rocks[0], jets, wind).value.surface;
      MinY(t) == -1 && MaxY(t) == 0 && FullRow(t, MinY(t))
  {
    FirstDrop(s, jets, wind);
    FlatFloorMinY(s);
    BarIsFlat();
    var l := Drop(s, Rocks[0], jets, wind).value;
    FallLands(s, -1, Rocks[0].points, SpawnColumn, SpawnRow(s), jets, wind);
    FlatOnFlat(s, Rocks[0].points, l.x);
  }

  /** The first rock, the horizontal bar, drops from row 3 onto a flat
      floor: it comes to rest in row 0 and the floor stays a full row below
      it, so the surface is closed and the tower grows by one row. */
  lemma FirstFresh(s: set<Point>, jets: seq<char>)
    requires FlatFloor(s) && |jets| > 0
    ensures Fresh(Sim(0, 0, 0, s, map[]), Rocks, jets).Some?
    ensures Fresh(Sim(0, 0, 0, s, map[]), Rocks, jets).value.i == 1
    ensures Fresh(Sim(0, 0, 0, s, map[]), Rocks, jets).value.height == 1
  {
    var sim := Sim(0, 0, 0, s, map[]);
    FlatFloorMaxY(s);
    FirstSurface(s, jets, 0);
    var l := Drop(s, Rocks[0], jets, 0).value;
    FullRowStopsFlood(l.surface);
    BarIsFlat();
    assert sim.i == 0 && |Rocks| == 5;
    assert sim.i % |Rocks| == 0 % 5 == 0;
    assert (0, -1) in s;
    assert CacheValid(map[], 0, 0, |Rocks|, |jets|);
    FreshGrowth(sim, Rocks, jets, l);
  }

  /** Simulating a single rock yields a tower one row high. */
  lemma FirstRock(jets: seq<char>)
    requires |jets| > 0
    ensures Simulate(Rocks, jets, 1) == Some(1)
  {
    FloorRows();
    FirstFresh(Floor(), jets);
    assert Step(Init(), Rocks, jets, 1) == Fresh(Init(), Rocks, jets);
  }

  // -------------------------------------------------- the loop never sticks

  /** The surface and every cached surface lie inside the chamber and do
      not leak: what keeps every exploration and every fall finite. */
  ghost predicate Sealed(sim: Sim)
  {
    InChamber(sim.surface) && !Leaks(sim.surface)
    && forall k :: k in sim.cache ==> InChamber(sim.cache[k].next) && !Leaks(sim.cache[k].next)
  }

  /** The floor is sealed. */
  lemma InitSealed()
    ensures Sealed(Init())
  {
    FloorRows();
    FullRowStopsFlood(Floor());
  }

  /** On a sealed state a catalogue rock always lands, its topology always
      exists, and the state after it is sealed again. */
  lemma FreshSealed(sim: Sim, jets: seq<char>)
    requires |jets| > 0 && Valid(sim, |Rocks|, |jets|) && Sealed(sim)
    ensures Fresh(sim, Rocks, jets).Some?
    ensures Sealed(Fresh(sim, Rocks, jets).value)
  {
    var k := sim.i % |Rocks|;
    CatalogueShapes(k);
    DropSealed(sim.surface, k, jets, sim.wind);
    var l := Drop(sim.surface, Rocks[k], jets, sim.wind).value;
    assert sim.surface <= l.surface;
    TopologyNoLeak(l.surface);
    var next := Topology(l.surface).value;
    FreshIsRecord(sim, jets, l, next);
    RecordSealed(sim, l, next, |Rocks|, |jets|);
  }

  /** A catalogue rock that lands, with a topology, is recorded. */
  lemma FreshIsRecord(sim: Sim, jets: seq<char>, l: Landing, next: set<Point>)
    requires |jets| > 0 && Valid(sim, |Rocks|, |jets|)
    requires |Rocks[sim.i % |Rocks|].points| > 0
    requires Drop(sim.surface, Rocks[sim.i % |Rocks|], jets, sim.wind) == Some(l)
    requires Topology(l.surface) == Some(next)
    requires sim.surface <= l.surface && l.wind < |jets| && next != {}
    ensures Fresh(sim, Rocks, jets) == Some(Record(sim, l, next, |Rocks|, |jets|))
  {
  }

  /** Recording a drop whose topology is sealed keeps the state sealed. */
  lemma RecordSealed(sim: Sim, l: Landing, next: set<Point>, nRocks: nat, nJets: nat)
    requires nRocks > 0 && Valid(sim, nRocks, nJets) && Sealed(sim)
    requires sim.surface <= l.surface && l.wind < nJets && next != {}
    requires InChamber(next) && !Leaks(next)
    ensures Sealed(Record(sim, l, next, nRocks, nJets))
  {
  }

  /** From a sealed state one pass of the loop, corrected or as written,
      always finishes and leaves a sealed state. */
  lemma StepSealed(sim: Sim, jets: seq<char>, cycles: nat)
    requires |jets| > 0 && Valid(sim, |Rocks|, |jets|) && Sealed(sim) && sim.i < cycles
    ensures Step(sim, Rocks, jets, cycles).Some? && Sealed(Step(sim, Rocks, jets, cycles).value)
    ensures StepAsWritten(sim, Rocks, jets, cycles).Some?
    ensures Sealed(StepAsWritten(sim, Rocks, jets, cycles).value)
  {
    var key := KeyOf(sim, |Rocks|);
    if !(key in sim.cache && Repeats(sim.i, sim.cache[key].count, cycles) > 0) {
      FreshSealed(sim, jets);
    }
  }

  /** From a sealed state the loop always finishes. */
  lemma {:induction false} RunSealed(sim: Sim, jets: seq<char>, cycles: nat)
    requires |jets| > 0 && Valid(sim, |Rocks|, |jets|) && Sealed(sim) && sim.i <= cycles
    ensures Run(sim, Rocks, jets, cycles).Some?
    decreases cycles - sim.i
  {
    if sim.i < cycles {
      StepSealed(sim, jets, cycles);
      RunSealed(Step(sim, Rocks, jets, cycles).value, jets, cycles);
    }
  }

  /** With the source's five shapes and at least one jet, the simulation
      always returns a height, corrected or as written, for any number of
      rocks. */
  lemma SimulateDefined(jets: seq<char>, cycles: nat)
    requires |jets| > 0
    ensures Simulate(Rocks, jets, cycles).Some?
    ensures SimulateAsWritten(Rocks, jets, cycles).Some?
  {
    if cycles > 0 {
      InitSealed();
      RunSealed(Init(), jets, cycles);
      SimulateAsWrittenVsSimulate(Rocks, jets, cycles);
    }
  }
}
