/** Day 19: robot factories. Each minute the factory may build the robot
    it is saving for, once the resources suffice; every robot gathers one
    unit of its resource per minute. A depth-first search over which robot
    to save for next gives the most geodes in the time allowed. */
module Geodes {
  import opened Util

  datatype Robot = Ore | Clay | Obsidian | Geode

  /** One count per kind, in the order ore, clay, obsidian, geode: robots
      or resources. */
  datatype Counts = Counts(ore: int, clay: int, obsidian: int, geode: int)

  predicate Nonneg(c: Counts)
  {
    c.ore >= 0 && c.clay >= 0 && c.obsidian >= 0 && c.geode >= 0
  }

  function Plus(a: Counts, b: Counts): Counts
  {
    Counts(a.ore + b.ore, a.clay + b.clay, a.obsidian + b.obsidian, a.geode + b.geode)
  }

  /** One more robot of kind `r`. */
  function Bump(c: Counts, r: Robot): (s: Counts)
    ensures r.Ore? <==> s.ore == c.ore + 1
    ensures r.Clay? <==> s.clay == c.clay + 1
    ensures r.Obsidian? <==> s.obsidian == c.obsidian + 1
    ensures r.Geode? <==> s.geode == c.geode + 1
    ensures !r.Ore? ==> s.ore == c.ore
    ensures !r.Clay? ==> s.clay == c.clay
    ensures !r.Obsidian? ==> s.obsidian == c.obsidian
    ensures !r.Geode? ==> s.geode == c.geode
  {
    match r
    case Ore => c.(ore := c.ore + 1)
    case Clay => c.(clay := c.clay + 1)
    case Obsidian => c.(obsidian := c.obsidian + 1)
    case Geode => c.(geode := c.geode + 1)
  }

  /** `ResourceMonitor`: robots, resources, and the robot being saved
      for. */
  datatype Monitor = Monitor(robots: Counts, resources: Counts, toBuild: Robot)

  /** `ResourceMonitor::new`: no robots, the cost of an ore robot in
      hand, saving for an ore robot. */
  function New(oreBotCost: int): (m: Monitor)
    ensures m.robots == Counts(0, 0, 0, 0) && m.toBuild == Ore
    ensures m.resources.ore == oreBotCost
    ensures m.resources.clay == 0 && m.resources.obsidian == 0 && m.resources.geode == 0
  {
    Monitor(Counts(0, 0, 0, 0), Counts(oreBotCost, 0, 0, 0), Ore)
  }

  /** `increment`: every robot gathers one unit. */
  function Increment(m: Monitor): (r: Monitor)
    ensures r.robots == m.robots && r.toBuild == m.toBuild
    ensures r.resources.ore - m.resources.ore == m.robots.ore
    ensures r.resources.clay - m.resources.clay == m.robots.clay
    ensures r.resources.obsidian - m.resources.obsidian == m.robots.obsidian
    ensures r.resources.geode - m.resources.geode == m.robots.geode
  {
    m.(resources := Plus(m.resources, m.robots))
  }

  // ------------------------------------------------------------- blueprints

  /** A blueprint: the ore cost of ore and clay robots, the (ore, clay)
      cost of an obsidian robot, the (ore, obsidian) cost of a geode
      robot, and the largest ore cost. */
  datatype Blueprint = Blueprint(ore: int, clay: int, obsidian: (int, int), geode: (int, int), maxOre: int)

  /** `Blueprint::from_vec`: the six numbers of a blueprint line; `None`
      where the source would index past the end. The largest ore cost is
      the maximum of the four ore costs. */
  function FromVec(v: seq<int>): (r: Option<Blueprint>)
    ensures r.None? <==> |v| < 6
    ensures r.Some? ==> r.value.ore == v[0] && r.value.clay == v[1]
    ensures r.Some? ==> r.value.obsidian == (v[2], v[3]) && r.value.geode == (v[4], v[5])
    ensures r.Some? ==> r.value.maxOre >= v[0] && r.value.maxOre >= v[1] &&
                        r.value.maxOre >= v[2] && r.value.maxOre >= v[4]
    ensures r.Some? ==> r.value.maxOre in {v[0], v[1], v[2], v[4]}
  {
    if |v| < 6 then None
    else Some(Blueprint(v[0], v[1], (v[2], v[3]), (v[4], v[5]), Max(Max(v[0], v[1]), Max(v[2], v[4]))))
  }

  /** The resources suffice for robot `r`. */
  predicate Affords(res: Counts, bp: Blueprint, r: Robot)
  {
    match r
    case Ore => res.ore >= bp.ore
    case Clay => res.ore >= bp.clay
    case Obsidian => res.ore >= bp.obsidian.0 && res.clay >= bp.obsidian.1
    case Geode => res.ore >= bp.geode.0 && res.obsidian >= bp.geode.1
  }

  /** The resources after paying for robot `r`. */
  function Pay(res: Counts, bp: Blueprint, r: Robot): (p: Counts)
    ensures p.geode == res.geode
    ensures Nonneg(res) && Affords(res, bp, r) ==> Nonneg(p)
  {
    match r
    case Ore => res.(ore := res.ore - bp.ore)
    case Clay => res.(ore := res.ore - bp.clay)
    case Obsidian => res.(ore := res.ore - bp.obsidian.0, clay := res.clay - bp.obsidian.1)
    case Geode => res.(ore := res.ore - bp.geode.0, obsidian := res.obsidian - bp.geode.1)
  }

  // ---------------------------------------------------------------- search

  /** One minute of the build loop: pay for the robot if affordable,
      gather with the robots there were at the start of the minute, then
      add the new robot. */
  function Minute(m: Monitor, bp: Blueprint): (r: (Monitor, bool))
    ensures r.1 <==> Affords(m.resources, bp, m.toBuild)
    ensures r.0.toBuild == m.toBuild
    ensures r.0.resources == Plus(if r.1 then Pay(m.resources, bp, m.toBuild) else m.resources, m.robots)
    ensures r.0.robots == if r.1 then Bump(m.robots, m.toBuild) else m.robots
  {
    var built := Affords(m.resources, bp, m.toBuild);
    var paid := if built then m.(resources := Pay(m.resources, bp, m.toBuild)) else m;
    var gathered := Increment(paid);
    (if built then gathered.(robots := Bump(gathered.robots, m.toBuild)) else gathered, built)
  }

  /** The build loop of `get_max_geodes`: minutes pass until the robot is
      built or the time runs out; returns the state and the time left. */
  function Wait(m: Monitor, bp: Blueprint, t: int): (r: (Monitor, int))
    ensures t <= 0 ==> r == (m, t)
    ensures t > 0 ==> 0 <= r.1 < t
    ensures r.0.toBuild == m.toBuild
    ensures Nonneg(m.resources) && Nonneg(m.robots) ==> Nonneg(r.0.resources) && Nonneg(r.0.robots)
    ensures m.robots.geode <= r.0.robots.geode <= m.robots.geode + 1
    ensures r.0.resources.geode == m.resources.geode + (t - r.1) * m.robots.geode
    decreases t
  {
    if t <= 0 then (m, t)
    else
      var step := Minute(m, bp);
      if step.1 then (step.0, t - 1)
      else
        var r := Wait(step.0, bp, t - 1);
        assert (t - r.1) * m.robots.geode == m.robots.geode + (t - 1 - r.1) * m.robots.geode;
        r
  }

  /** `n (n - 1) / 2`: the geodes robots built one per minute from now on
      can gather in `n` minutes. */
  function Tri(n: int): (r: int)
    ensures r >= 0
    decreases n
  {
    if n <= 0 then 0 else Tri(n - 1) + n - 1
  }

  lemma {:induction false} TriMonotone(a: int, b: int)
    requires a <= b
    ensures Tri(a) <= Tri(b)
    decreases b - a
  {
    if a < b {
      TriMonotone(a, b - 1);
    }
  }

  /** The most geodes `t` minutes can add to a factory with `r` geode
      robots: one more geode robot every minute. */
  function Bound(r: int, t: int): int
  {
    if t <= 0 then 0 else t * r + Tri(t)
  }

  /** The bound survives the build loop: the loop's `k` minutes add
      `k * r` geodes and at most one geode robot. */
  lemma BoundStep(g: int, r: int, r2: int, t: int, t2: int)
    requires 0 <= t2 < t && r <= r2 <= r + 1
    ensures g + (t - t2) * r + Bound(r2, t2) <= g + Bound(r, t)
  {
    if t2 > 0 {
      assert t2 * r2 <= t2 * (r + 1) by {
        assert t2 * (r + 1) - t2 * r2 == t2 * (r + 1 - r2);
      }
      assert (t - t2) * r + t2 * (r + 1) == t * r + t2;
      assert Tri(t2 + 1) == Tri(t2) + t2;
      TriMonotone(t2 + 1, t);
    }
  }

  /** The robots searched, in order. */
  function Kind(i: nat): Robot
    requires i < 4
  {
    if i == 0 then Ore else if i == 1 then Clay else if i == 2 then Obsidian else Geode
  }

  /** The pruning of the search: no more ore robots than the largest ore
      cost, no more clay robots than an obsidian robot's clay, no more
      obsidian robots than a geode robot's obsidian; no obsidian robot
      without clay robots, no geode robot without obsidian robots. */
  predicate Skip(m: Monitor, bp: Blueprint, bot: Robot)
  {
    (bot == Ore && m.robots.ore >= bp.maxOre)
    || (bot == Clay && m.robots.clay >= bp.obsidian.1)
    || (bot == Obsidian && m.robots.obsidian >= bp.geode.1)
    || (bot == Obsidian && m.robots.clay == 0)
    || (bot == Geode && m.robots.obsidian == 0)
  }

  /** `get_max_geodes`: build the robot being saved for, then try saving
      for each robot not pruned, and keep the most geodes. The result is
      at least the geodes held once the robot is built, and at most what
      a new geode robot every minute would give. */
  function GetMaxGeodes(m: Monitor, bp: Blueprint, t: int): (r: int)
    ensures r >= Wait(m, bp, t).0.resources.geode
    ensures m.robots.geode >= 0 ==> r >= m.resources.geode
    ensures m.robots.geode >= 0 ==> r <= m.resources.geode + Bound(m.robots.geode, t)
    decreases Max(t, 0), 0, 0
  {
    var w := Wait(m, bp, t);
    WaitBound(m, bp, t);
    if w.1 > 0 then Explore(w.0, bp, w.1, 0, w.0.resources.geode)
    else w.0.resources.geode
  }

  /** The geodes held after the build loop, and the bound from there on,
      stay within the bound from before it. */
  lemma WaitBound(m: Monitor, bp: Blueprint, t: int)
    ensures var w := Wait(m, bp, t);
      w.0.resources.geode + Bound(w.0.robots.geode, w.1) <= m.resources.geode + Bound(m.robots.geode, t)
    ensures m.robots.geode >= 0 ==> Wait(m, bp, t).0.resources.geode >= m.resources.geode
    ensures m.robots.geode >= 0 ==>
      Wait(m, bp, t).0.resources.geode <= m.resources.geode + Bound(m.robots.geode, t)
  {
    var w := Wait(m, bp, t);
    var r := m.robots.geode;
    if t > 0 {
      BoundStep(m.resources.geode, r, w.0.robots.geode, t, w.1);
      if r >= 0 {
        assert (t - w.1) * r >= 0;
        assert (t - w.1) * r <= t * r;
      }
    }
  }

  /** The loop over the robots to save for next, from the `i`-th on. */
  function Explore(m: Monitor, bp: Blueprint, t: int, i: nat, best: int): (r: int)
    requires t > 0 && i <= 4
    ensures r >= best
    ensures m.robots.geode >= 0 ==> r <= Max(best, m.resources.geode + Bound(m.robots.geode, t))
    decreases t, 1, 4 - i
  {
    if i == 4 then best
    else
      var bot := Kind(i);
      if Skip(m, bp, bot) then Explore(m, bp, t, i + 1, best)
      else
        var g := GetMaxGeodes(m.(toBuild := bot), bp, t);
        Explore(m, bp, t, i + 1, Max(best, g))
  }

  /** `simulate_max_possible_geodes`: the search from a new factory. No
      geodes are lost and, with no geode robot at the start, at most
      `t (t - 1) / 2` are gathered. */
  function SimulateMaxPossibleGeodes(bp: Blueprint, t: int): (r: int)
    ensures 0 <= r <= Tri(t)
  {
    GetMaxGeodes(New(bp.ore), bp, t)
  }
}
