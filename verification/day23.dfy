/** Day 23: elves spreading out. In each round every elf with a
    neighbour proposes a step north, south, west or east, trying the
    directions in a order that rotates by one each round; the elves whose
    target no other elf proposed move. */
module Diffusion {
  import opened Util
  import opened Text

  /** `(x, y)`, both from 1; `y` grows southwards. */
  type Pos = (int, int)

  datatype Direction = North | South | West | East

  // ------------------------------------------------------------- parsing

  /** The elves of one line, in row `y`. */
  function LineElves(line: string, y: int): (r: set<Pos>)
    ensures forall x, y' :: (x, y') in r <==> y' == y && 1 <= x <= |line| && line[x - 1] == '#'
    decreases |line|
  {
    if |line| == 0 then {}
    else
      var rest := LineElves(line[..|line| - 1], y);
      if line[|line| - 1] == '#' then rest + {(|line|, y)} else rest
  }

  function Elves(lines: seq<string>): (r: set<Pos>)
    ensures forall x, y :: (x, y) in r <==>
      1 <= y <= |lines| && 1 <= x <= |lines[y - 1]| && lines[y - 1][x - 1] == '#'
    decreases |lines|
  {
    if |lines| == 0 then {}
    else
      var init := lines[..|lines| - 1];
      assert forall k :: 0 <= k < |init| ==> init[k] == lines[k];
      Elves(init) + LineElves(lines[|lines| - 1], |lines|)
  }

  /** `Map::from_str`: an elf at every `#`, columns and rows from 1. */
  function FromStr(s: string): (r: set<Pos>)
    ensures forall x, y :: (x, y) in r <==>
      var lines := Split(s, "\n");
      1 <= y <= |lines| && 1 <= x <= |lines[y - 1]| && lines[y - 1][x - 1] == '#'
  {
    Elves(Split(s, "\n"))
  }

  // ------------------------------------------------------------ proposing

  /** The directions in the order the first round tries them. */
  function Order(i: nat): Direction
    requires i < 4
  {
    if i == 0 then North else if i == 1 then South else if i == 2 then West else East
  }

  /** `next_position`. */
  function NextPosition(p: Pos, d: Direction): (q: Pos)
    ensures Abs(q.0 - p.0) + Abs(q.1 - p.1) == 1
  {
    match d
    case North => (p.0, p.1 - 1)
    case South => (p.0, p.1 + 1)
    case West => (p.0 - 1, p.1)
    case East => (p.0 + 1, p.1)
  }

  /** `check_direction`: the three cells on side `d` are free. */
  predicate CheckDirection(elves: set<Pos>, p: Pos, d: Direction)
  {
    match d
    case North => (p.0, p.1 - 1) !in elves && (p.0 - 1, p.1 - 1) !in elves && (p.0 + 1, p.1 - 1) !in elves
    case South => (p.0, p.1 + 1) !in elves && (p.0 - 1, p.1 + 1) !in elves && (p.0 + 1, p.1 + 1) !in elves
    case West => (p.0 - 1, p.1) !in elves && (p.0 - 1, p.1 - 1) !in elves && (p.0 - 1, p.1 + 1) !in elves
    case East => (p.0 + 1, p.1) !in elves && (p.0 + 1, p.1 - 1) !in elves && (p.0 + 1, p.1 + 1) !in elves
  }

  /** The unit step of direction `d`. */
  function Unit(d: Direction): Pos
  {
    match d
    case North => (0, -1)
    case South => (0, 1)
    case West => (-1, 0)
    case East => (1, 0)
  }

  /** `q` is one of the eight cells around `p`. */
  predicate Adjacent(p: Pos, q: Pos)
  {
    q != p && Abs(q.0 - p.0) <= 1 && Abs(q.1 - p.1) <= 1
  }

  /** The three cells of side `d`: the neighbours one step along `d`. */
  predicate OnSide(p: Pos, q: Pos, d: Direction)
  {
    Adjacent(p, q) && (q.0 - p.0) * Unit(d).0 + (q.1 - p.1) * Unit(d).1 == 1
  }

  /** The three cells of side `d`: the step along `d`, and that step
      moved one cell either way across `d`. */
  lemma SideCells(p: Pos, q: Pos, d: Direction)
    ensures var u := Unit(d);
      OnSide(p, q, d) <==> (q == (p.0 + u.0, p.1 + u.1) ||
                           q == (p.0 + u.0 + u.1, p.1 + u.1 + u.0) ||
                           q == (p.0 + u.0 - u.1, p.1 + u.1 - u.0))
  {
    match d
    case North =>
      if OnSide(p, q, d) {
        assert q.1 == p.1 - 1;
      }
    case South =>
      if OnSide(p, q, d) {
        assert q.1 == p.1 + 1;
      }
    case West =>
      if OnSide(p, q, d) {
        assert q.0 == p.0 - 1;
      }
    case East =>
      if OnSide(p, q, d) {
        assert q.0 == p.0 + 1;
      }
  }

  /** A side is free exactly when none of its three cells holds an elf. */
  lemma CheckDirectionSpec(elves: set<Pos>, p: Pos, d: Direction)
    ensures CheckDirection(elves, p, d) <==> forall q :: OnSide(p, q, d) ==> q !in elves
  {
    var u := Unit(d);
    var a, b, c := (p.0 + u.0, p.1 + u.1), (p.0 + u.0 + u.1, p.1 + u.1 + u.0), (p.0 + u.0 - u.1, p.1 + u.1 - u.0);
    assert CheckDirection(elves, p, d) <==> (a !in elves && b !in elves && c !in elves);
    SideCells(p, a, d);
    SideCells(p, b, d);
    SideCells(p, c, d);
    forall q | OnSide(p, q, d) ensures q == a || q == b || q == c {
      SideCells(p, q, d);
    }
  }

  /** The step a free side allows is to that side's middle cell. */
  lemma NextPositionOnSide(p: Pos, d: Direction)
    ensures OnSide(p, NextPosition(p, d), d)
    ensures NextPosition(p, d) == (p.0 + Unit(d).0, p.1 + Unit(d).1)
  {
  }

  /** None of the eight cells around `p` holds an elf. */
  predicate Isolated(elves: set<Pos>, p: Pos)
  {
    (p.0 - 1, p.1 - 1) !in elves && (p.0 - 1, p.1) !in elves && (p.0 - 1, p.1 + 1) !in elves &&
    (p.0, p.1 + 1) !in elves && (p.0 + 1, p.1 + 1) !in elves && (p.0 + 1, p.1) !in elves &&
    (p.0 + 1, p.1 - 1) !in elves && (p.0, p.1 - 1) !in elves
  }

  /** An elf is isolated exactly when no elf is adjacent to it. */
  lemma IsolatedSpec(elves: set<Pos>, p: Pos)
    ensures Isolated(elves, p) <==> forall q :: Adjacent(p, q) ==> q !in elves
  {
    if Isolated(elves, p) {
      forall q | Adjacent(p, q) ensures q !in elves {
        assert q.0 - p.0 in {-1, 0, 1} && q.1 - p.1 in {-1, 0, 1};
      }
    }
  }

  /** The direction the `i`-th try of round `round` looks at. */
  function Try(round: nat, i: nat): Direction
    requires i < 4
  {
    Order((round + i) % 4)
  }

  /** The tries from the `i`-th on: the first free side. */
  function FirstFree(elves: set<Pos>, p: Pos, round: nat, i: nat): (r: Option<Direction>)
    requires i <= 4
    ensures r.Some? ==> CheckDirection(elves, p, r.value)
    ensures r.Some? ==> exists k :: (i <= k < 4 && r.value == Try(round, k) &&
      forall j :: i <= j < k ==> !CheckDirection(elves, p, Try(round, j)))
    ensures r.None? ==> forall j :: i <= j < 4 ==> !CheckDirection(elves, p, Try(round, j))
    decreases 4 - i
  {
    if i == 4 then None
    else if CheckDirection(elves, p, Try(round, i)) then Some(Try(round, i))
    else FirstFree(elves, p, round, i + 1)
  }

  /** The side an elf picks: none when it has no neighbour, otherwise
      the first free side, trying the directions from index `round mod 4`
      of north, south, west, east. */
  function Choice(elves: set<Pos>, p: Pos, round: nat): (r: Option<Direction>)
    ensures Isolated(elves, p) ==> r.None?
    ensures r.Some? ==> CheckDirection(elves, p, r.value)
  {
    if Isolated(elves, p) then None else FirstFree(elves, p, round, 0)
  }

  /** An elf with a neighbour picks the first free side in the order of
      its round, and picks none only when all four sides are blocked. */
  lemma ChoiceOrder(elves: set<Pos>, p: Pos, round: nat)
    ensures var r := Choice(elves, p, round);
      r.Some? ==> exists k :: (0 <= k < 4 && r.value == Try(round, k) &&
        forall j :: 0 <= j < k ==> !CheckDirection(elves, p, Try(round, j)))
    ensures var r := Choice(elves, p, round);
      r.None? && !Isolated(elves, p) ==> forall j :: 0 <= j < 4 ==> !CheckDirection(elves, p, Try(round, j))
  {
  }

  /** The first half of a round for one elf: a step to the side it
      picks. The target is always a free cell. */
  function Propose(elves: set<Pos>, p: Pos, round: nat): (r: Option<Pos>)
    ensures r.Some? <==> Choice(elves, p, round).Some?
    ensures r.Some? ==> r.value == NextPosition(p, Choice(elves, p, round).value)
    ensures r.Some? ==> r.value !in elves
  {
    match Choice(elves, p, round)
    case None => None
    case Some(d) => Some(NextPosition(p, d))
  }

  /** Two different elves proposing the same cell come from opposite
      sides of it: an elf diagonal to another never sees that side free. */
  lemma Opposite(elves: set<Pos>, p: Pos, q: Pos, round: nat, t: Pos)
    requires p in elves && q in elves && p != q
    requires Propose(elves, p, round) == Some(t) && Propose(elves, q, round) == Some(t)
    ensures q == (2 * t.0 - p.0, 2 * t.1 - p.1)
  {
    var d, e := Choice(elves, p, round).value, Choice(elves, q, round).value;
    assert CheckDirection(elves, p, d) && CheckDirection(elves, q, e);
    assert t == NextPosition(p, d) && t == NextPosition(q, e);
  }

  /** The proposals of a round, by elf. */
  function Plan(elves: set<Pos>, round: nat): (plan: map<Pos, Pos>)
    ensures forall p :: p in plan ==> p in elves && Propose(elves, p, round) == Some(plan[p])
    ensures forall p {:trigger Propose(elves, p, round)} ::
      p in elves && Propose(elves, p, round).Some? ==> p in plan
    ensures forall p :: p in plan ==> plan[p] !in elves
  {
    map p | p in elves && Propose(elves, p, round).Some? :: Propose(elves, p, round).value
  }

  /** The elves proposing cell `t`. */
  function Senders(plan: map<Pos, Pos>, t: Pos): set<Pos>
  {
    set p | p in plan && plan[p] == t
  }

  /** At most two elves propose the same cell: they must come from
      opposite sides, and a cell has only two sides along each axis. */
  lemma AtMostTwo(elves: set<Pos>, round: nat, t: Pos)
    ensures |Senders(Plan(elves, round), t)| <= 2
  {
    var ps := Senders(Plan(elves, round), t);
    if |ps| > 0 {
      var p :| p in ps;
      var q := (2 * t.0 - p.0, 2 * t.1 - p.1);
      forall r | r in ps ensures r == p || r == q {
        if r != p {
          Opposite(elves, p, r, round, t);
        }
      }
      assert ps <= {p, q};
      SubsetSize(ps, {p, q});
    }
  }

  lemma SubsetSize<T>(a: set<T>, b: set<T>)
    requires a <= b
    ensures |a| <= |b|
  {
    assert b == a + (b - a);
  }

  // ----------------------------------------------------------- resolving

  /** The proposals in the order the elves are visited. */
  function Proposals(plan: map<Pos, Pos>, order: seq<Pos>): (r: seq<(Pos, Pos)>)
    ensures forall k :: 0 <= k < |r| ==> r[k].0 in order && r[k].0 in plan && plan[r[k].0] == r[k].1
    decreases |order|
  {
    if |order| == 0 then []
    else
      var init := Proposals(plan, order[..|order| - 1]);
      var p := order[|order| - 1];
      if p in plan then init + [(p, plan[p])] else init
  }

  /** How many proposals target `t`. */
  function CountTo(props: seq<(Pos, Pos)>, t: Pos): nat
  {
    if |props| == 0 then 0
    else CountTo(props[..|props| - 1], t) + (if props[|props| - 1].1 == t then 1 else 0)
  }

  /** The second half of a round: proposals in order, a target seen
      before dropping out again and a new one going in with its elf. */
  function Resolve(props: seq<(Pos, Pos)>): (m: map<Pos, Pos>)
    decreases |props|
  {
    if |props| == 0 then map[]
    else
      var m := Resolve(props[..|props| - 1]);
      var last := props[|props| - 1];
      if last.1 in m then m - {last.1} else m[last.1 := last.0]
  }

  /** Toggling: a cell is kept exactly when an odd number of proposals
      target it, with an elf that proposed it. */
  lemma {:induction false} ResolveSpec(props: seq<(Pos, Pos)>, t: Pos)
    ensures t in Resolve(props) <==> CountTo(props, t) % 2 == 1
    ensures t in Resolve(props) ==> (Resolve(props)[t], t) in props
    decreases |props|
  {
    if |props| > 0 {
      var init := props[..|props| - 1];
      ResolveSpec(init, t);
      if t in Resolve(init) && t != props[|props| - 1].1 {
        assert (Resolve(init)[t], t) in init;
      }
    }
  }

  /** The senders of `t` among the elves visited. */
  function Visited(plan: map<Pos, Pos>, order: seq<Pos>, t: Pos): set<Pos>
  {
    set p | p in order && p in plan && plan[p] == t
  }

  predicate Distinct(order: seq<Pos>)
  {
    forall i, j :: 0 <= i < j < |order| ==> order[i] != order[j]
  }

  /** Visiting each elf once, the proposals to a cell are its senders. */
  lemma {:induction false} CountProposers(plan: map<Pos, Pos>, order: seq<Pos>, t: Pos)
    requires Distinct(order)
    ensures CountTo(Proposals(plan, order), t) == |Visited(plan, order, t)|
    decreases |order|
  {
    if |order| > 0 {
      var init := order[..|order| - 1];
      var p := order[|order| - 1];
      assert Distinct(init);
      CountProposers(plan, init, t);
      VisitedSnoc(plan, order, t);
      if p in plan {
        var props := Proposals(plan, init);
        var all := props + [(p, plan[p])];
        assert all[..|all| - 1] == props;
      }
    }
  }

  /** Visiting one more elf adds it to the senders it belongs to. */
  lemma VisitedSnoc(plan: map<Pos, Pos>, order: seq<Pos>, t: Pos)
    requires Distinct(order) && |order| > 0
    ensures var init, p := order[..|order| - 1], order[|order| - 1];
      |Visited(plan, order, t)| ==
        |Visited(plan, init, t)| + (if p in plan && plan[p] == t then 1 else 0)
  {
    var init, p := order[..|order| - 1], order[|order| - 1];
    var before, after := Visited(plan, init, t), Visited(plan, order, t);
    assert p !in init;
    assert forall k :: 0 <= k < |init| ==> init[k] == order[k];
    if p in plan && plan[p] == t {
      assert after == before + {p};
    } else {
      assert after == before;
    }
  }

  /** Visiting every proposer once, and with at most two senders to a
      cell, the cell is kept exactly when one elf proposes it, and with
      that elf. */
  lemma MovesSpec(plan: map<Pos, Pos>, order: seq<Pos>, t: Pos)
    requires Distinct(order) && forall p :: p in plan ==> p in order
    requires |Senders(plan, t)| <= 2
    ensures t in Resolve(Proposals(plan, order)) <==> |Senders(plan, t)| == 1
    ensures t in Resolve(Proposals(plan, order)) ==> Resolve(Proposals(plan, order))[t] in Senders(plan, t)
  {
    var props := Proposals(plan, order);
    assert Visited(plan, order, t) == Senders(plan, t);
    CountProposers(plan, order, t);
    var n := |Senders(plan, t)|;
    assert n % 2 == 1 <==> n == 1 by {
      assert n == 0 || n == 1 || n == 2;
    }
    ResolveSpec(props, t);
    if t in Resolve(props) {
      var k :| 0 <= k < |props| && props[k] == (Resolve(props)[t], t);
    }
  }

  /** The moves of a round, from target to elf. */
  function Moves(elves: set<Pos>, order: seq<Pos>, round: nat): map<Pos, Pos>
  {
    Resolve(Proposals(Plan(elves, round), order))
  }

  /** `order` visits every elf once. */
  predicate Enumerates(order: seq<Pos>, elves: set<Pos>)
  {
    Distinct(order) && (forall k :: 0 <= k < |order| ==> order[k] in elves) &&
    (forall p :: p in elves ==> p in order)
  }

  /** Whatever order the elves are visited in, an elf moves exactly when
      no other elf proposes its target. */
  lemma MovesExactly(elves: set<Pos>, order: seq<Pos>, round: nat, t: Pos)
    requires Enumerates(order, elves)
    ensures t in Moves(elves, order, round) <==> |Senders(Plan(elves, round), t)| == 1
    ensures t in Moves(elves, order, round) ==>
      var p := Moves(elves, order, round)[t];
      p in elves && Propose(elves, p, round) == Some(t)
  {
    AtMostTwo(elves, round, t);
    MovesSpec(Plan(elves, round), order, t);
  }

  /** The moves do not depend on the order the elves are visited in. */
  lemma OrderIrrelevant(elves: set<Pos>, a: seq<Pos>, b: seq<Pos>, round: nat)
    requires Enumerates(a, elves) && Enumerates(b, elves)
    ensures Moves(elves, a, round) == Moves(elves, b, round)
  {
    var ma, mb := Moves(elves, a, round), Moves(elves, b, round);
    var plan := Plan(elves, round);
    forall t ensures t in ma <==> t in mb {
      MovesExactly(elves, a, round, t);
      MovesExactly(elves, b, round, t);
    }
    forall t | t in ma ensures ma[t] == mb[t] {
      MovesExactly(elves, a, round, t);
      MovesExactly(elves, b, round, t);
      SingleSender(plan, t, ma[t], mb[t]);
    }
  }

  lemma SingleSender(plan: map<Pos, Pos>, t: Pos, p: Pos, q: Pos)
    requires |Senders(plan, t)| == 1 && p in Senders(plan, t) && q in Senders(plan, t)
    ensures p == q
  {
    if p != q {
      SubsetSize({p, q}, Senders(plan, t));
    }
  }

  /** The elves after the moves: the movers leave, their targets fill. */
  function Apply(elves: set<Pos>, m: map<Pos, Pos>): set<Pos>
  {
    (elves - m.Values) + m.Keys
  }

  /** A one-to-one map has as many values as keys. */
  lemma {:induction false} InjectiveValues(m: map<Pos, Pos>)
    requires forall t, u :: t in m && u in m && m[t] == m[u] ==> t == u
    ensures |m.Values| == |m.Keys|
    decreases |m.Keys|
  {
    if |m.Keys| > 0 {
      var t :| t in m.Keys;
      var rest := m - {t};
      InjectiveValues(rest);
      assert m.Keys == rest.Keys + {t};
      assert m.Values == rest.Values + {m[t]} by {
        forall v | v in m.Values ensures v in rest.Values + {m[t]} {
          var u :| u in m && m[u] == v;
          if u != t {
            assert rest[u] == v;
          }
        }
      }
      assert forall u :: u in rest ==> rest[u] != m[t];
    }
  }

  // ------------------------------------------------------------- rounds

  /** The elves that move in round `round`: those whose target no other
      elf proposes. */
  function Movers(elves: set<Pos>, round: nat): (r: set<Pos>)
    ensures r <= elves
  {
    var plan := Plan(elves, round);
    set p | p in plan && |Senders(plan, plan[p])| == 1
  }

  /** The cells the movers step to. */
  function Targets(elves: set<Pos>, round: nat): (r: set<Pos>)
    ensures r !! elves
  {
    var plan := Plan(elves, round);
    set p | p in Movers(elves, round) :: plan[p]
  }

  /** The elves after round `round`. */
  function Step(elves: set<Pos>, round: nat): set<Pos>
  {
    (elves - Movers(elves, round)) + Targets(elves, round)
  }

  /** The toggling map of the second half of a round holds exactly the
      moves of `Step`, whatever order the elves are visited in. */
  lemma ResolveIsStep(elves: set<Pos>, order: seq<Pos>, round: nat)
    requires Enumerates(order, elves)
    ensures Apply(elves, Moves(elves, order, round)) == Step(elves, round)
  {
    ResolveTargets(elves, order, round);
    ResolveMovers(elves, order, round);
  }

  /** The cells the toggling map keeps are the movers' targets. */
  lemma ResolveTargets(elves: set<Pos>, order: seq<Pos>, round: nat)
    requires Enumerates(order, elves)
    ensures Moves(elves, order, round).Keys == Targets(elves, round)
  {
    var m := Moves(elves, order, round);
    var plan := Plan(elves, round);
    var movers, targets := Movers(elves, round), Targets(elves, round);
    forall t ensures t in m <==> t in targets {
      MovesExactly(elves, order, round, t);
      if t in m {
        assert m[t] in movers;
      }
      if t in targets {
        var p :| p in movers && plan[p] == t;
        assert p in Senders(plan, t);
      }
    }
  }

  /** The elves the toggling map keeps are the movers. */
  lemma ResolveMovers(elves: set<Pos>, order: seq<Pos>, round: nat)
    requires Enumerates(order, elves)
    ensures Moves(elves, order, round).Values == Movers(elves, round)
  {
    var m := Moves(elves, order, round);
    var plan := Plan(elves, round);
    var movers := Movers(elves, round);
    forall p ensures p in m.Values <==> p in movers {
      if p in m.Values {
        var t :| t in m && m[t] == p;
        MovesExactly(elves, order, round, t);
      }
      if p in movers {
        var t := plan[p];
        MovesExactly(elves, order, round, t);
        SingleSender(plan, t, p, m[t]);
      }
    }
  }

  /** A round keeps the number of elves: the targets are free cells, and
      as many as the movers. */
  lemma StepKeepsCount(elves: set<Pos>, round: nat)
    ensures |Step(elves, round)| == |elves|
  {
    TargetsSize(elves, round);
    DiffSize(elves, Movers(elves, round));
  }

  /** Two movers never share a target. */
  lemma TargetsSize(elves: set<Pos>, round: nat)
    ensures |Targets(elves, round)| == |Movers(elves, round)|
  {
    var plan := Plan(elves, round);
    var movers := Movers(elves, round);
    var m := map p | p in movers :: plan[p];
    forall p, q | p in m && q in m && m[p] == m[q] ensures p == q {
      SingleSender(plan, plan[p], p, q);
    }
    InjectiveValues(m);
    assert m.Keys == movers;
    assert m.Values == Targets(elves, round);
  }

  /** One round: the elves after it, and how many moved. The number of
      elves stays the same. */
  function Round(elves: set<Pos>, round: nat): (r: (set<Pos>, nat))
    ensures |r.0| == |elves|
  {
    StepKeepsCount(elves, round);
    (Step(elves, round), |Movers(elves, round)|)
  }

  /** Rounds `round`, `round + 1`, ... up to but not including `stop`. */
  function Rounds(elves: set<Pos>, round: nat, stop: nat): (r: set<Pos>)
    ensures |r| == |elves|
    decreases stop - round
  {
    if round >= stop then elves else Rounds(Round(elves, round).0, round + 1, stop)
  }

  /** A round nobody moves in changes nothing. */
  lemma StillKeepsElves(elves: set<Pos>, round: nat)
    requires Still(elves, round)
    ensures Round(elves, round).0 == elves
  {
    assert Targets(elves, round) == {};
  }

  /** Round `round` moves no elf. */
  predicate Still(elves: set<Pos>, round: nat)
  {
    Round(elves, round).1 == 0
  }

  /** The round numbered `n` from 1 moves no elf. */
  predicate StillBefore(elves: set<Pos>, n: nat)
  {
    n >= 1 && Still(elves, n - 1)
  }

  /** Rounds from `round` on until one moves no elf: the elves then and
      that round; `None` when `fuel` more rounds do not get there. */
  function Settle(elves: set<Pos>, round: nat, fuel: nat): (r: Option<(set<Pos>, nat)>)
    ensures r.Some? ==> |r.value.0| == |elves| && r.value.1 >= round && Still(r.value.0, r.value.1)
    ensures r.Some? ==> r.value.0 == Rounds(elves, round, r.value.1) && FirstStill(elves, round, r.value.1)
    ensures r.None? ==> NoneStill(elves, round, round + fuel + 1)
    decreases fuel
  {
    if Still(elves, round) then
      FirstStillNow(elves, round);
      Some((elves, round))
    else if fuel == 0 then
      NoneStillNow(elves, round);
      None
    else
      var r := Settle(Round(elves, round).0, round + 1, fuel - 1);
      if r.Some? then
        FirstStillStep(elves, round, r.value.1);
        r
      else
        NoneStillStep(elves, round, round + fuel + 1);
        r
  }

  /** No round from `round` up to but not including `stop` moves no elf,
      counting from `elves` at round `round`. */
  predicate NoneStill(elves: set<Pos>, round: nat, stop: nat)
  {
    forall j :: round <= j < stop ==> !Still(Rounds(elves, round, j), j)
  }

  /** Round `k` is the first round from `round` on in which no elf
      moves. */
  predicate FirstStill(elves: set<Pos>, round: nat, k: nat)
  {
    round <= k && Still(Rounds(elves, round, k), k) && NoneStill(elves, round, k)
  }

  lemma FirstStillNow(elves: set<Pos>, round: nat)
    requires Still(elves, round)
    ensures FirstStill(elves, round, round) && Rounds(elves, round, round) == elves
  {
  }

  lemma NoneStillNow(elves: set<Pos>, round: nat)
    requires !Still(elves, round)
    ensures NoneStill(elves, round, round + 1)
  {
    forall j | round <= j < round + 1 ensures !Still(Rounds(elves, round, j), j) {
      assert j == round;
    }
  }

  /** A round in which elves move, followed by a run from the next
      round, is a run from this round. */
  lemma NoneStillStep(elves: set<Pos>, round: nat, stop: nat)
    requires !Still(elves, round)
    requires NoneStill(Round(elves, round).0, round + 1, stop)
    ensures NoneStill(elves, round, stop)
  {
    RoundsNone(elves, round);
    forall j | round < j < stop ensures !Still(Rounds(elves, round, j), j) {
      RoundsAfter(elves, round, j);
    }
  }

  lemma RoundsNone(elves: set<Pos>, round: nat)
    ensures Rounds(elves, round, round) == elves
  {
  }

  lemma RoundsAfter(elves: set<Pos>, round: nat, j: nat)
    requires round < j
    ensures Rounds(elves, round, j) == Rounds(Round(elves, round).0, round + 1, j)
  {
  }

  lemma FirstStillStep(elves: set<Pos>, round: nat, k: nat)
    requires !Still(elves, round)
    requires FirstStill(Round(elves, round).0, round + 1, k)
    ensures FirstStill(elves, round, k)
    ensures Rounds(elves, round, k) == Rounds(Round(elves, round).0, round + 1, k)
  {
    assert round < k;
    RoundsAfter(elves, round, k);
    NoneStillStep(elves, round, k);
  }

  /** The round numbered `n` from 1 is the first in which no elf moves,
      and `still` is where the elves then stand. */
  predicate SettledAt(elves: set<Pos>, still: set<Pos>, n: nat)
  {
    n >= 1 && still == Rounds(elves, 0, n - 1) && FirstStill(elves, 0, n - 1)
  }

  /** `motion_sim`: with `Some(r)`, `r` rounds and then `r`; with
      `None`, rounds until one moves no elf, and that round's 1-based
      number. `None` for `Some(0)`, where the source computes `0 - 1` on
      an unsigned value, and when the fuel runs out. The number of elves
      never changes. */
  function MotionSim(elves: set<Pos>, rounds: Option<nat>, fuel: nat): (r: Option<(set<Pos>, nat)>)
    ensures r.Some? ==> |r.value.0| == |elves|
    ensures rounds.Some? ==> (r.Some? <==> rounds.value > 0)
    ensures rounds.Some? && r.Some? ==> r.value.1 == rounds.value
    ensures rounds.Some? && r.Some? ==> r.value.0 == Rounds(elves, 0, rounds.value)
    ensures rounds.None? && r.Some? ==> r.value.1 >= 1 && StillBefore(r.value.0, r.value.1)
    ensures rounds.None? && r.Some? ==> SettledAt(elves, r.value.0, r.value.1)
    ensures rounds.None? && r.None? ==> NoneStill(elves, 0, fuel + 1)
  {
    match rounds
    case Some(n) => if n == 0 then None else Some((Rounds(elves, 0, n), n))
    case None => SettleFromStart(elves, fuel)
  }

  /** Rounds from the first until one moves no elf: the elves then and
      that round's 1-based number. */
  function SettleFromStart(elves: set<Pos>, fuel: nat): (r: Option<(set<Pos>, nat)>)
    ensures r.Some? ==> |r.value.0| == |elves| && r.value.1 >= 1 && StillBefore(r.value.0, r.value.1)
    ensures r.Some? ==> SettledAt(elves, r.value.0, r.value.1)
    ensures r.None? ==> NoneStill(elves, 0, fuel + 1)
  {
    var settled := Settle(elves, 0, fuel);
    if settled.None? then None
    else
      SettledNext(elves, settled.value.0, settled.value.1);
      Some((settled.value.0, settled.value.1 + 1))
  }

  lemma SettledNext(elves: set<Pos>, still: set<Pos>, k: nat)
    requires still == Rounds(elves, 0, k) && FirstStill(elves, 0, k)
    ensures SettledAt(elves, still, k + 1) && StillBefore(still, k + 1)
  {
  }

  // -------------------------------------------------------- empty tiles

  function Coord(p: Pos, xAxis: bool): int
  {
    if xAxis then p.0 else p.1
  }

  ghost function Least(s: set<Pos>, xAxis: bool): (m: int)
    requires s != {}
    ensures exists p :: p in s && Coord(p, xAxis) == m
    ensures forall p :: p in s ==> m <= Coord(p, xAxis)
    decreases |s|
  {
    var p :| p in s;
    if s == {p} then Coord(p, xAxis)
    else
      var rest := Least(s - {p}, xAxis);
      if Coord(p, xAxis) <= rest then Coord(p, xAxis) else rest
  }

  ghost function Greatest(s: set<Pos>, xAxis: bool): (m: int)
    requires s != {}
    ensures exists p :: p in s && Coord(p, xAxis) == m
    ensures forall p :: p in s ==> Coord(p, xAxis) <= m
    decreases |s|
  {
    var p :| p in s;
    if s == {p} then Coord(p, xAxis)
    else
      var rest := Greatest(s - {p}, xAxis);
      if Coord(p, xAxis) >= rest then Coord(p, xAxis) else rest
  }

  /** How many whole numbers lie in `lo..=hi`. */
  function Span(lo: int, hi: int): int
  {
    hi - lo + 1
  }

  /** The cells `(x0..=x1, y)`. */
  function Row(y: int, x0: int, x1: int): (r: set<Pos>)
    requires x0 <= x1 + 1
    ensures forall p :: p in r <==> p.1 == y && x0 <= p.0 <= x1
    ensures |r| == x1 - x0 + 1
    decreases x1 - x0
  {
    if x1 < x0 then {}
    else
      var rest := Row(y, x0, x1 - 1);
      assert (x1, y) !in rest;
      rest + {(x1, y)}
  }

  lemma MulSucc(a: int, b: int)
    ensures a * (b + 1) == a * b + a
  {
  }

  /** The cells of the rectangle `x0..=x1` by `y0..=y1`. */
  function Box(x0: int, x1: int, y0: int, y1: int): (r: set<Pos>)
    requires x0 <= x1 + 1 && y0 <= y1 + 1
    ensures forall p :: p in r <==> x0 <= p.0 <= x1 && y0 <= p.1 <= y1
    ensures |r| == Span(x0, x1) * Span(y0, y1)
    decreases y1 - y0
  {
    if y1 < y0 then {}
    else
      var rest := Box(x0, x1, y0, y1 - 1);
      var row := Row(y1, x0, x1);
      assert rest !! row;
      assert Span(y0, y1) == Span(y0, y1 - 1) + 1;
      MulSucc(Span(x0, x1), Span(y0, y1 - 1));
      rest + row
  }

  /** `get_empty_tiles_in_container`: the free cells of the smallest
      rectangle holding every elf; `None` with no elves, where the source
      unwraps an empty minimum. */
  ghost function EmptyTiles(elves: set<Pos>): (r: Option<nat>)
    ensures r.None? <==> elves == {}
  {
    if elves == {} then None else Some(|Container(elves) - elves|)
  }

  /** The area of the smallest rectangle holding every elf. */
  ghost function Area(elves: set<Pos>): int
    requires elves != {}
  {
    Span(Least(elves, true), Greatest(elves, true)) * Span(Least(elves, false), Greatest(elves, false))
  }

  /** The smallest rectangle holding every elf. */
  ghost function Container(elves: set<Pos>): (r: set<Pos>)
    requires elves != {}
    ensures elves <= r
    ensures |r| == Area(elves)
  {
    var x0, x1 := Least(elves, true), Greatest(elves, true);
    var y0, y1 := Least(elves, false), Greatest(elves, false);
    Within(elves, x0, x1, y0, y1);
    Box(x0, x1, y0, y1)
  }

  lemma Within(elves: set<Pos>, x0: int, x1: int, y0: int, y1: int)
    requires x0 <= x1 + 1 && y0 <= y1 + 1
    requires forall p :: p in elves ==> x0 <= Coord(p, true) <= x1
    requires forall p :: p in elves ==> y0 <= Coord(p, false) <= y1
    ensures elves <= Box(x0, x1, y0, y1)
  {
  }

  lemma DiffSize<T>(a: set<T>, b: set<T>)
    requires b <= a
    ensures |a - b| == |a| - |b|
  {
    assert a == (a - b) + b;
  }

  /** The free cells are the rectangle's area less the number of elves. */
  lemma EmptyTilesArea(elves: set<Pos>)
    requires elves != {}
    ensures EmptyTiles(elves) == Some(Area(elves) - |elves|)
  {
    DiffSize(Container(elves), elves);
  }
}
