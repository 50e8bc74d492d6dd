/** Day 10, the processor: `noop` takes one cycle and `addx v` two, the
    register `x` changes only when an `addx` finishes, every cycle draws
    one pixel with the sprite at `x`, and at each breakpoint cycle the
    signal strength `cycle * x` is logged. */
module Handheld {
  import opened Util
  import opened Text
  import opened Ranking
  import Display

  /** `Op`: the instruction set. */
  datatype Op = NoOp | AddX(v: int)

  /** `CPU`: `y` is the value `x` takes on at the end of the instruction in
      flight and `carry` the cycles it still needs. */
  datatype Cpu = Cpu(x: int, y: int, tick: int, carry: int, breakpoints: seq<int>, trace: seq<int>, display: Display.Crt)

  /** `CPU::new`. */
  function New(display: Display.Crt): Cpu
  {
    Cpu(1, 0, 0, 0, [], [], display)
  }

  /** `set_breakpoints`: the breakpoints, sorted. */
  function SetBreakpoints(c: Cpu, points: seq<int>): (r: Cpu)
    ensures Ascending(r.breakpoints) && multiset(r.breakpoints) == multiset(points)
    ensures r == c.(breakpoints := r.breakpoints)
  {
    c.(breakpoints := SortAsc(points))
  }

  // --------------------------------------------------- the run, as written

  function Shape(d: Display.Crt): (nat, nat)
  {
    (d.width, d.height)
  }

  /** One pass of the inner loop of `run_program`: a cycle passes, the
      breakpoint is checked, a pixel is drawn, and `x` takes on `y` if the
      instruction is done. `next` is the breakpoint iterator's position;
      `None` where drawing panics. */
  function Cycle(c: Cpu, next: nat): (r: Option<(Cpu, nat)>)
    requires Display.Wf(c.display)
    ensures r.Some? ==> Display.Wf(r.value.0.display) && Shape(r.value.0.display) == Shape(c.display)
  {
    var carry := c.carry - 1;
    var tick := c.tick + 1;
    var hit := next < |c.breakpoints| && c.breakpoints[next] == tick;
    match Display.Draw(c.display, c.x)
    case None => None
    case Some(d) =>
      Some((c.(carry := carry, tick := tick, trace := if hit then c.trace + [tick * c.x] else c.trace,
               display := d, x := if carry == 0 then c.x + c.y else c.x),
            if hit then next + 1 else next))
  }

  /** The inner loop: cycles until the instruction in flight is done. */
  function Drain(c: Cpu, next: nat): (r: Option<(Cpu, nat)>)
    requires Display.Wf(c.display)
    ensures r.Some? ==> Display.Wf(r.value.0.display) && Shape(r.value.0.display) == Shape(c.display)
    decreases if c.carry > 0 then c.carry else 0
  {
    if c.carry <= 0 then Some((c, next))
    else match Cycle(c, next)
      case None => None
      case Some((d, n)) => Drain(d, n)
  }

  /** Issuing an instruction: `addx` needs two cycles, anything else one. */
  function Exec(c: Cpu, op: Op): Cpu
  {
    match op
    case AddX(v) => c.(carry := 2, y := v)
    case NoOp => c.(carry := 1, y := 0)
  }

  /** The outer loop: finish the instruction in flight, then issue the next
      one. The last instruction is issued but never run. */
  function RunFrom(c: Cpu, p: seq<Op>, next: nat): (r: Option<Cpu>)
    requires Display.Wf(c.display)
    ensures r.Some? ==> Display.Wf(r.value.display) && Shape(r.value.display) == Shape(c.display)
    decreases |p|
  {
    if |p| == 0 then Some(c)
    else match Drain(c, next)
      case None => None
      case Some((d, n)) => RunFrom(Exec(d, p[0]), p[1..], n)
  }

  /** `run_program`, the breakpoint iterator starting at the first. */
  function RunProgram(c: Cpu, p: seq<Op>): (r: Option<Cpu>)
    requires Display.Wf(c.display)
    ensures r.Some? ==> Display.Wf(r.value.display) && Shape(r.value.display) == Shape(c.display)
  {
    RunFrom(c, p, 0)
  }

  // ------------------------------------------------ the run, cycle by cycle

  /** What the cycles change: the register, the clock, the log and the
      screen. */
  datatype Machine = Machine(x: int, tick: int, trace: seq<int>, display: Display.Crt)

  function Core(c: Cpu): Machine
  {
    Machine(c.x, c.tick, c.trace, c.display)
  }

  /** One cycle that adds `d` to `x` at its end. */
  function Tick(m: Machine, bps: seq<int>, next: nat, d: int): (r: Option<(Machine, nat)>)
    requires Display.Wf(m.display)
    ensures r.Some? ==> Display.Wf(r.value.0.display)
  {
    var tick := m.tick + 1;
    var hit := next < |bps| && bps[next] == tick;
    match Display.Draw(m.display, m.x)
    case None => None
    case Some(disp) =>
      Some((Machine(m.x + d, tick, if hit then m.trace + [tick * m.x] else m.trace, disp), if hit then next + 1 else next))
  }

  /** A run of cycles, the `k`th adding `cs[k]` to `x`. */
  function RunCycles(m: Machine, bps: seq<int>, next: nat, cs: seq<int>): (r: Option<(Machine, nat)>)
    requires Display.Wf(m.display)
    ensures r.Some? ==> Display.Wf(r.value.0.display)
    ensures r.Some? ==> r.value.0.tick == m.tick + |cs| && r.value.0.x == m.x + Sum(cs)
    decreases |cs|
  {
    if |cs| == 0 then Some((m, next))
    else match Tick(m, bps, next, cs[0])
      case None => None
      case Some((m1, n1)) =>
        var r := RunCycles(m1, bps, n1, cs[1..]);
        SumFront(cs);
        r
  }

  lemma SumFront(cs: seq<int>)
    requires |cs| > 0
    ensures Sum(cs) == cs[0] + Sum(cs[1..])
  {
    assert cs == [cs[0]] + cs[1..];
    SumAppend([cs[0]], cs[1..]);
  }

  /** The cycles an instruction in flight still needs: `carry` of them, the
      last adding `y`. */
  function Pending(carry: int, y: int): (r: seq<int>)
    ensures |r| == if carry > 0 then carry else 0
  {
    if carry <= 0 then [] else seq(carry - 1, _ => 0) + [y]
  }

  /** The cycles of an instruction: one for `noop`, two for `addx v`, the
      value changing by `v` at the end of the second. */
  function OpCycles(op: Op): (r: seq<int>)
    ensures r == Pending(Exec(New(Display.New(0, 0)), op).carry, Exec(New(Display.New(0, 0)), op).y)
  {
    match op
    case NoOp => [0]
    case AddX(v) => [0, v]
  }

  /** The cycles of a program, instruction after instruction. */
  function Cycles(p: seq<Op>): seq<int>
    decreases |p|
  {
    if |p| == 0 then [] else OpCycles(p[0]) + Cycles(p[1..])
  }

  /** A run of cycles is the run of a prefix followed by the rest. */
  lemma {:induction false} RunCyclesAppend(m: Machine, bps: seq<int>, next: nat, a: seq<int>, b: seq<int>)
    requires Display.Wf(m.display)
    ensures RunCycles(m, bps, next, a + b) ==
      match RunCycles(m, bps, next, a)
      case None => None
      case Some((m1, n1)) => RunCycles(m1, bps, n1, b)
    decreases |a|
  {
    if |a| == 0 {
      assert a + b == b;
    } else {
      assert (a + b)[0] == a[0] && (a + b)[1..] == a[1..] + b;
      match Tick(m, bps, next, a[0])
      case None =>
      case Some((m1, n1)) => RunCyclesAppend(m1, bps, n1, a[1..], b);
    }
  }

  /** A cycle of the processor is a cycle of the machine, adding `y` on the
      instruction's last cycle and nothing before. */
  lemma CycleIsTick(c: Cpu, next: nat)
    requires Display.Wf(c.display) && c.carry > 0
    ensures Cycle(c, next).None? <==> Tick(Core(c), c.breakpoints, next, if c.carry == 1 then c.y else 0).None?
    ensures Cycle(c, next).Some? ==>
      var (d, n) := Cycle(c, next).value;
      (Core(d), n) == Tick(Core(c), c.breakpoints, next, if c.carry == 1 then c.y else 0).value &&
      d.carry == c.carry - 1 && d.y == c.y && d.breakpoints == c.breakpoints
  {
  }

  /** Draining an instruction runs its pending cycles. */
  lemma {:induction false} DrainIsRun(c: Cpu, next: nat)
    requires Display.Wf(c.display)
    ensures Drain(c, next).None? <==> RunCycles(Core(c), c.breakpoints, next, Pending(c.carry, c.y)).None?
    ensures Drain(c, next).Some? ==>
      var (d, n) := Drain(c, next).value;
      (Core(d), n) == RunCycles(Core(c), c.breakpoints, next, Pending(c.carry, c.y)).value &&
      d.carry <= 0 && d.breakpoints == c.breakpoints
    decreases if c.carry > 0 then c.carry else 0
  {
    if c.carry > 0 {
      var ps := Pending(c.carry, c.y);
      CycleIsTick(c, next);
      assert ps[0] == (if c.carry == 1 then c.y else 0);
      assert ps[1..] == Pending(c.carry - 1, c.y);
      match Cycle(c, next)
      case None =>
      case Some((d, n)) => DrainIsRun(d, n);
    }
  }

  /** The processor state the run leaves once the last instruction is
      issued: the machine's state, the breakpoints, and the instruction in
      flight. */
  function Issue(bps: seq<int>, r: Option<(Machine, nat)>, op: Op): Option<Cpu>
  {
    match r
    case None => None
    case Some((m, _)) => Some(Exec(Cpu(m.x, 0, m.tick, 0, bps, m.trace, m.display), op))
  }

  /** The program runs as the pending cycles followed by the cycles of every
      instruction but the last, which is only issued. */
  lemma {:induction false} RunFromIsRun(c: Cpu, p: seq<Op>, next: nat)
    requires Display.Wf(c.display) && |p| > 0
    ensures RunFrom(c, p, next) ==
      Issue(c.breakpoints, RunCycles(Core(c), c.breakpoints, next, Pending(c.carry, c.y) + Cycles(p[..|p| - 1])), p[|p| - 1])
    decreases |p|
  {
    var bps := c.breakpoints;
    var pend := Pending(c.carry, c.y);
    DrainIsRun(c, next);
    if |p| == 1 {
      assert pend + Cycles(p[..0]) == pend;
    } else {
      var rest := p[1..];
      assert p[..|p| - 1] == [p[0]] + rest[..|rest| - 1];
      assert Cycles(p[..|p| - 1]) == OpCycles(p[0]) + Cycles(rest[..|rest| - 1]);
      assert pend + Cycles(p[..|p| - 1]) == pend + (OpCycles(p[0]) + Cycles(rest[..|rest| - 1]));
      RunCyclesAppend(Core(c), bps, next, pend, OpCycles(p[0]) + Cycles(rest[..|rest| - 1]));
      match Drain(c, next)
      case None =>
      case Some((d, n)) =>
        var e := Exec(d, p[0]);
        RunFromIsRun(e, rest, n);
        assert Pending(e.carry, e.y) == OpCycles(p[0]);
        assert Core(e) == Core(d);
    }
  }

  // ----------------------------------------------------- what a run yields

  /** The value of `x` during each cycle of `cs`, starting from `x0`. */
  function Xs(x0: int, cs: seq<int>): (r: seq<int>)
    ensures |r| == |cs|
  {
    seq(|cs|, k requires 0 <= k < |cs| => x0 + Sum(cs[..k]))
  }

  lemma XsFront(x0: int, cs: seq<int>)
    requires |cs| > 0
    ensures Xs(x0, cs) == [x0] + Xs(x0 + cs[0], cs[1..])
  {
    var a, b := Xs(x0, cs), [x0] + Xs(x0 + cs[0], cs[1..]);
    forall k | 0 <= k < |cs| ensures a[k] == b[k] {
      if k > 0 {
        assert cs[..k][1..] == cs[1..][..k - 1];
        SumFront(cs[..k]);
      }
    }
  }

  /** The run of cycles draws the screen with the sprite at each cycle's
      `x`, and fails exactly when one of those draws does. */
  lemma {:induction false} RunCyclesDraws(m: Machine, bps: seq<int>, next: nat, cs: seq<int>)
    requires Display.Wf(m.display)
    ensures RunCycles(m, bps, next, cs).None? <==> Display.Draws(m.display, Xs(m.x, cs)).None?
    ensures RunCycles(m, bps, next, cs).Some? ==>
      RunCycles(m, bps, next, cs).value.0.display == Display.Draws(m.display, Xs(m.x, cs)).value
    decreases |cs|
  {
    if |cs| > 0 {
      XsFront(m.x, cs);
      var xs := Xs(m.x, cs);
      assert xs[0] == m.x && xs[1..] == Xs(m.x + cs[0], cs[1..]);
      match Tick(m, bps, next, cs[0])
      case None =>
      case Some((m1, n1)) => RunCyclesDraws(m1, bps, n1, cs[1..]);
    }
  }

  /** Strictly increasing from position `from` on. */
  predicate Increasing(s: seq<int>)
  {
    forall i, j :: 0 <= i < j < |s| ==> s[i] < s[j]
  }

  /** The breakpoints from `lo` up to `hi` all fall within the `len`
      cycles after `t0`. */
  predicate Within(bps: seq<int>, lo: nat, hi: nat, t0: int, len: nat)
  {
    lo <= hi <= |bps| && forall k :: lo <= k < hi ==> t0 < bps[k] <= t0 + len
  }

  /** The signal strengths logged at the breakpoints `lo` up to `hi`: the
      cycle number times `x` during that cycle. */
  function Signals(bps: seq<int>, lo: nat, hi: nat, t0: int, xs: seq<int>): (r: seq<int>)
    requires Within(bps, lo, hi, t0, |xs|)
    ensures |r| == hi - lo
  {
    seq(hi - lo, i requires 0 <= i < hi - lo => bps[lo + i] * xs[bps[lo + i] - t0 - 1])
  }

  /** With the pending breakpoints in strictly increasing order and none
      already passed, a run of cycles logs exactly the signal strengths of
      the breakpoints it reaches, in order, and stops at the first it does
      not reach. */
  lemma {:induction false} RunCyclesTrace(m: Machine, bps: seq<int>, next: nat, cs: seq<int>)
    requires Display.Wf(m.display) && RunCycles(m, bps, next, cs).Some?
    requires Increasing(bps) && next <= |bps| && (next < |bps| ==> bps[next] > m.tick)
    ensures var r := RunCycles(m, bps, next, cs).value;
      Within(bps, next, r.1, m.tick, |cs|) && (r.1 < |bps| ==> bps[r.1] > m.tick + |cs|) &&
      r.0.trace == m.trace + Signals(bps, next, r.1, m.tick, Xs(m.x, cs))
    decreases |cs|
  {
    var r := RunCycles(m, bps, next, cs).value;
    if |cs| == 0 {
      assert r.0.trace == m.trace + [];
    } else {
      var t := Tick(m, bps, next, cs[0]).value;
      var m1, n1 := t.0, t.1;
      assert r == RunCycles(m1, bps, n1, cs[1..]).value;
      RunCyclesTrace(m1, bps, n1, cs[1..]);
      XsFront(m.x, cs);
      var xs := Xs(m.x, cs);
      assert xs[1..] == Xs(m1.x, cs[1..]);
      if next < |bps| && bps[next] == m.tick + 1 {
        LogHit(bps, next, r.1, m.tick, xs, m.trace, r.0.trace);
      } else {
        LogMiss(bps, next, r.1, m.tick, xs, m.trace, r.0.trace);
      }
    }
  }

  /** A cycle that hits breakpoint `lo` logs its signal ahead of the rest. */
  lemma LogHit(bps: seq<int>, lo: nat, hi: nat, t0: int, xs: seq<int>, before: seq<int>, after: seq<int>)
    requires |xs| > 0 && lo < |bps| && bps[lo] == t0 + 1
    requires Within(bps, lo + 1, hi, t0 + 1, |xs| - 1)
    requires after == before + [bps[lo] * xs[0]] + Signals(bps, lo + 1, hi, t0 + 1, xs[1..])
    ensures Within(bps, lo, hi, t0, |xs|) && after == before + Signals(bps, lo, hi, t0, xs)
  {
    SignalsShift(bps, lo + 1, hi, t0, xs);
    SignalsCons(bps, lo, hi, t0, xs);
  }

  /** A cycle that hits no breakpoint logs nothing. */
  lemma LogMiss(bps: seq<int>, lo: nat, hi: nat, t0: int, xs: seq<int>, before: seq<int>, after: seq<int>)
    requires |xs| > 0 && Within(bps, lo, hi, t0 + 1, |xs| - 1)
    requires after == before + Signals(bps, lo, hi, t0 + 1, xs[1..])
    ensures Within(bps, lo, hi, t0, |xs|) && after == before + Signals(bps, lo, hi, t0, xs)
  {
    SignalsShift(bps, lo, hi, t0, xs);
  }

  /** The first signal logged, followed by the rest. */
  lemma SignalsCons(bps: seq<int>, lo: nat, hi: nat, t0: int, xs: seq<int>)
    requires Within(bps, lo, hi, t0, |xs|) && lo < hi
    ensures Signals(bps, lo, hi, t0, xs) == [bps[lo] * xs[bps[lo] - t0 - 1]] + Signals(bps, lo + 1, hi, t0, xs)
  {
  }

  /** Signals of breakpoints after the first cycle, seen from one cycle
      later. */
  lemma SignalsShift(bps: seq<int>, lo: nat, hi: nat, t0: int, xs: seq<int>)
    requires |xs| > 0 && Within(bps, lo, hi, t0 + 1, |xs| - 1)
    ensures Within(bps, lo, hi, t0, |xs|)
    ensures Signals(bps, lo, hi, t0, xs) == Signals(bps, lo, hi, t0 + 1, xs[1..])
  {
  }

  // ------------------------------------------------------------- answers

  /** Breakpoints given in order are kept as given. */
  lemma SortedKept(c: Cpu, points: seq<int>)
    requires Increasing(points)
    ensures SetBreakpoints(c, points).breakpoints == points
  {
    AscendingUnique(SetBreakpoints(c, points).breakpoints, points);
  }

  /** A fresh processor driving a fresh `width` by `height` screen, with
      breakpoints `points`, runs `p`. */
  function RunOn(width: nat, height: nat, points: seq<int>, p: seq<Op>): (r: Option<Cpu>)
    ensures r.Some? ==> Display.Wf(r.value.display) && r.value.display.width == width && r.value.display.height == height
  {
    RunProgram(SetBreakpoints(New(Display.New(width, height)), points), p)
  }

  /** A fresh run is the run of the cycles of every instruction but the
      last. */
  lemma RunOnIsRun(width: nat, height: nat, points: seq<int>, p: seq<Op>)
    requires |p| > 0 && Increasing(points)
    ensures var m := Machine(1, 0, [], Display.New(width, height));
      RunOn(width, height, points, p).None? <==> RunCycles(m, points, 0, Cycles(p[..|p| - 1])).None?
    ensures var m := Machine(1, 0, [], Display.New(width, height));
      RunOn(width, height, points, p).Some? ==>
      Core(RunOn(width, height, points, p).value) == RunCycles(m, points, 0, Cycles(p[..|p| - 1])).value.0
  {
    var c := SetBreakpoints(New(Display.New(width, height)), points);
    SortedKept(New(Display.New(width, height)), points);
    var cs := Cycles(p[..|p| - 1]);
    assert Pending(c.carry, c.y) + cs == cs;
    RunFromIsRun(c, p, 0);
  }

  /** The screen a run leaves: with `xs` the value of `x` during each cycle
      the program runs, the run fails exactly when a draw does, and pixel
      `(i, j)` ends up lit exactly when cycle `i * width + j` ran with the
      sprite over column `j`. */
  lemma RunScreen(width: nat, height: nat, points: seq<int>, p: seq<Op>)
    requires |p| > 0 && Increasing(points)
    ensures var xs := Xs(1, Cycles(p[..|p| - 1]));
      RunOn(width, height, points, p).None? <==> Display.Draws(Display.New(width, height), xs).None?
    ensures var xs := Xs(1, Cycles(p[..|p| - 1]));
      RunOn(width, height, points, p).Some? ==>
      forall i, j :: 0 <= i < height && 0 <= j < width ==>
        (RunOn(width, height, points, p).value.display.pixels[i][j] <==>
          Display.Flat(width, i, j) < |xs| && Display.Covers(xs[Display.Flat(width, i, j)], j))
  {
    var cs := Cycles(p[..|p| - 1]);
    RunOnIsRun(width, height, points, p);
    RunCyclesDraws(Machine(1, 0, [], Display.New(width, height)), points, 0, cs);
    if RunOn(width, height, points, p).Some? {
      forall i, j | 0 <= i < height && 0 <= j < width
        ensures RunOn(width, height, points, p).value.display.pixels[i][j] <==>
          Display.Flat(width, i, j) < |cs| && Display.Covers(Xs(1, cs)[Display.Flat(width, i, j)], j)
      {
        Display.DrawsFromNew(width, height, Xs(1, cs), i, j);
      }
    }
  }

  /** The log a run leaves, for positive breakpoints given in strictly
      increasing order: in order, `b * xs[b - 1]` for every breakpoint `b`
      the run reaches, and nothing else. */
  lemma RunTrace(width: nat, height: nat, points: seq<int>, p: seq<Op>)
    requires |p| > 0 && Increasing(points) && (|points| > 0 ==> points[0] > 0)
    requires RunOn(width, height, points, p).Some?
    ensures var xs := Xs(1, Cycles(p[..|p| - 1]));
      exists n: nat :: Within(points, 0, n, 0, |xs|) && (n < |points| ==> points[n] > |xs|) &&
        RunOn(width, height, points, p).value.trace == Signals(points, 0, n, 0, xs)
  {
    var cs := Cycles(p[..|p| - 1]);
    var m := Machine(1, 0, [], Display.New(width, height));
    RunOnIsRun(width, height, points, p);
    RunCyclesTrace(m, points, 0, cs);
    var n := RunCycles(m, points, 0, cs).value.1;
    assert Within(points, 0, n, 0, |Xs(1, cs)|);
  }

  /** The sum of the logged signal strengths. */
  function SignalSum(width: nat, height: nat, points: seq<int>, p: seq<Op>): Option<int>
  {
    match RunOn(width, height, points, p)
    case None => None
    case Some(c) => Some(Sum(c.trace))
  }

  /** The sum covers the signal strengths at the breakpoints the program
      reaches, and fails only where drawing does. */
  lemma SignalSumSpec(width: nat, height: nat, points: seq<int>, p: seq<Op>)
    requires |p| > 0 && Increasing(points) && (|points| > 0 ==> points[0] > 0)
    ensures var xs := Xs(1, Cycles(p[..|p| - 1]));
      SignalSum(width, height, points, p).None? <==> Display.Draws(Display.New(width, height), xs).None?
    ensures var xs := Xs(1, Cycles(p[..|p| - 1]));
      SignalSum(width, height, points, p).Some? ==>
        exists n: nat :: (Within(points, 0, n, 0, |xs|) && (n < |points| ==> points[n] > |xs|) &&
          SignalSum(width, height, points, p).value == Sum(Signals(points, 0, n, 0, xs)))
  {
    RunScreen(width, height, points, p);
    if SignalSum(width, height, points, p).Some? {
      RunTrace(width, height, points, p);
    }
  }

  const BreakpointCycles: seq<int> := [20, 60, 100, 140, 180, 220]

  lemma BreakpointsIncreasing()
    ensures Increasing(BreakpointCycles) && BreakpointCycles[0] > 0
  {
  }

  /** Part one of `main`: a 40 by 6 screen and the six breakpoints. */
  function PartOne(p: seq<Op>): Option<int>
  {
    SignalSum(40, 6, BreakpointCycles, p)
  }

  /** Part one sums the signal strengths at the breakpoints the program
      reaches, and fails only where drawing does. */
  lemma PartOneSpec(p: seq<Op>)
    requires |p| > 0
    ensures var xs := Xs(1, Cycles(p[..|p| - 1]));
      PartOne(p).None? <==> Display.Draws(Display.New(40, 6), xs).None?
    ensures var xs := Xs(1, Cycles(p[..|p| - 1]));
      PartOne(p).Some? ==>
        exists n: nat :: (Within(BreakpointCycles, 0, n, 0, |xs|) && (n < 6 ==> BreakpointCycles[n] > |xs|) &&
          PartOne(p).value == Sum(Signals(BreakpointCycles, 0, n, 0, xs)))
  {
    BreakpointsIncreasing();
    SignalSumSpec(40, 6, BreakpointCycles, p);
  }

  // ------------------------------------------------------------- parsing

  /** `parse_op`: `addx` takes the next word as an `i32`; any other first
      word is a `noop`. `None` where the source unwraps a missing word or a
      bad number. */
  function ParseOp(s: string): (r: Option<Op>)
    ensures SplitChar(s, ' ')[0] != "addx" ==> r == Some(NoOp)
    ensures r.Some? && r.value.AddX? ==> InI32(r.value.v) && SplitChar(s, ' ')[0] == "addx"
  {
    var words := SplitChar(s, ' ');
    if words[0] != "addx" then Some(NoOp)
    else if |words| < 2 then None
    else match ParseI32(words[1])
      case Some(v) => Some(AddX(v))
      case None => None
  }

  /** The line an instruction is written as. */
  function RenderOp(op: Op): string
  {
    match op
    case NoOp => "noop"
    case AddX(v) => "addx " + IntToString(v)
  }

  /** Every instruction with an `i32` operand reads back from its line. */
  lemma ParseRenderOp(op: Op)
    requires op.AddX? ==> InI32(op.v)
    ensures ParseOp(RenderOp(op)) == Some(op)
  {
    match op
    case NoOp =>
      SplitCharAbsent("noop", ' ');
    case AddX(v) =>
      IntToStringChars(v);
      SplitJoinChar(["addx", IntToString(v)], ' ');
      assert Join(["addx", IntToString(v)], [' ']) == "addx " + IntToString(v);
      ParseIntToString(v, I32_MIN, I32_MAX);
  }
}
