/** Day 12: a height map of letters, searched for the fewest steps from a
    start to an end, where every step goes to a neighbouring square at
    most one unit higher. */
module HillClimbing {
  import opened Util

  // ---------------------------------------------------------- elevations

  /** `convert_char`: `a` to `z` are heights 1 to 26, the start `S` is at
      height 1, the end `E` at height 26, anything else at -1. */
  function ConvertChar(c: char): (r: int)
    ensures 'a' <= c <= 'z' ==> r == c as int - 'a' as int + 1
    ensures c == 'S' ==> r == 1
    ensures c == 'E' ==> r == 26
    ensures !('a' <= c <= 'z') && c != 'S' && c != 'E' ==> r == -1
  {
    if 'a' <= c <= 'z' then c as int - 'a' as int + 1
    else if c == 'S' then 1
    else if c == 'E' then 26
    else -1
  }

  /** The letter for height `h`. */
  function HeightLetter(h: int): (c: char)
    requires 1 <= h <= 26
    ensures 'a' <= c <= 'z'
  {
    ('a' as int + h - 1) as char
  }

  /** Heights are 1 to 26 or the marker -1; the letters and heights are
      in one-to-one correspondence, and `S` and `E` sit at the ends of the
      range. */
  lemma ConvertCharRoundTrip(c: char, h: int)
    ensures ConvertChar(c) == -1 || 1 <= ConvertChar(c) <= 26
    ensures 'a' <= c <= 'z' ==> HeightLetter(ConvertChar(c)) == c
    ensures 1 <= h <= 26 ==> ConvertChar(HeightLetter(h)) == h
    ensures ConvertChar('S') == ConvertChar('a') && ConvertChar('E') == ConvertChar('z')
  {
  }

  // ---------------------------------------------------------------- grid

  /** A grid square, as `find_unique_point` reports it: row `x`, column
      `y`, and its height. */
  datatype Point = Point(x: int, y: int, value: int)

  type Grid = seq<seq<char>>

  predicate InGrid(g: Grid, r: int, c: int)
  {
    0 <= r < |g| && 0 <= c < |g[r]|
  }

  /** Every row is as long as the first, as the cost table assumes. */
  predicate Rectangular(g: Grid)
  {
    |g| > 0 && forall i :: 0 <= i < |g| ==> |g[i]| == |g[0]|
  }

  /** Square `(r1, c1)` comes before `(r2, c2)` in row-major order. */
  predicate Before(r1: int, c1: int, r2: int, c2: int)
  {
    r1 < r2 || (r1 == r2 && c1 < c2)
  }

  /** The matches for `e` among the first `j` squares of row `i`, left to
      right. */
  function RowMatches(g: Grid, e: char, i: nat, j: nat): seq<Point>
    requires i < |g| && j <= |g[i]|
  {
    if j == 0 then []
    else RowMatches(g, e, i, j - 1) + (if g[i][j - 1] == e then [Point(i, j - 1, ConvertChar(e))] else [])
  }

  /** The matches for `e` in the first `i` rows, in row-major order. */
  function Matches(g: Grid, e: char, i: nat): seq<Point>
    requires i <= |g|
  {
    if i == 0 then [] else Matches(g, e, i - 1) + RowMatches(g, e, i - 1, |g[i - 1]|)
  }

  /** All squares holding `e`, in row-major order. */
  function AllMatches(g: Grid, e: char): seq<Point>
  {
    Matches(g, e, |g|)
  }

  /** A point of the list for `e`: a square holding `e`, reported with the
      height of `e`. */
  predicate IsMatch(g: Grid, e: char, p: Point)
  {
    InGrid(g, p.x, p.y) && g[p.x][p.y] == e && p.value == ConvertChar(e)
  }

  /** Points strictly increasing in row-major order. */
  predicate RowMajor(ps: seq<Point>)
  {
    forall k, l :: 0 <= k < l < |ps| ==> Before(ps[k].x, ps[k].y, ps[l].x, ps[l].y)
  }

  /** The row matches are exactly the squares of the row prefix holding
      `e`, left to right. */
  lemma {:induction false} RowMatchesSpec(g: Grid, e: char, i: nat, j: nat)
    requires i < |g| && j <= |g[i]|
    ensures RowMajor(RowMatches(g, e, i, j))
    ensures forall p :: p in RowMatches(g, e, i, j) <==> IsMatch(g, e, p) && p.x == i && p.y < j
    decreases j
  {
    if j > 0 {
      RowMatchesSpec(g, e, i, j - 1);
    }
  }

  /** The matches of the first `i` rows are exactly the squares of those
      rows holding `e`, in row-major order. */
  lemma {:induction false} MatchesSpec(g: Grid, e: char, i: nat)
    requires i <= |g|
    ensures RowMajor(Matches(g, e, i))
    ensures forall p :: p in Matches(g, e, i) <==> IsMatch(g, e, p) && p.x < i
    decreases i
  {
    if i > 0 {
      MatchesSpec(g, e, i - 1);
      RowMatchesSpec(g, e, i - 1, |g[i - 1]|);
      var a, b := Matches(g, e, i - 1), RowMatches(g, e, i - 1, |g[i - 1]|);
      var ab: seq<Point> := a + b;
      forall k, l | 0 <= k < l < |ab|
        ensures Before(ab[k].x, ab[k].y, ab[l].x, ab[l].y)
      {
        if l >= |a| && k < |a| {
          assert a[k] in a && b[l - |a|] in b;
        }
      }
    }
  }

  /** `find_all_points_with_elevation`: every square holding `e`, scanned
      row by row. */
  method FindAllPointsWithElevation(g: Grid, e: char) returns (v: seq<Point>)
    ensures v == AllMatches(g, e)
  {
    v := [];
    var i := 0;
    while i < |g|
      invariant i <= |g| && v == Matches(g, e, i)
    {
      var j := 0;
      while j < |g[i]|
        invariant j <= |g[i]| && v == Matches(g, e, i) + RowMatches(g, e, i, j)
      {
        if g[i][j] == e {
          v := v + [Point(i, j, ConvertChar(e))];
        }
        j := j + 1;
      }
      i := i + 1;
    }
  }

  /** The list for `e` holds exactly the squares holding `e`, each once,
      in row-major order. */
  lemma AllMatchesSpec(g: Grid, e: char)
    ensures RowMajor(AllMatches(g, e))
    ensures forall p :: p in AllMatches(g, e) <==> IsMatch(g, e, p)
  {
    MatchesSpec(g, e, |g|);
  }

  /** `find_unique_point`: the first square holding `v` in row-major
      order, or `None` when no square does. */
  method FindUniquePoint(g: Grid, v: char) returns (r: Option<Point>)
    ensures r.None? <==> forall i, j :: InGrid(g, i, j) ==> g[i][j] != v
    ensures r.Some? ==> IsMatch(g, v, r.value)
    ensures r.Some? ==> forall i, j :: InGrid(g, i, j) && Before(i, j, r.value.x, r.value.y) ==> g[i][j] != v
  {
    var i := 0;
    while i < |g|
      invariant i <= |g|
      invariant forall a, b :: InGrid(g, a, b) && a < i ==> g[a][b] != v
    {
      var j := 0;
      while j < |g[i]|
        invariant j <= |g[i]|
        invariant forall b :: 0 <= b < j ==> g[i][b] != v
      {
        if g[i][j] == v {
          return Some(Point(i, j, ConvertChar(v)));
        }
        j := j + 1;
      }
      i := i + 1;
    }
    return None;
  }

  /** The point `find_unique_point` reports is the head of the list
      `find_all_points_with_elevation` builds. */
  lemma FirstMatchIsHead(g: Grid, v: char, p: Point)
    requires IsMatch(g, v, p)
    requires forall i, j :: InGrid(g, i, j) && Before(i, j, p.x, p.y) ==> g[i][j] != v
    ensures |AllMatches(g, v)| > 0 && AllMatches(g, v)[0] == p
  {
    AllMatchesSpec(g, v);
    var ms := AllMatches(g, v);
    var k :| 0 <= k < |ms| && ms[k] == p;
    assert ms[0] in ms;
    assert !Before(ms[0].x, ms[0].y, p.x, p.y);
  }

  // -------------------------------------------------------------- walking

  type Pos = (int, int)

  /** A step from `a` to `b`: both in the grid, next to each other along a
      row or a column, and `b` at most one unit higher. */
  predicate Step(g: Grid, a: Pos, b: Pos)
  {
    InGrid(g, a.0, a.1) && InGrid(g, b.0, b.1) &&
    Abs(a.0 - b.0) + Abs(a.1 - b.1) == 1 &&
    ConvertChar(g[b.0][b.1]) - ConvertChar(g[a.0][a.1]) <= 1
  }

  /** `w` is a walk of steps from `from` to `to`; it takes `|w| - 1`
      steps. */
  predicate IsWalk(g: Grid, w: seq<Pos>, from: Pos, to: Pos)
  {
    |w| > 0 && w[0] == from && w[|w| - 1] == to && InGrid(g, from.0, from.1) &&
    forall k :: 0 <= k < |w| - 1 ==> Step(g, w[k], w[k + 1])
  }

  /** A walk followed by a step is a walk. */
  lemma WalkExtend(g: Grid, w: seq<Pos>, from: Pos, to: Pos, next: Pos)
    requires IsWalk(g, w, from, to) && Step(g, to, next)
    ensures IsWalk(g, w + [next], from, next)
  {
    var w2 := w + [next];
    forall k | 0 <= k < |w2| - 1 ensures Step(g, w2[k], w2[k + 1]) {
      if k < |w| - 1 {
        assert w2[k] == w[k] && w2[k + 1] == w[k + 1];
      }
    }
  }

  // ----------------------------------------------------------- the search

  /** A queue entry: a cost and the square reached at that cost. The
      source's heap pops the smallest `(cost, x, y)` first. */
  datatype Entry = Entry(cost: int, x: int, y: int)

  predicate EntryLe(a: Entry, b: Entry)
  {
    a.cost < b.cost || (a.cost == b.cost && (a.x < b.x || (a.x == b.x && a.y <= b.y)))
  }

  /** The heap's pop: the position of a least entry. */
  method PopMin(q: seq<Entry>) returns (i: nat)
    requires |q| > 0
    ensures i < |q| && forall k :: 0 <= k < |q| ==> EntryLe(q[i], q[k])
  {
    i := 0;
    var k := 1;
    while k < |q|
      invariant i < k <= |q|
      invariant forall l :: 0 <= l < k ==> EntryLe(q[i], q[l])
    {
      if !EntryLe(q[i], q[k]) {
        i := k;
      }
      k := k + 1;
    }
  }

  /** The cost table has the grid's shape. */
  predicate Shaped(g: Grid, costs: seq<seq<int>>)
  {
    |costs| == |g| && forall i :: 0 <= i < |g| ==> |costs[i]| == |g[i]|
  }

  /** Every cost lies between 0 and `i32::MAX`, the value that stands for
      "not reached". */
  ghost predicate Bounded(g: Grid, costs: seq<seq<int>>)
    requires Shaped(g, costs)
  {
    forall i, j :: InGrid(g, i, j) ==> 0 <= costs[i][j] <= I32_MAX
  }

  /** `after` is `before` with some costs lowered to `from.cost + 1`, each
      for a square one step away from `from`; nothing is raised. */
  ghost predicate LoweredFrom(g: Grid, before: seq<seq<int>>, after: seq<seq<int>>, from: Entry)
  {
    Shaped(g, before) && Shaped(g, after) &&
    forall i, j :: InGrid(g, i, j) ==>
      after[i][j] == before[i][j] ||
      (after[i][j] == from.cost + 1 < before[i][j] && Step(g, (from.x, from.y), (i, j)))
  }

  /** `after` is `before` with entries pushed at the back, each for a
      square one step away from `from`, at cost `from.cost + 1`, below
      `i32::MAX`. */
  predicate PushedFrom(g: Grid, before: seq<Entry>, after: seq<Entry>, from: Entry)
  {
    |before| <= |after| && after[..|before|] == before &&
    forall k :: |before| <= k < |after| ==>
      after[k].cost == from.cost + 1 < I32_MAX && Step(g, (from.x, from.y), (after[k].x, after[k].y))
  }

  /** The sum of all costs; each push lowers it. */
  function GridSum(costs: seq<seq<int>>): int
  {
    if |costs| == 0 then 0 else GridSum(costs[..|costs| - 1]) + Sum(costs[|costs| - 1])
  }

  lemma {:induction false} GridSumUpdate(costs: seq<seq<int>>, r: nat, c: nat, v: int)
    requires r < |costs| && c < |costs[r]|
    ensures GridSum(costs[r := costs[r][c := v]]) == GridSum(costs) - costs[r][c] + v
    decreases |costs|
  {
    var n := |costs| - 1;
    var after := costs[r := costs[r][c := v]];
    if r < n {
      assert after[..n] == costs[..n][r := costs[r][c := v]];
      GridSumUpdate(costs[..n], r, c, v);
    } else {
      assert after[..n] == costs[..n];
      SumUpdate(costs[r], c, v);
    }
  }

  lemma {:induction false} GridSumNonneg(costs: seq<seq<int>>)
    requires forall i, j :: 0 <= i < |costs| && 0 <= j < |costs[i]| ==> costs[i][j] >= 0
    ensures GridSum(costs) >= 0
    decreases |costs|
  {
    if |costs| > 0 {
      GridSumNonneg(costs[..|costs| - 1]);
      SumNonneg(costs[|costs| - 1]);
    }
  }

  /** One neighbour `(r, c)` of the popped entry: skipped when outside the
      grid or more than one unit higher; otherwise, when one more step
      beats its best cost so far, its cost is lowered and it is pushed.
      Costs only ever decrease, and each push lowers the cost total. */
  function RelaxOne(g: Grid, costs: seq<seq<int>>, queue: seq<Entry>, from: Entry, r: int, c: int)
    : (res: (seq<seq<int>>, seq<Entry>))
    requires Shaped(g, costs) && Bounded(g, costs)
    requires InGrid(g, from.x, from.y) && 0 <= from.cost < I32_MAX
    requires Abs(r - from.x) + Abs(c - from.y) == 1
    ensures Shaped(g, res.0) && Bounded(g, res.0)
    ensures LoweredFrom(g, costs, res.0, from)
    ensures PushedFrom(g, queue, res.1, from)
    ensures GridSum(res.0) + (|res.1| - |queue|) <= GridSum(costs)
    ensures !Step(g, (from.x, from.y), (r, c)) ==> res == (costs, queue)
  {
    if !InGrid(g, r, c) then (costs, queue)
    else
      var newHeight := ConvertChar(g[r][c]);
      var currentHeight := ConvertChar(g[from.x][from.y]);
      if newHeight - currentHeight <= 1 then
        var newCost := from.cost + 1;
        if newCost < costs[r][c] then
          var after := costs[r := costs[r][c := newCost]];
          GridSumUpdate(costs, r, c, newCost);
          (after, queue + [Entry(newCost, r, c)])
        else (costs, queue)
      else (costs, queue)
  }

  /** Lowering twice from the same entry is lowering once. */
  lemma LoweredCompose(g: Grid, a: seq<seq<int>>, b: seq<seq<int>>, c: seq<seq<int>>, from: Entry)
    requires LoweredFrom(g, a, b, from) && LoweredFrom(g, b, c, from)
    ensures LoweredFrom(g, a, c, from)
  {
  }

  /** Pushing twice from the same entry is pushing once. */
  lemma PushedCompose(g: Grid, a: seq<Entry>, b: seq<Entry>, c: seq<Entry>, from: Entry)
    requires PushedFrom(g, a, b, from) && PushedFrom(g, b, c, from)
    ensures PushedFrom(g, a, c, from)
  {
    assert c[..|a|] == b[..|b|][..|a|];
    forall k | |a| <= k < |c|
      ensures c[k].cost == from.cost + 1 < I32_MAX && Step(g, (from.x, from.y), (c[k].x, c[k].y))
    {
      if k < |b| {
        assert c[k] == b[k];
      }
    }
  }

  /** The four neighbours of the popped entry, in the source's order: up,
      down, left, right. */
  function Relax(g: Grid, costs: seq<seq<int>>, queue: seq<Entry>, from: Entry): (res: (seq<seq<int>>, seq<Entry>))
    requires Shaped(g, costs) && Bounded(g, costs)
    requires InGrid(g, from.x, from.y) && 0 <= from.cost < I32_MAX
    ensures Shaped(g, res.0) && Bounded(g, res.0)
    ensures LoweredFrom(g, costs, res.0, from)
    ensures PushedFrom(g, queue, res.1, from)
    ensures GridSum(res.0) + (|res.1| - |queue|) <= GridSum(costs)
  {
    var x, y := from.x, from.y;
    var s1 := RelaxOne(g, costs, queue, from, x - 1, y);
    var s2 := RelaxOne(g, s1.0, s1.1, from, x + 1, y);
    var s3 := RelaxOne(g, s2.0, s2.1, from, x, y - 1);
    var s4 := RelaxOne(g, s3.0, s3.1, from, x, y + 1);
    LoweredCompose(g, costs, s1.0, s2.0, from);
    LoweredCompose(g, costs, s2.0, s3.0, from);
    LoweredCompose(g, costs, s3.0, s4.0, from);
    PushedCompose(g, queue, s1.1, s2.1, from);
    PushedCompose(g, queue, s2.1, s3.1, from);
    PushedCompose(g, queue, s3.1, s4.1, from);
    s4
  }

  /** The cost table `find_shortest_path` starts from: every square not
      reached, except the start at cost 0. */
  function InitialCosts(g: Grid, sx: nat, sy: nat): (costs: seq<seq<int>>)
    requires Rectangular(g) && InGrid(g, sx, sy)
    ensures Shaped(g, costs) && Bounded(g, costs) && costs[sx][sy] == 0
    ensures forall i, j :: InGrid(g, i, j) && (i, j) != (sx, sy) ==> costs[i][j] == I32_MAX
  {
    var unreached := seq(|g|, _ => seq(|g[0]|, _ => I32_MAX));
    unreached[sx := unreached[sx][sy := 0]]
  }

  /** Every queue entry is below `i32::MAX` and comes with a walk from
      `src` to its square taking as many steps as its cost. */
  ghost predicate Tracked(g: Grid, src: Pos, queue: seq<Entry>, walks: seq<seq<Pos>>)
  {
    |walks| == |queue| &&
    forall k :: 0 <= k < |queue| ==>
      0 <= queue[k].cost < I32_MAX && IsWalk(g, walks[k], src, (queue[k].x, queue[k].y)) &&
      |walks[k]| == queue[k].cost + 1
  }

  /** Popping an entry keeps the others tracked. */
  lemma TrackedRemove(g: Grid, src: Pos, queue: seq<Entry>, walks: seq<seq<Pos>>, i: nat)
    requires Tracked(g, src, queue, walks) && i < |queue|
    ensures Tracked(g, src, queue[..i] + queue[i + 1..], walks[..i] + walks[i + 1..])
  {
    var q, ws := queue[..i] + queue[i + 1..], walks[..i] + walks[i + 1..];
    forall k | 0 <= k < |q|
      ensures 0 <= q[k].cost < I32_MAX && IsWalk(g, ws[k], src, (q[k].x, q[k].y)) && |ws[k]| == q[k].cost + 1
    {
      if k < i {
        assert q[k] == queue[k] && ws[k] == walks[k];
      } else {
        assert q[k] == queue[k + 1] && ws[k] == walks[k + 1];
      }
    }
  }

  /** The walks for the entries pushed from the end of walk `w`: `w` and
      one more step. */
  ghost function Extended(pushed: seq<Entry>, w: seq<Pos>): (ws: seq<seq<Pos>>)
    ensures |ws| == |pushed|
  {
    seq(|pushed|, k requires 0 <= k < |pushed| => w + [(pushed[k].x, pushed[k].y)])
  }

  /** Entries pushed from a tracked entry are tracked by its walk and one
      more step. */
  lemma TrackedPush(g: Grid, src: Pos, queue: seq<Entry>, walks: seq<seq<Pos>>, after: seq<Entry>,
                    from: Entry, w: seq<Pos>)
    requires Tracked(g, src, queue, walks) && PushedFrom(g, queue, after, from)
    requires IsWalk(g, w, src, (from.x, from.y)) && |w| == from.cost + 1
    ensures Tracked(g, src, after, walks + Extended(after[|queue|..], w))
  {
    var pushed := after[|queue|..];
    var ws := walks + Extended(pushed, w);
    forall k | 0 <= k < |after|
      ensures 0 <= after[k].cost < I32_MAX && IsWalk(g, ws[k], src, (after[k].x, after[k].y)) &&
        |ws[k]| == after[k].cost + 1
    {
      if k < |queue| {
        assert after[k] == after[..|queue|][k];
      } else {
        assert pushed[k - |queue|] == after[k];
        WalkExtend(g, w, src, (from.x, from.y), (after[k].x, after[k].y));
      }
    }
  }

  /** `find_shortest_path`: Dijkstra's search from `start`, popping the
      least `(cost, x, y)` first and returning the cost of the first entry
      popped at `end`, or `i32::MAX` once the queue runs dry. Any other
      result is the length of a walk from the start to the end, so an
      unreachable end gives `i32::MAX`; a start equal to the end gives 0. */
  method FindShortestPath(g: Grid, start: Point, end: Point) returns (result: int)
    requires Rectangular(g) && InGrid(g, start.x, start.y)
    ensures result == I32_MAX ||
      (0 <= result < I32_MAX &&
       exists w :: IsWalk(g, w, (start.x, start.y), (end.x, end.y)) && |w| == result + 1)
    ensures (start.x, start.y) == (end.x, end.y) ==> result == 0
  {
    var src: Pos := (start.x, start.y);
    var dst: Pos := (end.x, end.y);
    var costs := InitialCosts(g, start.x, start.y);
    var queue := [Entry(0, start.x, start.y)];
    ghost var walks: seq<seq<Pos>> := [[src]];
    ghost var first := true;
    while |queue| > 0
      invariant Shaped(g, costs) && Bounded(g, costs) && costs[start.x][start.y] == 0
      invariant Tracked(g, src, queue, walks)
      invariant src == dst ==> first
      invariant first ==> queue == [Entry(0, start.x, start.y)]
      decreases GridSum(costs), |queue|
    {
      GridSumNonneg(costs);
      var i := PopMin(queue);
      var e := queue[i];
      ghost var w := walks[i];
      assert IsWalk(g, w, src, (e.x, e.y)) && |w| == e.cost + 1 && 0 <= e.cost < I32_MAX;
      TrackedRemove(g, src, queue, walks, i);
      queue := queue[..i] + queue[i + 1..];
      walks := walks[..i] + walks[i + 1..];
      if (e.x, e.y) == dst {
        return e.cost;
      }
      first := false;
      assert InGrid(g, e.x, e.y) by {
        if |w| > 1 {
          assert Step(g, w[|w| - 2], w[|w| - 1]);
        }
      }
      if e.cost > costs[e.x][e.y] {
        continue;
      }
      var res := Relax(g, costs, queue, e);
      TrackedPush(g, src, queue, walks, res.1, e, w);
      walks := walks + Extended(res.1[|queue|..], w);
      costs, queue := res.0, res.1;
    }
    return I32_MAX;
  }
}
