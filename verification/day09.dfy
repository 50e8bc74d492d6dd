/** Day 9: a rope on a grid. The head steps one square at a time and every
    following knot moves to stay next to the knot before it; the answers
    count the squares the last knot visits. */
module RopeBridge {
  import opened Util
  import opened Text

  datatype Position = Position(x: int, y: int)

  const Origin := Position(0, 0)

  /** The Chebyshev distance: how many king moves apart two squares are. */
  function Dist(a: Position, b: Position): nat
  {
    Max(Abs(a.x - b.x), Abs(a.y - b.y))
  }

  /** Two knots touch: they overlap or are neighbours, diagonals included. */
  predicate Touching(a: Position, b: Position)
  {
    Dist(a, b) <= 1
  }

  /** A move of at most one square along each axis. */
  predicate KingMove(a: Position, b: Position)
  {
    Dist(a, b) <= 1
  }

  /** `update_tail_position`: two apart in a straight line, the tail
      follows along that line; two apart in both axes or a knight's move
      away, it moves one square diagonally toward the head; otherwise it
      stays. */
  function UpdateTail(h: Position, t: Position): (r: Position)
    ensures Touching(h, t) ==> r == t
    ensures Dist(h, t) == 2 ==> Touching(h, r) && KingMove(t, r) && r != t
    ensures Dist(h, t) > 2 ==> r == t
    ensures Abs(h.x - r.x) <= Abs(h.x - t.x) && Abs(h.y - r.y) <= Abs(h.y - t.y)
  {
    var dx := h.x - t.x;
    var dy := h.y - t.y;
    match (Abs(dx), Abs(dy))
    case (2, 0) => Position(t.x + Sign(dx), t.y)
    case (0, 2) => Position(t.x, t.y + Sign(dy))
    case (2, 1) => Position(t.x + Sign(dx), t.y + Sign(dy))
    case (1, 2) => Position(t.x + Sign(dx), t.y + Sign(dy))
    case (2, 2) => Position(t.x + Sign(dx), t.y + Sign(dy))
    case _ => t
  }

  /** A tail that touched the head still touches it after the head makes a
      king move, and the tail itself makes at most a king move. */
  lemma FollowKingMove(hOld: Position, hNew: Position, t: Position)
    requires Touching(hOld, t) && KingMove(hOld, hNew)
    ensures Touching(hNew, UpdateTail(hNew, t)) && KingMove(t, UpdateTail(hNew, t))
  {
  }

  /** The head's step for a direction letter: `R`, `L`, `U` and `D` move
      one square; any other letter leaves the head where it is. */
  function Step(p: Position, dir: char): (r: Position)
    ensures dir in "RLUD" ==> Abs(r.x - p.x) + Abs(r.y - p.y) == 1
    ensures dir !in "RLUD" ==> r == p
  {
    match dir
    case 'R' => p.(x := p.x + 1)
    case 'L' => p.(x := p.x - 1)
    case 'U' => p.(y := p.y + 1)
    case 'D' => p.(y := p.y - 1)
    case _ => p
  }

  // --------------------------------------------------------------- knots

  /** Each knot after the first follows the already-moved knot before it,
      in order. */
  function Pull(head: Position, rest: seq<Position>): (r: seq<Position>)
    ensures |r| == |rest|
    decreases |rest|
  {
    if |rest| == 0 then []
    else
      var t := UpdateTail(head, rest[0]);
      [t] + Pull(t, rest[1..])
  }

  /** One step of the whole rope: the head moves, then the chain follows. */
  function StepRope(knots: seq<Position>, dir: char): (r: seq<Position>)
    requires |knots| >= 1
    ensures |r| == |knots| && r[0] == Step(knots[0], dir)
  {
    var h := Step(knots[0], dir);
    [h] + Pull(h, knots[1..])
  }

  /** Every knot touches the one before it. */
  predicate Taut(knots: seq<Position>)
  {
    forall i :: 1 <= i < |knots| ==> Touching(knots[i - 1], knots[i])
  }

  /** When the knot in front makes a king move, the knots behind it stay
      touching, and each of them makes a king move too. */
  lemma {:induction false} PullTaut(hOld: Position, hNew: Position, rest: seq<Position>)
    requires KingMove(hOld, hNew) && Taut([hOld] + rest)
    ensures Taut([hNew] + Pull(hNew, rest))
    ensures forall i :: 0 <= i < |rest| ==> KingMove(rest[i], Pull(hNew, rest)[i])
    decreases |rest|
  {
    if |rest| > 0 {
      var t := UpdateTail(hNew, rest[0]);
      assert Touching(([hOld] + rest)[0], ([hOld] + rest)[1]);
      FollowKingMove(hOld, hNew, rest[0]);
      assert Taut([rest[0]] + rest[1..]) by {
        assert [rest[0]] + rest[1..] == ([hOld] + rest)[1..];
      }
      PullTaut(rest[0], t, rest[1..]);
      var tail := Pull(t, rest[1..]);
      assert Pull(hNew, rest) == [t] + tail;
      assert [hNew] + Pull(hNew, rest) == [hNew] + ([t] + tail);
      forall i | 1 <= i < |[hNew] + Pull(hNew, rest)|
        ensures Touching(([hNew] + Pull(hNew, rest))[i - 1], ([hNew] + Pull(hNew, rest))[i])
      {
        if i >= 2 {
          assert ([hNew] + Pull(hNew, rest))[i - 1] == ([t] + tail)[i - 2];
          assert ([hNew] + Pull(hNew, rest))[i] == ([t] + tail)[i - 1];
        }
      }
      forall i | 1 <= i < |rest| ensures KingMove(rest[i], Pull(hNew, rest)[i]) {
        assert rest[i] == rest[1..][i - 1];
        assert Pull(hNew, rest)[i] == tail[i - 1];
      }
    }
  }

  /** A step keeps the rope taut, and no knot moves more than one square
      along each axis. */
  lemma StepTaut(knots: seq<Position>, dir: char)
    requires |knots| >= 1 && Taut(knots)
    ensures Taut(StepRope(knots, dir))
    ensures forall i :: 0 <= i < |knots| ==> KingMove(knots[i], StepRope(knots, dir)[i])
  {
    var h := Step(knots[0], dir);
    assert [knots[0]] + knots[1..] == knots;
    PullTaut(knots[0], h, knots[1..]);
    forall i | 1 <= i < |knots| ensures KingMove(knots[i], StepRope(knots, dir)[i]) {
      assert knots[i] == knots[1..][i - 1];
    }
  }

  /** In a taut rope knot `i` is at most `i` king moves from the head. */
  lemma {:induction false} TautSpan(knots: seq<Position>, i: nat)
    requires Taut(knots) && i < |knots|
    ensures Dist(knots[0], knots[i]) <= i
  {
    if i > 0 {
      TautSpan(knots, i - 1);
    }
  }

  // ----------------------------------------------------------- simulation

  /** `count` steps in one direction; the second component collects the
      squares the last knot occupies after each step. */
  function Repeat(knots: seq<Position>, dir: char, count: nat): (r: (seq<Position>, set<Position>))
    requires |knots| >= 1
    ensures |r.0| == |knots|
    ensures count > 0 ==> r.0[|r.0| - 1] in r.1
    ensures |r.1| <= count
  {
    if count == 0 then (knots, {})
    else
      var (mid, seen) := Repeat(knots, dir, count - 1);
      var next := StepRope(mid, dir);
      (next, seen + {next[|next| - 1]})
  }

  /** The whole list of moves: the final rope and every square the last
      knot visited. A negative distance makes an empty range: no steps. */
  function Simulate(knots: seq<Position>, moves: seq<(char, int)>): (r: (seq<Position>, set<Position>))
    requires |knots| >= 1
    ensures |r.0| == |knots|
  {
    if |moves| == 0 then (knots, {})
    else
      var (mid, seen) := Simulate(knots, moves[..|moves| - 1]);
      var (dir, distance) := moves[|moves| - 1];
      var (last, more) := Repeat(mid, dir, if distance > 0 then distance else 0);
      (last, seen + more)
  }

  /** Repeated steps keep a rope taut. */
  lemma {:induction false} RepeatTaut(knots: seq<Position>, dir: char, count: nat)
    requires |knots| >= 1 && Taut(knots)
    ensures Taut(Repeat(knots, dir, count).0)
  {
    if count > 0 {
      RepeatTaut(knots, dir, count - 1);
      StepTaut(Repeat(knots, dir, count - 1).0, dir);
    }
  }

  /** A rope that starts taut is taut after every move. */
  lemma {:induction false} SimulateTaut(knots: seq<Position>, moves: seq<(char, int)>)
    requires |knots| >= 1 && Taut(knots)
    ensures Taut(Simulate(knots, moves).0)
    decreases |moves|
  {
    if |moves| > 0 {
      SimulateTaut(knots, moves[..|moves| - 1]);
      var mid := Simulate(knots, moves[..|moves| - 1]).0;
      var m := moves[|moves| - 1];
      RepeatTaut(mid, m.0, if m.1 > 0 then m.1 else 0);
    }
  }

  /** So the last knot is never further from the head than its index. */
  lemma SimulateSpan(knots: seq<Position>, moves: seq<(char, int)>)
    requires |knots| >= 1 && Taut(knots)
    ensures Dist(Simulate(knots, moves).0[0], Simulate(knots, moves).0[|knots| - 1]) <= |knots| - 1
  {
    SimulateTaut(knots, moves);
    TautSpan(Simulate(knots, moves).0, |knots| - 1);
  }

  /** Part one's loop: a head and one tail, kept as two variables. */
  function PairRepeat(head: Position, tail: Position, dir: char, count: nat): (r: (Position, Position, set<Position>))
  {
    if count == 0 then (head, tail, {})
    else
      var (h, t, seen) := PairRepeat(head, tail, dir, count - 1);
      var h2 := Step(h, dir);
      var t2 := UpdateTail(h2, t);
      (h2, t2, seen + {t2})
  }

  function PairSimulate(head: Position, tail: Position, moves: seq<(char, int)>): (r: (Position, Position, set<Position>))
  {
    if |moves| == 0 then (head, tail, {})
    else
      var (h, t, seen) := PairSimulate(head, tail, moves[..|moves| - 1]);
      var (dir, distance) := moves[|moves| - 1];
      var (h2, t2, more) := PairRepeat(h, t, dir, if distance > 0 then distance else 0);
      (h2, t2, seen + more)
  }

  /** Part one: the number of squares the tail visits. */
  function PartOne(moves: seq<(char, int)>): nat
  {
    |PairSimulate(Origin, Origin, moves).2|
  }

  /** Part two: the same for the tail of a ten-knot rope. */
  function PartTwo(moves: seq<(char, int)>): nat
  {
    |Simulate(seq(10, _ => Origin), moves).1|
  }

  /** One step of a two-knot rope is part one's head step and tail
      update. */
  lemma PairStep(h: Position, t: Position, dir: char)
    ensures StepRope([h, t], dir) == [Step(h, dir), UpdateTail(Step(h, dir), t)]
  {
    var h2 := Step(h, dir);
    assert [h, t][1..] == [t];
    assert Pull(h2, [t]) == [UpdateTail(h2, t)] + Pull(UpdateTail(h2, t), []);
  }

  lemma {:induction false} PairRepeatIsRope(head: Position, tail: Position, dir: char, count: nat)
    ensures Repeat([head, tail], dir, count) ==
      ([PairRepeat(head, tail, dir, count).0, PairRepeat(head, tail, dir, count).1], PairRepeat(head, tail, dir, count).2)
  {
    if count > 0 {
      PairRepeatIsRope(head, tail, dir, count - 1);
      var p := PairRepeat(head, tail, dir, count - 1);
      var r := Repeat([head, tail], dir, count - 1);
      assert r.0 == [p.0, p.1] && r.1 == p.2;
      PairStep(p.0, p.1, dir);
      var h2 := Step(p.0, dir);
      var t2 := UpdateTail(h2, p.1);
      assert PairRepeat(head, tail, dir, count) == (h2, t2, p.2 + {t2});
      assert Repeat([head, tail], dir, count) == ([h2, t2], r.1 + {[h2, t2][1]});
    }
  }

  /** Part one's two-variable loop is the two-knot rope. */
  lemma {:induction false} PairIsRope(head: Position, tail: Position, moves: seq<(char, int)>)
    ensures Simulate([head, tail], moves) ==
      ([PairSimulate(head, tail, moves).0, PairSimulate(head, tail, moves).1], PairSimulate(head, tail, moves).2)
    decreases |moves|
  {
    if |moves| > 0 {
      PairIsRope(head, tail, moves[..|moves| - 1]);
      var p := PairSimulate(head, tail, moves[..|moves| - 1]);
      var m := moves[|moves| - 1];
      PairRepeatIsRope(p.0, p.1, m.0, if m.1 > 0 then m.1 else 0);
    }
  }

  /** So part one counts the squares the tail of a two-knot rope visits. */
  lemma PartOneIsTwoKnots(moves: seq<(char, int)>)
    ensures PartOne(moves) == |Simulate([Origin, Origin], moves).1|
  {
    PairIsRope(Origin, Origin, moves);
  }

  // -------------------------------------------------------------- parsing

  /** One input line: the first character of the first word, and the
      second word as an `i32`; `None` where an `unwrap` panics. */
  function ParseMove(line: string): (r: Option<(char, int)>)
    ensures r.Some? ==> InI32(r.value.1) && |line| > 0 && r.value.0 == line[0]
  {
    var words := SplitChar(line, ' ');
    if |words| < 2 || |words[0]| == 0 then None
    else match ParseI32(words[1])
      case Some(n) =>
        assert words[0][0] == line[0] by {
          SplitHeadPrefix(line, ' ');
        }
        Some((words[0][0], n))
      case None => None
  }

  /** The first piece of a split is a prefix of the string. */
  lemma SplitHeadPrefix(s: string, c: char)
    ensures SplitChar(s, c)[0] <= s
  {
    var ps := SplitChar(s, c);
    if |ps| > 1 {
      JoinHead(ps, [c]);
    }
  }

  lemma JoinHead(parts: seq<string>, sep: string)
    requires |parts| >= 1
    ensures parts[0] <= Join(parts, sep)
  {
  }

  /** A move reads back from its line. */
  lemma ParseRenderMove(dir: char, n: int)
    requires dir != ' ' && 0 <= n <= I32_MAX
    ensures ParseMove([dir] + " " + IntToString(n)) == Some((dir, n))
  {
    var s := IntToString(n);
    IntToStringChars(n);
    assert IntToString(n) == NatToString(n);
    SplitJoinChar([[dir], s], ' ');
    assert Join([[dir], s], [' ']) == [dir] + " " + s;
    ParseIntToString(n, I32_MIN, I32_MAX);
  }
}
