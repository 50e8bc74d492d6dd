/** Day 2: rock-paper-scissors. Each line names the opponent's shape
    (`A`, `B`, `C`) and a second letter (`X`, `Y`, `Z`). The score tables
    are written out in full; their contracts state the rules of the game
    they encode. */
module RockPaperScissors {
  import opened Util
  import opened Text

  /** `line.split(" ").next_tuple().unwrap()`: the first two pieces. */
  function ParseRound(line: string): (r: Option<(string, string)>)
    ensures r.Some? <==> exists k :: 0 <= k < |line| && line[k] == ' '
  {
    var pieces := SplitChar(line, ' ');
    if |pieces| >= 2 then
      SplitPieces(line, pieces);
      Some((pieces[0], pieces[1]))
    else
      SingleNoSpace(line, pieces);
      None
  }

  /** Part one: the second letter is the shape to play; the table is the
      score of that shape plus the score of the outcome, and zero for a
      round with an unknown letter. */
  function ScoreOne(round: (string, string)): (r: int)
    ensures Opponent(round.0).Some? && Mine(round.1).Some? ==>
      r == ShapeScore(Mine(round.1).value) + OutcomeScore(Play(Mine(round.1).value, Opponent(round.0).value))
    ensures Opponent(round.0).None? || Mine(round.1).None? ==> r == 0
    ensures 0 <= r <= 9
  {
    match round
    case ("A", "X") => 4
    case ("A", "Y") => 8
    case ("A", "Z") => 3
    case ("B", "X") => 1
    case ("B", "Y") => 5
    case ("B", "Z") => 9
    case ("C", "X") => 7
    case ("C", "Y") => 2
    case ("C", "Z") => 6
    case _ => 0
  }

  /** Part two: the second letter is the outcome to reach; the table
      plays the one shape that reaches it. */
  function ScoreTwo(round: (string, string)): (r: int)
    ensures Opponent(round.0).Some? && Wanted(round.1).Some? ==>
      var s := ShapeFor(Opponent(round.0).value, Wanted(round.1).value);
      r == ShapeScore(s) + OutcomeScore(Play(s, Opponent(round.0).value))
    ensures Opponent(round.0).None? || Wanted(round.1).None? ==> r == 0
    ensures 0 <= r <= 9
  {
    match round
    case ("A", "X") => 3
    case ("A", "Y") => 4
    case ("A", "Z") => 8
    case ("B", "X") => 1
    case ("B", "Y") => 5
    case ("B", "Z") => 9
    case ("C", "X") => 2
    case ("C", "Y") => 6
    case ("C", "Z") => 7
    case _ => 0
  }

  // ------------------------------------------------------- rules of the game

  datatype Shape = Rock | Paper | Scissors
  datatype Outcome = Lose | Draw | Win

  function Opponent(s: string): Option<Shape>
  {
    if s == "A" then Some(Rock) else if s == "B" then Some(Paper)
    else if s == "C" then Some(Scissors) else None
  }

  function Mine(s: string): Option<Shape>
  {
    if s == "X" then Some(Rock) else if s == "Y" then Some(Paper)
    else if s == "Z" then Some(Scissors) else None
  }

  function Wanted(s: string): Option<Outcome>
  {
    if s == "X" then Some(Lose) else if s == "Y" then Some(Draw)
    else if s == "Z" then Some(Win) else None
  }

  function Beats(s: Shape): Shape
  {
    match s
    case Rock => Scissors
    case Paper => Rock
    case Scissors => Paper
  }

  function Play(mine: Shape, theirs: Shape): Outcome
  {
    if mine == theirs then Draw else if Beats(mine) == theirs then Win else Lose
  }

  function ShapeScore(s: Shape): int
  {
    match s
    case Rock => 1
    case Paper => 2
    case Scissors => 3
  }

  function OutcomeScore(o: Outcome): int
  {
    match o
    case Lose => 0
    case Draw => 3
    case Win => 6
  }

  /** The shape that reaches the wanted outcome against `theirs`. */
  function ShapeFor(theirs: Shape, o: Outcome): (s: Shape)
    ensures Play(s, theirs) == o
    ensures forall m: Shape :: Play(m, theirs) == o ==> m == s
  {
    match o
    case Draw => theirs
    case Win => Beats(Beats(theirs))
    case Lose => Beats(theirs)
  }

  // ------------------------------------------------------------- the totals

  function Rounds(lines: seq<string>): (r: Option<seq<(string, string)>>)
    ensures r.Some? <==> forall i :: 0 <= i < |lines| ==> ParseRound(lines[i]).Some?
    ensures r.Some? ==> |r.value| == |lines|
    ensures r.Some? ==> forall i :: 0 <= i < |lines| ==> r.value[i] == ParseRound(lines[i]).value
  {
    if forall i :: 0 <= i < |lines| ==> ParseRound(lines[i]).Some? then
      Some(seq(|lines|, i requires 0 <= i < |lines| => ParseRound(lines[i]).value))
    else None
  }

  function ScoresOne(rounds: seq<(string, string)>): (r: seq<int>)
    ensures |r| == |rounds| && forall i :: 0 <= i < |r| ==> r[i] == ScoreOne(rounds[i])
  {
    seq(|rounds|, i requires 0 <= i < |rounds| => ScoreOne(rounds[i]))
  }

  function ScoresTwo(rounds: seq<(string, string)>): (r: seq<int>)
    ensures |r| == |rounds| && forall i :: 0 <= i < |r| ==> r[i] == ScoreTwo(rounds[i])
  {
    seq(|rounds|, i requires 0 <= i < |rounds| => ScoreTwo(rounds[i]))
  }

  /** Each part's answer: the `i32` fold of the round scores over the
      lines of the input, which is their sum. `None` when a line has no
      space or a running total leaves `i32`. */
  function TotalOne(input: string): (r: Option<int>)
    ensures r.Some? <==> (Rounds(SplitChar(input, '\n')).Some? &&
      forall k :: 0 < k <= |SplitChar(input, '\n')| ==>
        InI32(Sum(ScoresOne(Rounds(SplitChar(input, '\n')).value)[..k])))
    ensures r.Some? ==> r.value == Sum(ScoresOne(Rounds(SplitChar(input, '\n')).value))
    ensures Rounds(SplitChar(input, '\n')).Some? && 9 * |SplitChar(input, '\n')| <= I32_MAX ==> r.Some?
  {
    match Rounds(SplitChar(input, '\n'))
    case None => None
    case Some(rounds) =>
      FitsI32(ScoresOne(rounds));
      CheckedSumI32Defined(ScoresOne(rounds));
      CheckedSumI32(ScoresOne(rounds))
  }

  function TotalTwo(input: string): (r: Option<int>)
    ensures r.Some? <==> (Rounds(SplitChar(input, '\n')).Some? &&
      forall k :: 0 < k <= |SplitChar(input, '\n')| ==>
        InI32(Sum(ScoresTwo(Rounds(SplitChar(input, '\n')).value)[..k])))
    ensures r.Some? ==> r.value == Sum(ScoresTwo(Rounds(SplitChar(input, '\n')).value))
    ensures Rounds(SplitChar(input, '\n')).Some? && 9 * |SplitChar(input, '\n')| <= I32_MAX ==> r.Some?
  {
    match Rounds(SplitChar(input, '\n'))
    case None => None
    case Some(rounds) =>
      FitsI32(ScoresTwo(rounds));
      CheckedSumI32Defined(ScoresTwo(rounds));
      CheckedSumI32(ScoresTwo(rounds))
  }

  /** A total lies between zero and nine points per round. */
  lemma TotalBounds(input: string)
    ensures TotalOne(input).Some? ==>
      0 <= TotalOne(input).value <= 9 * |SplitChar(input, '\n')|
    ensures TotalTwo(input).Some? ==>
      0 <= TotalTwo(input).value <= 9 * |SplitChar(input, '\n')|
  {
    var lines := SplitChar(input, '\n');
    if Rounds(lines).Some? {
      ScoreSumBounds(ScoresOne(Rounds(lines).value));
      ScoreSumBounds(ScoresTwo(Rounds(lines).value));
    }
  }

  // ------------------------------------------------------------- helpers

  predicate ScoresInRange(s: seq<int>)
  {
    forall i :: 0 <= i < |s| ==> 0 <= s[i] <= 9
  }

  lemma {:induction false} ScoreSumBounds(s: seq<int>)
    requires ScoresInRange(s)
    ensures 0 <= Sum(s) <= 9 * |s|
    decreases |s|
  {
    if |s| > 0 {
      ScoreSumBounds(s[..|s| - 1]);
    }
  }

  /** Scores of at most nine never overflow an `i32` before some
      238 million rounds: the model keeps the check but proves the fold
      defined on any input of fewer rounds. */
  lemma FitsI32(s: seq<int>)
    requires ScoresInRange(s)
    ensures 9 * |s| <= I32_MAX ==> CheckedSumI32(s).Some?
  {
    if 9 * |s| <= I32_MAX {
      forall k | 0 < k <= |s| ensures InI32(Sum(s[..k])) {
        ScoreSumBounds(s[..k]);
      }
      CheckedSumI32Defined(s);
    }
  }

  lemma SplitPieces(line: string, pieces: seq<string>)
    requires pieces == SplitChar(line, ' ') && |pieces| >= 2
    ensures line[|pieces[0]|] == ' '
  {
    assert Join(pieces, " ") == line;
    assert line == pieces[0] + " " + Join(pieces[1..], " ");
  }

  lemma SingleNoSpace(line: string, pieces: seq<string>)
    requires pieces == SplitChar(line, ' ') && |pieces| < 2
    ensures forall k :: 0 <= k < |line| ==> line[k] != ' '
  {
    assert Join(pieces, " ") == line;
    assert pieces[0] == line;
    assert !Contains(line, " ");
    forall k | 0 <= k < |line| ensures line[k] != ' ' {
      assert !MatchAt(line, " ", k);
      assert line[k..k + 1][0] == line[k];
    }
  }

  /** A line of two space-free words reads back as those words. */
  lemma ParseRoundOf(a: string, b: string)
    requires forall k :: 0 <= k < |a| ==> a[k] != ' '
    requires forall k :: 0 <= k < |b| ==> b[k] != ' '
    ensures ParseRound(a + " " + b) == Some((a, b))
  {
    SplitJoinChar([a, b], ' ');
    assert Join([a, b], " ") == a + " " + b;
  }
}
