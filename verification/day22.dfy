/** Day 22: walking a wrapping map. The map is a set of tiles, open or
    wall, at 1-based (row, column) positions; the walker turns and moves
    as a list of instructions says, wrapping round to the far end of its
    row or column and stopping in front of walls. */
module MonkeyMap {
  import opened Util
  import opened Text

  datatype Rotation = R | L

  datatype Instruction = Turn(r: Rotation) | Move(n: int)

  datatype Heading = Up | Right | Left | Down

  /** `(row, column)`, both from 1. */
  type Pos = (int, int)

  /** The tiles, `true` for a wall; where the walker is; where it faces. */
  datatype Grid = Grid(tiles: map<Pos, bool>, loc: Pos, heading: Heading)

  // ------------------------------------------------------------- parsing

  predicate IsTile(c: char) { c == '.' || c == '#' }

  /** The tiles of one line of the map, in row `row`. */
  function LineTiles(line: string, row: int): (m: map<Pos, bool>)
    ensures forall r, c :: (r, c) in m <==> r == row && 1 <= c <= |line| && IsTile(line[c - 1])
    ensures forall r, c :: (r, c) in m ==> m[(r, c)] == (line[c - 1] == '#')
    decreases |line|
  {
    if |line| == 0 then map[]
    else
      var rest := LineTiles(line[..|line| - 1], row);
      var last := line[|line| - 1];
      if IsTile(last) then rest[(row, |line|) := last == '#'] else rest
  }

  /** The tiles of all the lines, the first line being row 1. */
  function GridTiles(lines: seq<string>): (m: map<Pos, bool>)
    ensures forall r, c :: (r, c) in m <==>
      1 <= r <= |lines| && 1 <= c <= |lines[r - 1]| && IsTile(lines[r - 1][c - 1])
    ensures forall r, c :: (r, c) in m ==> m[(r, c)] == (lines[r - 1][c - 1] == '#')
    decreases |lines|
  {
    if |lines| == 0 then map[]
    else
      var init := lines[..|lines| - 1];
      var rest := GridTiles(init);
      var last := LineTiles(lines[|lines| - 1], |lines|);
      assert forall r :: 0 <= r < |init| ==> init[r] == lines[r];
      rest + last
  }

  /** The first column of a line that holds a tile. */
  function FirstTile(line: string): (r: Option<nat>)
    ensures r.None? <==> forall c :: 0 <= c < |line| ==> !IsTile(line[c])
    ensures r.Some? ==> 1 <= r.value <= |line| && IsTile(line[r.value - 1])
    ensures r.Some? ==> forall c :: 0 <= c < r.value - 1 ==> !IsTile(line[c])
  {
    if |line| == 0 then None
    else if IsTile(line[0]) then Some(1)
    else match FirstTile(line[1..])
      case None => None
      case Some(c) => Some(c + 1)
  }

  /** `Grid::from_str`: the lines split at newlines, `.` an open tile and
      `#` a wall; the walker starts in row 1 at its least column, facing
      right. `None` where row 1 has no tile (the source unwraps an empty
      minimum). */
  function FromStr(s: string): (r: Option<Grid>)
    ensures r.Some? <==> exists c :: 0 <= c < |Split(s, "\n")[0]| && IsTile(Split(s, "\n")[0][c])
    ensures r.Some? ==> r.value.tiles == GridTiles(Split(s, "\n")) && r.value.heading == Right
    ensures r.Some? ==> r.value.loc.0 == 1 && r.value.loc in r.value.tiles
    ensures r.Some? ==> forall c :: (1, c) in r.value.tiles ==> r.value.loc.1 <= c
  {
    var lines := Split(s, "\n");
    match FirstTile(lines[0])
    case None => None
    case Some(col) =>
      var tiles := GridTiles(lines);
      assert IsTile(lines[0][col - 1]);
      assert forall d :: (1, d) in tiles ==> col <= d by {
        forall d | (1, d) in tiles ensures col <= d {
          assert IsTile(lines[0][d - 1]);
        }
      }
      Some(Grid(tiles, (1, col), Right))
  }

  // -------------------------------------------------------------- turning

  /** `apply_rotation`: `R` turns clockwise, `L` anticlockwise. */
  function Rotate(h: Heading, r: Rotation): Heading
  {
    match h
    case Up => if r == R then Right else Left
    case Down => if r == R then Left else Right
    case Left => if r == R then Up else Down
    case Right => if r == R then Down else Up
  }

  /** Turning four times the same way, or one way and then back, faces
      the walker as before; two turns the same way face it the opposite
      way. */
  lemma RotateCycles(h: Heading, r: Rotation)
    ensures Rotate(Rotate(Rotate(Rotate(h, r), r), r), r) == h
    ensures Rotate(Rotate(h, R), L) == h && Rotate(Rotate(h, L), R) == h
    ensures Rotate(Rotate(h, r), r) != h
  {
  }

  // -------------------------------------------------------------- moving

  predicate Horizontal(h: Heading) { h == Left || h == Right }

  /** The coordinate a move changes: the column facing left or right,
      the row facing up or down. */
  function Along(p: Pos, h: Heading): int
  {
    if Horizontal(h) then p.1 else p.0
  }

  /** The tiles in the walker's row (facing left or right) or column
      (facing up or down). */
  ghost function Line(g: Grid): set<Pos>
  {
    if Horizontal(g.heading) then set p | p in g.tiles && p.0 == g.loc.0
    else set p | p in g.tiles && p.1 == g.loc.1
  }

  ghost function Least(s: set<Pos>, h: Heading): (m: int)
    requires s != {}
    ensures exists p :: p in s && Along(p, h) == m
    ensures forall p :: p in s ==> m <= Along(p, h)
    decreases |s|
  {
    var p :| p in s;
    if s == {p} then Along(p, h)
    else
      var rest := Least(s - {p}, h);
      if Along(p, h) <= rest then Along(p, h) else rest
  }

  ghost function Greatest(s: set<Pos>, h: Heading): (m: int)
    requires s != {}
    ensures exists p :: p in s && Along(p, h) == m
    ensures forall p :: p in s ==> Along(p, h) <= m
    decreases |s|
  {
    var p :| p in s;
    if s == {p} then Along(p, h)
    else
      var rest := Greatest(s - {p}, h);
      if Along(p, h) >= rest then Along(p, h) else rest
  }

  /** The coordinate a step aims for: one further along, past the last
      tile back to the first, before the first forward to the last. */
  function Wrap(next: int, lo: int, hi: int): (r: int)
    requires lo <= hi
    ensures lo <= next <= hi ==> r == next
    ensures next > hi ==> r == lo
    ensures next < lo ==> r == hi
  {
    if next > hi then lo else if next < lo then hi else next
  }

  /** The cell one step ahead, wrapping within `lo..=hi`. */
  function Ahead(loc: Pos, h: Heading, lo: int, hi: int): (p: Pos)
    requires lo <= hi
    ensures Horizontal(h) ==> p.0 == loc.0 && lo <= p.1 <= hi
    ensures !Horizontal(h) ==> p.1 == loc.1 && lo <= p.0 <= hi
  {
    match h
    case Right => (loc.0, Wrap(loc.1 + 1, lo, hi))
    case Left => (loc.0, Wrap(loc.1 - 1, lo, hi))
    case Down => (Wrap(loc.0 + 1, lo, hi), loc.1)
    case Up => (Wrap(loc.0 - 1, lo, hi), loc.1)
  }

  /** The steps of one move: up to `k` steps, stopping in front of a
      wall. `None` where a step aims at a cell that is not a tile (the
      source unwraps a missing entry). Every cell entered is an open
      tile of the same row or column. */
  function Steps(tiles: map<Pos, bool>, loc: Pos, h: Heading, lo: int, hi: int, k: int): (r: Option<Pos>)
    requires lo <= hi
    ensures r.Some? && Horizontal(h) ==> r.value.0 == loc.0
    ensures r.Some? && !Horizontal(h) ==> r.value.1 == loc.1
    ensures r.Some? && r.value != loc ==> r.value in tiles && !tiles[r.value]
    ensures k <= 0 ==> r == Some(loc)
    decreases k
  {
    if k <= 0 then Some(loc)
    else
      var next := Ahead(loc, h, lo, hi);
      if next !in tiles then None
      else if tiles[next] then Some(loc)
      else Steps(tiles, next, h, lo, hi, k - 1)
  }

  /** `apply_move`: the walk along the tiles of the walker's row or
      column. Only the column changes when facing left or right and only
      the row when facing up or down; a walker on an open tile ends on an
      open tile. `None` where the source panics: no tile in the line, or a
      step onto a cell that is not a tile. */
  ghost function ApplyMove(g: Grid, distance: int): (r: Option<Grid>)
    ensures distance <= 0 ==> r == Some(g)
    ensures distance > 0 && Line(g) == {} ==> r.None?
    ensures r.Some? ==> r.value.tiles == g.tiles && r.value.heading == g.heading
    ensures r.Some? && Horizontal(g.heading) ==> r.value.loc.0 == g.loc.0
    ensures r.Some? && !Horizontal(g.heading) ==> r.value.loc.1 == g.loc.1
    ensures r.Some? && g.loc in g.tiles && !g.tiles[g.loc] ==> r.value.loc in g.tiles && !g.tiles[r.value.loc]
  {
    if distance <= 0 then Some(g)
    else
      var line := Line(g);
      if line == {} then None
      else
        var lo, hi := Least(line, g.heading), Greatest(line, g.heading);
        assert lo <= hi by {
          var p :| p in line;
        }
        match Steps(g.tiles, g.loc, g.heading, lo, hi, distance)
        case None => None
        case Some(p) => Some(g.(loc := p))
  }

  /** `apply_instructions`: the instructions in order. */
  ghost function ApplyInstructions(g: Grid, ins: seq<Instruction>): (r: Option<Grid>)
    ensures r.Some? ==> r.value.tiles == g.tiles
    ensures r.Some? && g.loc in g.tiles && !g.tiles[g.loc] ==> r.value.loc in g.tiles && !g.tiles[r.value.loc]
    decreases |ins|
  {
    if |ins| == 0 then Some(g)
    else
      var first := match ins[0]
        case Turn(rot) => Some(g.(heading := Rotate(g.heading, rot)))
        case Move(n) => ApplyMove(g, n);
      match first
      case None => None
      case Some(g') => ApplyInstructions(g', ins[1..])
  }

  // ------------------------------------------------------------ password

  /** The facing's part of the password. */
  function Facing(h: Heading): (f: nat)
    ensures f < 4
  {
    match h
    case Right => 0
    case Down => 1
    case Left => 2
    case Up => 3
  }

  /** `get_password`: a thousand times the row, four times the column and
      the facing. */
  function Password(g: Grid): int
  {
    1000 * g.loc.0 + 4 * g.loc.1 + Facing(g.heading)
  }

  /** The password determines the row, the column and the facing, for
      columns below 250. */
  lemma PasswordDecodes(g: Grid)
    requires 1 <= g.loc.1 < 250
    ensures Password(g) / 1000 == g.loc.0
    ensures (Password(g) % 1000) / 4 == g.loc.1
    ensures Password(g) % 4 == Facing(g.heading)
  {
    var p := Password(g);
    var low := 4 * g.loc.1 + Facing(g.heading);
    ModUnique(p, g.loc.0, low, 1000);
    ModUnique(low, g.loc.1, Facing(g.heading), 4);
    ModUnique(p, 250 * g.loc.0 + g.loc.1, Facing(g.heading), 4);
  }

  // -------------------------------------------------------- instructions

  /** `str::replace` of one character by a string. */
  function ReplaceChar(s: string, c: char, t: string): string
  {
    if |s| == 0 then "" else (if s[0] == c then t else [s[0]]) + ReplaceChar(s[1..], c, t)
  }

  lemma {:induction false} ReplaceConcat(a: string, b: string, c: char, t: string)
    ensures ReplaceChar(a + b, c, t) == ReplaceChar(a, c, t) + ReplaceChar(b, c, t)
    decreases |a|
  {
    if |a| > 0 {
      assert (a + b)[0] == a[0];
      assert (a + b)[1..] == a[1..] + b;
      ReplaceConcat(a[1..], b, c, t);
    } else {
      assert a + b == b;
    }
  }

  lemma {:induction false} ReplaceAbsent(s: string, c: char, t: string)
    requires forall i :: 0 <= i < |s| ==> s[i] != c
    ensures ReplaceChar(s, c, t) == s
    decreases |s|
  {
    if |s| > 0 {
      ReplaceAbsent(s[1..], c, t);
    }
  }

  /** One piece between colons: `R`, `L`, or a distance. */
  function ParsePiece(x: string): Option<Instruction>
  {
    if x == "R" then Some(Turn(R))
    else if x == "L" then Some(Turn(L))
    else match ParseI32(x)
      case None => None
      case Some(n) => Some(Move(n))
  }

  function ParsePieces(xs: seq<string>): (r: Option<seq<Instruction>>)
    ensures r.Some? ==> |r.value| == |xs|
    ensures r.Some? ==> forall k :: 0 <= k < |xs| ==> ParsePiece(xs[k]) == Some(r.value[k])
    ensures r.None? ==> exists k :: 0 <= k < |xs| && ParsePiece(xs[k]).None?
  {
    if |xs| == 0 then Some([])
    else match (ParsePiece(xs[0]), ParsePieces(xs[1..]))
      case (Some(i), Some(rest)) => Some([i] + rest)
      case (None, _) => None
      case (_, None) => None
  }

  /** `instructions_from_string`: every `R` and `L` set off by colons,
      the string split at colons, and each piece read as a turn or a
      distance. `None` where a piece is neither (the source unwraps a
      failed parse). */
  function InstructionsFromString(s: string): (r: Option<seq<Instruction>>)
    ensures r.Some? ==> |r.value| == |Split(Expand(s), ":")|
  {
    ParsePieces(Split(Expand(s), ":"))
  }

  function Letter(r: Rotation): string
  {
    if r == R then "R" else "L"
  }

  function Token(i: Instruction): string
  {
    match i
    case Turn(r) => Letter(r)
    case Move(n) => if n >= 0 then NatToString(n) else "0"
  }

  /** Instructions as the puzzle writes them: distances and turns
      alternating, distances first and last, each an `i32` of at least
      zero. */
  predicate Alternating(ins: seq<Instruction>)
  {
    |ins| % 2 == 1 &&
    (forall k :: 0 <= k < |ins| ==> (ins[k].Move? <==> k % 2 == 0)) &&
    (forall k :: 0 <= k < |ins| && ins[k].Move? ==> 0 <= ins[k].n <= I32_MAX)
  }

  function Render(ins: seq<Instruction>): string
  {
    if |ins| == 0 then "" else Token(ins[0]) + Render(ins[1..])
  }

  function Pieces(ins: seq<Instruction>): seq<string>
  {
    seq(|ins|, k requires 0 <= k < |ins| => Token(ins[k]))
  }

  /** Setting off every `R` and `L` by colons. */
  function Expand(s: string): string
  {
    ReplaceChar(ReplaceChar(s, 'R', ":R:"), 'L', ":L:")
  }

  lemma ExpandConcat(a: string, b: string)
    ensures Expand(a + b) == Expand(a) + Expand(b)
  {
    ReplaceConcat(a, b, 'R', ":R:");
    ReplaceConcat(ReplaceChar(a, 'R', ":R:"), ReplaceChar(b, 'R', ":R:"), 'L', ":L:");
  }

  /** A distance has no letters to set off. */
  lemma ExpandDistance(n: nat)
    ensures Expand(NatToString(n)) == NatToString(n)
  {
    var t := NatToString(n);
    assert AllDigits(t);
    ReplaceAbsent(t, 'R', ":R:");
    ReplaceAbsent(t, 'L', ":L:");
  }

  lemma ExpandLetter(r: Rotation)
    ensures Expand(Letter(r)) == ":" + Letter(r) + ":"
  {
    if r == R {
      assert ReplaceChar("R", 'R', ":R:") == ":R:" + ReplaceChar("", 'R', ":R:");
      assert ReplaceChar(":R:", 'L', ":L:") == ":R:" by {
        ReplaceAbsent(":R:", 'L', ":L:");
      }
    } else {
      assert ReplaceChar("L", 'R', ":R:") == "L" by {
        ReplaceAbsent("L", 'R', ":R:");
      }
      assert ReplaceChar("L", 'L', ":L:") == ":L:" + ReplaceChar("", 'L', ":L:");
    }
  }

  /** Dropping a distance and a turn from the front keeps the list
      alternating. */
  lemma AlternatingTail(ins: seq<Instruction>)
    requires Alternating(ins) && |ins| > 1
    ensures |ins| >= 3 && Alternating(ins[2..])
  {
    var rest := ins[2..];
    forall k | 0 <= k < |rest| ensures (rest[k].Move? <==> k % 2 == 0) {
      assert rest[k] == ins[k + 2];
    }
  }

  /** The first two tokens of a rendered list, and its first two pieces. */
  lemma RenderPair(ins: seq<Instruction>)
    requires |ins| >= 3
    ensures Render(ins) == Token(ins[0]) + (Token(ins[1]) + Render(ins[2..]))
    ensures Join(Pieces(ins), ":") == Token(ins[0]) + ":" + (Token(ins[1]) + ":" + Join(Pieces(ins[2..]), ":"))
  {
    assert ins[1..][1..] == ins[2..];
    var ps := Pieces(ins);
    assert ps[1..][1..] == Pieces(ins[2..]);
    assert ps[0] == Token(ins[0]) && ps[1] == Token(ins[1]);
    assert Join(ps, ":") == ps[0] + ":" + Join(ps[1..], ":");
    assert Join(ps[1..], ":") == ps[1] + ":" + Join(ps[1..][1..], ":");
  }

  /** Setting off the turns of a rendered list by colons joins its pieces
      with colons. */
  lemma {:induction false} ExpandRender(ins: seq<Instruction>)
    requires Alternating(ins)
    ensures Expand(Render(ins)) == Join(Pieces(ins), ":")
    decreases |ins|
  {
    assert ins[0].Move?;
    var t := Token(ins[0]);
    ExpandDistance(ins[0].n);
    if |ins| == 1 {
      assert Render(ins) == t + Render(ins[1..]) == t + "" == t;
      assert Pieces(ins) == [t];
    } else {
      AlternatingTail(ins);
      var rest := ins[2..];
      var letter := Token(ins[1]);
      var j := Join(Pieces(rest), ":");
      calc {
        Expand(Render(ins));
        { RenderPair(ins); }
        Expand(t + (letter + Render(rest)));
        { ExpandConcat(t, letter + Render(rest)); ExpandConcat(letter, Render(rest)); }
        t + (Expand(letter) + Expand(Render(rest)));
        { ExpandLetter(ins[1].r); ExpandRender(rest); }
        t + ((":" + letter + ":") + j);
        { Regroup(t, letter, j); }
        t + ":" + (letter + ":" + j);
        { RenderPair(ins); }
        Join(Pieces(ins), ":");
      }
    }
  }

  lemma Regroup(t: string, letter: string, j: string)
    ensures t + ((":" + letter + ":") + j) == t + ":" + (letter + ":" + j)
  {
  }

  /** Reading back rendered instructions gives the instructions. */
  lemma InstructionsRoundTrip(ins: seq<Instruction>)
    requires Alternating(ins)
    ensures InstructionsFromString(Render(ins)) == Some(ins)
  {
    ExpandRender(ins);
    var ps := Pieces(ins);
    forall k, j | 0 <= k < |ps| && 0 <= j < |ps[k]| ensures ps[k][j] != ':' {
      if ins[k].Move? {
        assert AllDigits(ps[k]);
      }
    }
    SplitJoinChar(ps, ':');
    assert [':'] == ":";
    forall k | 0 <= k < |ps| ensures ParsePiece(ps[k]) == Some(ins[k]) {
      if ins[k].Move? {
        var n := ins[k].n;
        assert ps[k] == NatToString(n) == IntToString(n);
        ParseIntToString(n, I32_MIN, I32_MAX);
        assert ps[k] != "R" && ps[k] != "L" by {
          assert AllDigits(ps[k]);
        }
      }
    }
    var r := ParsePieces(ps);
    assert r.Some?;
    assert r.value == ins;
  }
}
