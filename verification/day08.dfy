/** Day 8: the tree-house grid. Part one marks every tree visible from
    outside the grid by scanning each row and each column in both
    directions; part two finds the best scenic score of an inner tree. */
module TreeHouse {
  import opened Util

  type Grid = seq<seq<int>>

  // ------------------------------------------------------------- parsing

  /** The input: one digit per tree; `None` when a character is not a
      digit (`to_digit(10).unwrap()` panics). */
  function ParseGrid(lines: seq<string>): (g: Option<Grid>)
    ensures g.Some? <==> forall r, c :: 0 <= r < |lines| && 0 <= c < |lines[r]| ==> '0' <= lines[r][c] <= '9'
    ensures g.Some? ==> |g.value| == |lines| && forall r :: 0 <= r < |lines| ==> |g.value[r]| == |lines[r]|
    ensures g.Some? ==> forall r, c :: 0 <= r < |lines| && 0 <= c < |lines[r]| ==>
      g.value[r][c] == lines[r][c] as int - '0' as int && 0 <= g.value[r][c] <= 9
  {
    if forall r, c :: 0 <= r < |lines| && 0 <= c < |lines[r]| ==> '0' <= lines[r][c] <= '9' then
      Some(seq(|lines|, r requires 0 <= r < |lines| =>
        seq(|lines[r]|, c requires 0 <= c < |lines[r]| => lines[r][c] as int - '0' as int)))
    else None
  }

  // ------------------------------------------------------------ part one

  /** Both scans use the row count for both axes: every row must have at
      least that many trees, and there must be a first row. */
  predicate Scannable(g: Grid)
  {
    |g| >= 1 && forall r :: 0 <= r < |g| ==> |g[r]| >= |g|
  }

  /** The first `|g|` heights along row `i` (`isRow`) or column `i`. */
  function Line(g: Grid, isRow: bool, i: nat): (line: seq<int>)
    requires Scannable(g) && i < |g|
    ensures |line| == |g|
    ensures forall j :: 0 <= j < |g| ==> line[j] == if isRow then g[i][j] else g[j][i]
  {
    seq(|g|, j requires 0 <= j < |g| => if isRow then g[i][j] else g[j][i])
  }

  /** Tree `j` of a line is taller than every tree before it (and than the
      scan's starting maximum of -1). */
  predicate FromStart(line: seq<int>, j: nat)
    requires j < |line|
  {
    line[j] > -1 && forall k :: 0 <= k < j ==> line[k] < line[j]
  }

  /** Tree `j` of a line is taller than every tree after it. */
  predicate FromEnd(line: seq<int>, j: nat)
    requires j < |line|
  {
    line[j] > -1 && forall k :: j < k < |line| ==> line[k] < line[j]
  }

  predicate Seen(line: seq<int>, j: nat)
    requires j < |line|
  {
    FromStart(line, j) || FromEnd(line, j)
  }

  /** A tree is visible when it is seen along its row or its column, from
      either end. */
  predicate Visible(g: Grid, r: nat, c: nat)
    requires Scannable(g) && r < |g| && c < |g|
  {
    Seen(Line(g, true, r), c) || Seen(Line(g, false, c), r)
  }

  /** The running maximum of a forward scan before position `j`. */
  function RunMax(line: seq<int>, j: nat): int
    requires j <= |line|
  {
    if j == 0 then -1 else Max(RunMax(line, j - 1), line[j - 1])
  }

  /** The running maximum of a backward scan before position `j - 1`. */
  function RunMaxFrom(line: seq<int>, j: nat): int
    requires j <= |line|
    decreases |line| - j
  {
    if j == |line| then -1 else Max(RunMaxFrom(line, j + 1), line[j])
  }

  /** Beating the forward maximum means beating every tree before. */
  lemma {:induction false} AboveRunMax(line: seq<int>, j: nat, h: int)
    requires j <= |line|
    ensures h > RunMax(line, j) <==> h > -1 && forall k :: 0 <= k < j ==> line[k] < h
  {
    if j > 0 {
      AboveRunMax(line, j - 1, h);
    }
  }

  /** Beating the backward maximum means beating every tree after. */
  lemma {:induction false} AboveRunMaxFrom(line: seq<int>, j: nat, h: int)
    requires j <= |line|
    ensures h > RunMaxFrom(line, j) <==> h > -1 && forall k :: j <= k < |line| ==> line[k] < h
    decreases |line| - j
  {
    if j < |line| {
      AboveRunMaxFrom(line, j + 1, h);
    }
  }

  /** Cell `(r, c)` lies on line `i`. */
  predicate OnLine(isRow: bool, i: nat, r: nat, c: nat)
  {
    if isRow then r == i else c == i
  }

  /** The position of cell `(r, c)` along its line. */
  function Pos(isRow: bool, r: nat, c: nat): nat
  {
    if isRow then c else r
  }

  /** The cell at position `p` of line `i`. */
  function RowOf(isRow: bool, i: nat, p: nat): nat { if isRow then i else p }
  function ColOf(isRow: bool, i: nat, p: nat): nat { if isRow then p else i }

  /** The forward scan of line `i`: it marks the trees seen from the
      line's start. */
  method ScanForward(g: Grid, seen: array2<bool>, isRow: bool, i: nat)
    requires Scannable(g) && i < |g| && seen.Length0 == |g| && seen.Length1 == |g|
    modifies seen
    ensures forall r, c :: 0 <= r < |g| && 0 <= c < |g| && !OnLine(isRow, i, r, c) ==> seen[r, c] == old(seen[r, c])
    ensures forall p :: 0 <= p < |g| ==> (seen[RowOf(isRow, i, p), ColOf(isRow, i, p)] ==
      (old(seen[RowOf(isRow, i, p), ColOf(isRow, i, p)]) || FromStart(Line(g, isRow, i), p)))
  {
    var n := |g|;
    ghost var line := Line(g, isRow, i);
    var max := -1;
    var j := 0;
    while j < n
      invariant 0 <= j <= n && max == RunMax(line, j)
      invariant forall r, c :: 0 <= r < n && 0 <= c < n && !OnLine(isRow, i, r, c) ==> seen[r, c] == old(seen[r, c])
      invariant forall p :: 0 <= p < n ==> (seen[RowOf(isRow, i, p), ColOf(isRow, i, p)] ==
        (old(seen[RowOf(isRow, i, p), ColOf(isRow, i, p)]) || (p < j && FromStart(line, p))))
    {
      var r := RowOf(isRow, i, j);
      var c := ColOf(isRow, i, j);
      AboveRunMax(line, j, g[r][c]);
      if g[r][c] > max {
        max := g[r][c];
        seen[r, c] := true;
      }
      j := j + 1;
    }
  }

  /** The backward scan of line `i`: it marks the trees seen from the
      line's end. */
  method ScanBackward(g: Grid, seen: array2<bool>, isRow: bool, i: nat)
    requires Scannable(g) && i < |g| && seen.Length0 == |g| && seen.Length1 == |g|
    modifies seen
    ensures forall r, c :: 0 <= r < |g| && 0 <= c < |g| && !OnLine(isRow, i, r, c) ==> seen[r, c] == old(seen[r, c])
    ensures forall p :: 0 <= p < |g| ==> (seen[RowOf(isRow, i, p), ColOf(isRow, i, p)] ==
      (old(seen[RowOf(isRow, i, p), ColOf(isRow, i, p)]) || FromEnd(Line(g, isRow, i), p)))
  {
    var n := |g|;
    ghost var line := Line(g, isRow, i);
    var max := -1;
    var j := n;
    while j > 0
      invariant 0 <= j <= n && max == RunMaxFrom(line, j)
      invariant forall r, c :: 0 <= r < n && 0 <= c < n && !OnLine(isRow, i, r, c) ==> seen[r, c] == old(seen[r, c])
      invariant forall p :: 0 <= p < n ==> (seen[RowOf(isRow, i, p), ColOf(isRow, i, p)] ==
        (old(seen[RowOf(isRow, i, p), ColOf(isRow, i, p)]) || (p >= j && FromEnd(line, p))))
    {
      j := j - 1;
      var r := RowOf(isRow, i, j);
      var c := ColOf(isRow, i, j);
      AboveRunMaxFrom(line, j + 1, g[r][c]);
      if g[r][c] > max {
        max := g[r][c];
        seen[r, c] := true;
      }
    }
  }

  /** Both scans of line `i`: the cells they mark are those seen from
      either end of the line. */
  method ScanLine(g: Grid, seen: array2<bool>, isRow: bool, i: nat)
    requires Scannable(g) && i < |g| && seen.Length0 == |g| && seen.Length1 == |g|
    modifies seen
    ensures forall r, c :: 0 <= r < |g| && 0 <= c < |g| ==>
      seen[r, c] == (old(seen[r, c]) || (OnLine(isRow, i, r, c) && Seen(Line(g, isRow, i), Pos(isRow, r, c))))
  {
    ScanForward(g, seen, isRow, i);
    ScanBackward(g, seen, isRow, i);
    forall r, c | 0 <= r < |g| && 0 <= c < |g| && OnLine(isRow, i, r, c)
      ensures seen[r, c] == (old(seen[r, c]) || Seen(Line(g, isRow, i), Pos(isRow, r, c)))
    {
      var p := Pos(isRow, r, c);
      assert RowOf(isRow, i, p) == r && ColOf(isRow, i, p) == c;
    }
  }

  /** `scan_visible`: every row (or every column) scanned both ways. */
  method ScanVisible(g: Grid, seen: array2<bool>, isRow: bool)
    requires Scannable(g) && seen.Length0 == |g| && seen.Length1 == |g|
    modifies seen
    ensures forall r, c :: 0 <= r < |g| && 0 <= c < |g| ==>
      seen[r, c] == (old(seen[r, c]) || if isRow then Seen(Line(g, true, r), c) else Seen(Line(g, false, c), r))
  {
    var i := 0;
    while i < |g|
      invariant 0 <= i <= |g|
      invariant forall r, c :: 0 <= r < |g| && 0 <= c < |g| ==>
        seen[r, c] == (old(seen[r, c]) || (Pos(!isRow, r, c) < i &&
          if isRow then Seen(Line(g, true, r), c) else Seen(Line(g, false, c), r)))
    {
      ScanLine(g, seen, isRow, i);
      i := i + 1;
    }
  }

  /** The number of visible trees in row `r` before column `c`. */
  function VisibleInRow(g: Grid, r: nat, c: nat): (k: nat)
    requires Scannable(g) && r < |g| && c <= |g|
    ensures k <= c
  {
    if c == 0 then 0 else VisibleInRow(g, r, c - 1) + (if Visible(g, r, c - 1) then 1 else 0)
  }

  /** The number of visible trees in the rows before `r`. */
  function VisibleCount(g: Grid, r: nat): (k: nat)
    requires Scannable(g) && r <= |g|
    ensures k <= r * |g|
  {
    if r == 0 then 0 else VisibleCount(g, r - 1) + VisibleInRow(g, r - 1, |g|)
  }

  /** The marking half of `count_visible_trees`: after the row scans and
      the column scans, a cell is marked exactly when its tree is
      visible. */
  method MarkVisible(g: Grid) returns (seen: array2<bool>)
    requires Scannable(g)
    ensures fresh(seen) && seen.Length0 == |g| && seen.Length1 == |g|
    ensures forall r, c :: 0 <= r < |g| && 0 <= c < |g| ==> seen[r, c] == Visible(g, r, c)
  {
    var n := |g|;
    seen := new bool[n, n]((_, _) => false);
    ScanVisible(g, seen, true);
    ScanVisible(g, seen, false);
  }

  /** The counting half: the marks, row by row. */
  method CountMarks(g: Grid, seen: array2<bool>) returns (total: nat)
    requires Scannable(g) && seen.Length0 == |g| && seen.Length1 == |g|
    requires forall r, c :: 0 <= r < |g| && 0 <= c < |g| ==> seen[r, c] == Visible(g, r, c)
    ensures total == VisibleCount(g, |g|)
  {
    var n := |g|;
    total := 0;
    var row := 0;
    while row < n
      invariant 0 <= row <= n && total == VisibleCount(g, row)
    {
      var c := 0;
      var inRow := 0;
      while c < n
        invariant 0 <= c <= n && inRow == VisibleInRow(g, row, c)
      {
        if seen[row, c] {
          inRow := inRow + 1;
        }
        c := c + 1;
      }
      total := total + inRow;
      row := row + 1;
    }
  }

  /** `count_visible_trees`: `None` when the source panics (no first row,
      or a row shorter than the row count). Otherwise the number of trees
      visible from outside, which is at most the number of cells. */
  method CountVisibleTrees(g: Grid) returns (r: Option<nat>)
    ensures r.None? <==> !Scannable(g)
    ensures r.Some? ==> r.value == VisibleCount(g, |g|) && r.value <= |g| * |g|
  {
    if |g| == 0 || exists row :: 0 <= row < |g| && |g[row]| < |g| {
      return None;
    }
    var seen := MarkVisible(g);
    var total := CountMarks(g, seen);
    return Some(total);
  }

  /** On a grid of digits every tree on the edge is visible. */
  lemma EdgesVisible(g: Grid, r: nat, c: nat)
    requires Scannable(g) && r < |g| && c < |g|
    requires forall a, b :: 0 <= a < |g| && 0 <= b < |g[a]| ==> g[a][b] >= 0
    requires r == 0 || c == 0 || r == |g| - 1 || c == |g| - 1
    ensures Visible(g, r, c)
  {
    assert g[r][c] >= 0;
    if r == 0 {
      assert FromStart(Line(g, false, c), r);
    } else if c == 0 {
      assert FromStart(Line(g, true, r), c);
    } else if r == |g| - 1 {
      assert FromEnd(Line(g, false, c), r);
    } else {
      assert FromEnd(Line(g, true, r), c);
    }
  }

  // ------------------------------------------------------------ part two

  /** The height at index `x` along row `row` (`isRow`) or column `col`. */
  function At(g: Grid, row: nat, col: nat, x: nat, isRow: bool): int
    requires Reach(g, row, col, x, isRow)
  {
    if isRow then g[row][x] else g[x][col]
  }

  predicate Reach(g: Grid, row: nat, col: nat, x: nat, isRow: bool)
  {
    if isRow then row < |g| && x < |g[row]| else x < |g| && col < |g[x]|
  }

  /** `view_scan`: one plus the number of trees passed before the first
      one at least as tall as the viewer, or before the indices run out. */
  function ViewScan(g: Grid, row: nat, col: nat, inds: seq<nat>, isRow: bool): (count: int)
    requires row < |g| && col < |g[row]|
    requires forall k :: 0 <= k < |inds| ==> Reach(g, row, col, inds[k], isRow)
    ensures 1 <= count <= |inds| + 1
    ensures forall e :: 0 <= e < count - 1 ==> At(g, row, col, inds[e], isRow) < g[row][col]
    ensures count == |inds| + 1 || At(g, row, col, inds[count - 1], isRow) >= g[row][col]
  {
    if |inds| == 0 || At(g, row, col, inds[0], isRow) >= g[row][col] then 1
    else
      var rest := ViewScan(g, row, col, inds[1..], isRow);
      assert forall e :: 1 <= e < |inds| ==> inds[e] == inds[1..][e - 1];
      1 + rest
  }

  /** `a..b`: the indices from `a` up to `b`, excluded. */
  function Upto(a: nat, b: nat): (s: seq<nat>)
    ensures |s| == if a <= b then b - a else 0
    ensures forall k :: 0 <= k < |s| ==> s[k] == a + k
  {
    if a < b then seq(b - a, k requires 0 <= k < b - a => a + k) else []
  }

  /** `(a..=b).rev()`: the indices from `b` down to `a`, included. */
  function Downto(a: nat, b: int): (s: seq<nat>)
    ensures |s| == if a <= b then b - a + 1 else 0
    ensures forall k :: 0 <= k < |s| ==> s[k] == b - k
  {
    if a <= b then seq(b - a + 1, k requires 0 <= k < b - a + 1 => b - k) else []
  }

  /** The inner cells must be readable: every inner row reaches the last
      inner column. */
  predicate Fits(g: Grid)
  {
    |g| >= 1 && |g[0]| >= 1 &&
    forall r :: 1 <= r < |g| - 1 ==> |g[r]| >= |g[0]| - 1
  }

  predicate Inner(g: Grid, i: nat, j: nat)
  {
    |g| >= 1 && 1 <= i < |g| - 1 && 1 <= j < |g[0]| - 1
  }

  /** Looking right from an inner tree: the distance to the first tree at
      least as tall, or to the last column. */
  function ViewRight(g: Grid, i: nat, j: nat): (d: int)
    requires Fits(g) && Inner(g, i, j)
    ensures 1 <= d <= |g[0]| - 1 - j
    ensures j + d == |g[0]| - 1 || g[i][j + d] >= g[i][j]
    ensures forall k :: j < k < j + d ==> g[i][k] < g[i][j]
  {
    var inds := Upto(j + 1, |g[0]| - 1);
    var d := ViewScan(g, i, j, inds, true);
    forall k | j < k < j + d ensures g[i][k] < g[i][j] {
      assert At(g, i, j, inds[k - j - 1], true) < g[i][j];
    }
    d
  }

  /** Looking left: the distance to the first tree at least as tall, or to
      the first column. */
  function ViewLeft(g: Grid, i: nat, j: nat): (d: int)
    requires Fits(g) && Inner(g, i, j)
    ensures 1 <= d <= j
    ensures j - d == 0 || g[i][j - d] >= g[i][j]
    ensures forall k :: j - d < k < j ==> g[i][k] < g[i][j]
  {
    var inds := Downto(1, j - 1);
    var d := ViewScan(g, i, j, inds, true);
    forall k | j - d < k < j ensures g[i][k] < g[i][j] {
      assert At(g, i, j, inds[j - 1 - k], true) < g[i][j];
    }
    d
  }

  /** Looking up: the distance to the first tree at least as tall, or to
      the first row. */
  function ViewUp(g: Grid, i: nat, j: nat): (d: int)
    requires Fits(g) && Inner(g, i, j)
    ensures 1 <= d <= i
    ensures i - d == 0 || g[i - d][j] >= g[i][j]
    ensures forall k :: i - d < k < i ==> g[k][j] < g[i][j]
  {
    var inds := Downto(1, i - 1);
    var d := ViewScan(g, i, j, inds, false);
    forall k | i - d < k < i ensures g[k][j] < g[i][j] {
      assert At(g, i, j, inds[i - 1 - k], false) < g[i][j];
    }
    d
  }

  /** Looking down: the distance to the first tree at least as tall, or to
      the last row. */
  function ViewDown(g: Grid, i: nat, j: nat): (d: int)
    requires Fits(g) && Inner(g, i, j)
    ensures 1 <= d <= |g| - 1 - i
    ensures i + d == |g| - 1 || g[i + d][j] >= g[i][j]
    ensures forall k :: i < k < i + d ==> g[k][j] < g[i][j]
  {
    var inds := Upto(i + 1, |g| - 1);
    var d := ViewScan(g, i, j, inds, false);
    forall k | i < k < i + d ensures g[k][j] < g[i][j] {
      assert At(g, i, j, inds[k - i - 1], false) < g[i][j];
    }
    d
  }

  /** The scenic score: the product of the four viewing distances. */
  function Scenic(g: Grid, i: nat, j: nat): (s: int)
    requires Fits(g) && Inner(g, i, j)
    ensures s >= 1
  {
    var vr := ViewRight(g, i, j);
    var vl := ViewLeft(g, i, j);
    var vu := ViewUp(g, i, j);
    var vd := ViewDown(g, i, j);
    MulAtLeast(vr, vl);
    MulAtLeast(vr * vl, vu);
    MulAtLeast(vr * vl * vu, vd);
    vr * vl * vu * vd
  }

  /** `get_max_scenic_score`: `None` when the source panics: on an empty
      grid or first row (the `- 1` on a `usize`), on an inner row too short
      to read, or when a score overflows `i32` (the factors are all at
      least 1, so some partial product overflows exactly when the score
      does). Otherwise the best score of an inner tree, or -1 when there
      is none. */
  method MaxScenicScore(g: Grid) returns (r: Option<int>)
    ensures r.None? <==> !Fits(g) || exists i: nat, j: nat :: Inner(g, i, j) && Scenic(g, i, j) > I32_MAX
    ensures r.Some? ==> forall i: nat, j: nat :: Inner(g, i, j) ==> Scenic(g, i, j) <= r.value
    ensures r.Some? && r.value != -1 ==> exists i: nat, j: nat :: Inner(g, i, j) && Scenic(g, i, j) == r.value
    ensures r.Some? ==> (r.value == -1 <==> |g| < 3 || |g[0]| < 3)
  {
    if !Fits(g) {
      return None;
    }
    var best := -1;
    ghost var bi: nat, bj: nat := 0, 0;
    var rows := |g| - 1;
    var cols := |g[0]| - 1;
    var i := 1;
    while i < rows
      invariant 1 <= i <= Max(rows, 1)
      invariant forall a: nat, b: nat :: Inner(g, a, b) && a < i ==> Scenic(g, a, b) <= best && Scenic(g, a, b) <= I32_MAX
      invariant best == -1 <==> i == 1 || cols < 2
      invariant best != -1 ==> Inner(g, bi, bj) && Scenic(g, bi, bj) == best
    {
      var j := 1;
      while j < cols
        invariant 1 <= j <= Max(cols, 1)
        invariant forall a: nat, b: nat :: Inner(g, a, b) && (a < i || (a == i && b < j)) ==> Scenic(g, a, b) <= best && Scenic(g, a, b) <= I32_MAX
        invariant best == -1 <==> (i == 1 && j == 1) || cols < 2
        invariant best != -1 ==> Inner(g, bi, bj) && Scenic(g, bi, bj) == best
      {
        var score := Scenic(g, i, j);
        if score > I32_MAX {
          return None;
        }
        ghost var before := best;
        if score > best {
          best, bi, bj := score, i, j;
        }
        forall a: nat, b: nat | Inner(g, a, b) && (a < i || (a == i && b < j + 1))
          ensures Scenic(g, a, b) <= best && Scenic(g, a, b) <= I32_MAX
        {
          if a == i && b == j {
            assert Scenic(g, a, b) == score;
          } else {
            assert Scenic(g, a, b) <= before;
          }
        }
        j := j + 1;
      }
      i := i + 1;
    }
    return Some(best);
  }
}
