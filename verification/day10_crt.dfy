/** Day 10, the display: a grid of pixels drawn one position per cycle,
    row by row, each lit when the three-pixel-wide sprite covers its
    column. */
module Display {
  import opened Util

  /** `CRT`: the draw position `index` counts draws; `pixels` is `height`
      rows of `width` pixels. */
  datatype Crt = Crt(width: nat, height: nat, index: nat, pixels: seq<seq<bool>>)

  /** The pixel rows have the advertised shape. */
  predicate Wf(c: Crt)
  {
    |c.pixels| == c.height && forall i :: 0 <= i < |c.pixels| ==> |c.pixels[i]| == c.width
  }

  /** `CRT::new`: every pixel dark, nothing drawn yet. */
  function New(width: nat, height: nat): (c: Crt)
    ensures Wf(c) && c.width == width && c.height == height && c.index == 0
    ensures forall i, j :: 0 <= i < height && 0 <= j < width ==> !c.pixels[i][j]
  {
    Crt(width, height, 0, seq(height, _ => seq(width, _ => false)))
  }

  /** The sprite centred at `sprite` covers column `col`. */
  predicate Covers(sprite: int, col: int)
  {
    Abs(sprite - col) <= 1
  }

  /** Drawing at position `index` panics: the width is zero (a division by
      zero), or the pixel to light lies below the last row. */
  predicate FailsAt(width: nat, height: nat, index: nat, sprite: int)
  {
    width == 0 || (Covers(sprite, index % width) && index / width >= height)
  }

  /** The position of row `i`, column `j` when rows are `width` long. */
  function Flat(width: nat, i: nat, j: nat): nat
  {
    i * width + j
  }

  /** A column inside the row is recovered from its position. */
  lemma FlatDivMod(width: nat, i: nat, j: nat)
    requires j < width
    ensures Flat(width, i, j) / width == i && Flat(width, i, j) % width == j
  {
    ModUnique(Flat(width, i, j), i, j, width);
  }

  /** Every position is that of its own quotient and remainder. */
  lemma FlatOfDivMod(width: nat, p: nat)
    requires width > 0
    ensures p / width >= 0 && Flat(width, p / width, p % width) == p
  {
  }

  /** `after` is `before` with the sprite positions `sprites` drawn one
      after the other: the same shape, the draw position moved on by one
      per draw, and lit exactly the pixels that were lit or were drawn with
      the sprite over their column. */
  predicate Drawn(before: Crt, after: Crt, sprites: seq<int>)
  {
    Wf(before) && Wf(after) && after.width == before.width && after.height == before.height &&
    after.index == before.index + |sprites| &&
    forall i, j :: 0 <= i < before.height && 0 <= j < before.width ==>
      (after.pixels[i][j] <==> before.pixels[i][j] || DrawnLit(before.index, sprites, Flat(before.width, i, j), j))
  }

  /** Among the draws of `sprites`, started at position `start`, the one at
      position `p` lit its pixel in column `col`. */
  predicate DrawnLit(start: nat, sprites: seq<int>, p: int, col: int)
  {
    start <= p < start + |sprites| && Covers(sprites[p - start], col)
  }

  /** `draw`: light the pixel at the draw position when the sprite covers
      its column, then move on; `None` where the source panics. */
  function Draw(c: Crt, sprite: int): (r: Option<Crt>)
    requires Wf(c)
    ensures r.None? <==> FailsAt(c.width, c.height, c.index, sprite)
    ensures r.Some? ==> Drawn(c, r.value, [sprite])
  {
    if c.width == 0 then None
    else
      var px := c.index % c.width;
      var py := c.index / c.width;
      if Covers(sprite, px) then
        if py >= c.height then None
        else
          var r := c.(pixels := c.pixels[py := c.pixels[py][px := true]], index := c.index + 1);
          FlatOfDivMod(c.width, c.index);
          forall i, j | 0 <= i < c.height && 0 <= j < c.width
            ensures Flat(c.width, i, j) == c.index <==> i == py && j == px
          {
            FlatDivMod(c.width, i, j);
          }
          Some(r)
      else
        forall i, j | 0 <= i < c.height && 0 <= j < c.width && Flat(c.width, i, j) == c.index
          ensures j == px
        {
          FlatDivMod(c.width, i, j);
        }
        Some(c.(index := c.index + 1))
  }

  /** Some draw of `sprites`, started at position `start`, panics. */
  predicate AnyFails(width: nat, height: nat, start: nat, sprites: seq<int>)
  {
    exists k :: 0 <= k < |sprites| && FailsAt(width, height, start + k, sprites[k])
  }

  /** Several draws in a row, one sprite position per draw; `None` where
      one of them panics. */
  function Draws(c: Crt, sprites: seq<int>): (r: Option<Crt>)
    requires Wf(c)
    ensures r.None? <==> AnyFails(c.width, c.height, c.index, sprites)
    ensures r.Some? ==> Drawn(c, r.value, sprites)
    decreases |sprites|
  {
    if |sprites| == 0 then
      assert !AnyFails(c.width, c.height, c.index, sprites);
      Some(c)
    else match Draw(c, sprites[0])
      case None =>
        assert FailsAt(c.width, c.height, c.index + 0, sprites[0]);
        None
      case Some(d) =>
        var r := Draws(d, sprites[1..]);
        AnyFailsStep(c.width, c.height, c.index, sprites);
        if r.Some? then
          DrawnCompose(c, d, r.value, [sprites[0]], sprites[1..]);
          assert [sprites[0]] + sprites[1..] == sprites;
          r
        else r
  }

  /** When the first draw succeeds, some draw fails exactly when one of the
      others does. */
  lemma AnyFailsStep(width: nat, height: nat, start: nat, sprites: seq<int>)
    requires |sprites| > 0 && !FailsAt(width, height, start, sprites[0])
    ensures AnyFails(width, height, start, sprites) <==> AnyFails(width, height, start + 1, sprites[1..])
  {
    if AnyFails(width, height, start, sprites) {
      var k :| 0 <= k < |sprites| && FailsAt(width, height, start + k, sprites[k]);
      assert FailsAt(width, height, start + 1 + (k - 1), sprites[1..][k - 1]);
    }
    if AnyFails(width, height, start + 1, sprites[1..]) {
      var k :| 0 <= k < |sprites[1..]| && FailsAt(width, height, start + 1 + k, sprites[1..][k]);
      assert FailsAt(width, height, start + (k + 1), sprites[k + 1]);
    }
  }

  /** Drawing `s` and then `t` is drawing `s + t`. */
  lemma DrawnCompose(a: Crt, b: Crt, c: Crt, s: seq<int>, t: seq<int>)
    requires Drawn(a, b, s) && Drawn(b, c, t)
    ensures Drawn(a, c, s + t)
  {
    forall i, j | 0 <= i < a.height && 0 <= j < a.width
      ensures c.pixels[i][j] <==> a.pixels[i][j] || DrawnLit(a.index, s + t, Flat(a.width, i, j), j)
    {
      var p := Flat(a.width, i, j);
      if a.index + |s| <= p < a.index + |s| + |t| {
        assert (s + t)[p - a.index] == t[p - b.index];
      } else if a.index <= p < a.index + |s| {
        assert (s + t)[p - a.index] == s[p - a.index];
      }
    }
  }

  /** From a fresh display, the pixel in row `i` and column `j` ends up lit
      exactly when the draw numbered `i * width + j` happened and its
      sprite covered column `j`. */
  lemma DrawsFromNew(width: nat, height: nat, sprites: seq<int>, i: nat, j: nat)
    requires i < height && j < width
    requires Draws(New(width, height), sprites).Some?
    ensures Draws(New(width, height), sprites).value.pixels[i][j] <==>
      Flat(width, i, j) < |sprites| && Covers(sprites[Flat(width, i, j)], j)
  {
    var c := New(width, height);
    assert !c.pixels[i][j];
  }

  // ----------------------------------------------------------- rendering

  /** The character shown for column `j` of row `i`; column `width` is the
      line break. */
  function Glyph(rows: seq<seq<bool>>, width: nat, i: nat, j: nat): char
    requires i < |rows| && j <= width && |rows[i]| == width
  {
    if j == width then '\n' else if rows[i][j] then '#' else ','
  }

  predicate Rows(rows: seq<seq<bool>>, width: nat)
  {
    forall i :: 0 <= i < |rows| ==> |rows[i]| == width
  }

  /** One row: `#` for a lit pixel, `,` for a dark one, and a line break. */
  function RenderRow(row: seq<bool>): (r: string)
    ensures |r| == |row| + 1
  {
    seq(|row|, j requires 0 <= j < |row| => if row[j] then '#' else ',') + "\n"
  }

  /** Where the `Debug` output puts row `i`, column `j`: lines are one
      character longer than a row, for the line break. */
  function ScreenPos(width: nat, i: nat, j: nat): nat
  {
    Flat(width + 1, i, j)
  }

  /** The rows one after the other: every character is the glyph of its
      row and column. */
  function RenderRows(rows: seq<seq<bool>>, width: nat): (r: string)
    requires Rows(rows, width)
    ensures |r| == |rows| * (width + 1)
    ensures forall i, j :: 0 <= i < |rows| && 0 <= j <= width ==>
      ScreenPos(width, i, j) < |r| && r[ScreenPos(width, i, j)] == Glyph(rows, width, i, j)
    decreases |rows|
  {
    if |rows| == 0 then ""
    else
      var n := |rows| - 1;
      var init := RenderRows(rows[..n], width);
      var r := init + RenderRow(rows[n]);
      assert |r| == |rows| * (width + 1) by {
        assert |rows| * (width + 1) == n * (width + 1) + (width + 1);
      }
      forall i, j | 0 <= i < |rows| && 0 <= j <= width
        ensures ScreenPos(width, i, j) < |r| && r[ScreenPos(width, i, j)] == Glyph(rows, width, i, j)
      {
        if i < n {
          FlatBelow(width + 1, n, i, j);
        }
      }
      r
  }

  /** The `Debug` output: `height` lines of `width` characters and a line
      break each. */
  function Render(c: Crt): (r: string)
    requires Wf(c)
    ensures |r| == c.height * (c.width + 1)
    ensures forall i, j :: 0 <= i < c.height && 0 <= j < c.width ==>
      ScreenPos(c.width, i, j) < |r| && r[ScreenPos(c.width, i, j)] == (if c.pixels[i][j] then '#' else ',')
    ensures forall i :: 0 <= i < c.height ==> ScreenPos(c.width, i, c.width) < |r| && r[ScreenPos(c.width, i, c.width)] == '\n'
  {
    RenderRows(c.pixels, c.width)
  }

  /** A position in row `i < height` lies before `height` full rows. */
  lemma FlatBelow(width: nat, height: nat, i: nat, j: nat)
    requires i < height && j < width
    ensures Flat(width, i, j) < height * width
  {
    MulAtLeast(height - i, width);
    assert height * width == (height - i) * width + i * width;
  }
}
