/** Day 4: camp cleanup. Each line holds two section ranges `a-b,c-d`;
    part one counts the pairs where one range contains the other, part two
    the pairs that overlap at all. */
module CampCleanup {
  import opened Util
  import opened Text

  /** An inclusive range of section numbers (`i32` bounds). */
  datatype Range = Range(lower: int, upper: int)
  {
    /** `contains`: `other` lies inside this range. */
    predicate Contains(other: Range)
    {
      other.lower >= lower && other.upper <= upper
    }

    /** `overlaps`, exactly as written: this range starts inside `other`,
        or it reaches `other`'s start from below. */
    predicate Overlaps(other: Range)
    {
      (lower >= other.lower && lower <= other.upper) ||
      (upper >= other.lower && lower <= other.lower)
    }

    /** Section `x` is in the range. */
    predicate Covers(x: int)
    {
      lower <= x <= upper
    }

    predicate Valid()
    {
      lower <= upper
    }
  }

  /** `contains` is inclusion of the sections covered. */
  lemma ContainsMeaning(a: Range, b: Range)
    requires b.Valid()
    ensures a.Contains(b) <==> forall x :: b.Covers(x) ==> a.Covers(x)
  {
    if forall x :: b.Covers(x) ==> a.Covers(x) {
      assert b.Covers(b.lower) && b.Covers(b.upper);
    }
  }

  /** For two non-empty ranges, `overlaps` holds exactly when some section
      is in both; so it is symmetric. */
  lemma OverlapsMeaning(a: Range, b: Range)
    requires a.Valid() && b.Valid()
    ensures a.Overlaps(b) <==> exists x :: a.Covers(x) && b.Covers(x)
    ensures a.Overlaps(b) <==> b.Overlaps(a)
  {
    if a.Overlaps(b) {
      var x := Max(a.lower, b.lower);
      assert a.Covers(x) && b.Covers(x);
    }
  }

  /** An empty range can still "overlap" under the formula as written: its
      start lies inside the other range even though it covers nothing. */
  lemma OverlapsEmptyRange()
    ensures Range(5, 3).Overlaps(Range(4, 6))
    ensures forall x :: !Range(5, 3).Covers(x)
  {
  }

  /** A range that contains another overlaps it. */
  lemma ContainsOverlaps(a: Range, b: Range)
    requires b.Valid()
    ensures a.Contains(b) ==> a.Overlaps(b) && b.Overlaps(a)
  {
  }

  // ------------------------------------------------------------- parsing

  /** `Range::from_str`: split on `-`, parse the first two pieces as `i32`
      (the map is lazy, so later pieces are never looked at); `None` for
      either `unwrap` panicking. */
  function ParseRange(s: string): (r: Option<Range>)
    ensures r.Some? ==> InI32(r.value.lower) && InI32(r.value.upper)
  {
    var pieces := SplitChar(s, '-');
    if |pieces| < 2 then None
    else match (ParseI32(pieces[0]), ParseI32(pieces[1]))
      case (Some(a), Some(b)) => Some(Range(a, b))
      case _ => None
  }

  /** `parse_line`: split on `,` and read the first two pieces as ranges. */
  function ParseLine(s: string): (r: Option<(Range, Range)>)
  {
    var pieces := SplitChar(s, ',');
    if |pieces| < 2 then None
    else match (ParseRange(pieces[0]), ParseRange(pieces[1]))
      case (Some(a), Some(b)) => Some((a, b))
      case _ => None
  }

  function RenderRange(r: Range): string
  {
    IntToString(r.lower) + "-" + IntToString(r.upper)
  }

  function RenderLine(a: Range, b: Range): string
  {
    RenderRange(a) + "," + RenderRange(b)
  }

  lemma NatStringNoSign(x: int, c: char)
    requires x >= 0 && !IsDigit(c)
    ensures forall k :: 0 <= k < |IntToString(x)| ==> IntToString(x)[k] != c
  {
    IntToStringChars(x);
    assert IntToString(x) == NatToString(x);
  }

  /** A range of non-negative sections reads back from its rendering. */
  lemma ParseRenderRange(r: Range)
    requires 0 <= r.lower <= I32_MAX && 0 <= r.upper <= I32_MAX
    ensures ParseRange(RenderRange(r)) == Some(r)
    ensures forall k :: 0 <= k < |RenderRange(r)| ==> RenderRange(r)[k] != ','
  {
    NatStringNoSign(r.lower, '-');
    NatStringNoSign(r.upper, '-');
    NatStringNoSign(r.lower, ',');
    NatStringNoSign(r.upper, ',');
    SplitJoinChar([IntToString(r.lower), IntToString(r.upper)], '-');
    assert Join([IntToString(r.lower), IntToString(r.upper)], "-") == RenderRange(r);
    ParseIntToString(r.lower, I32_MIN, I32_MAX);
    ParseIntToString(r.upper, I32_MIN, I32_MAX);
  }

  /** A line of two comma-free pieces is read as those two pieces. */
  lemma ParseLineOf(x: string, y: string)
    requires forall k :: 0 <= k < |x| ==> x[k] != ','
    requires forall k :: 0 <= k < |y| ==> y[k] != ','
    ensures SplitChar(x + "," + y, ',') == [x, y]
  {
    SplitJoinChar([x, y], ',');
    assert Join([x, y], ",") == x + "," + y;
  }

  /** A line of two such ranges reads back as the pair. */
  lemma ParseRenderLine(a: Range, b: Range)
    requires 0 <= a.lower <= I32_MAX && 0 <= a.upper <= I32_MAX
    requires 0 <= b.lower <= I32_MAX && 0 <= b.upper <= I32_MAX
    ensures ParseLine(RenderLine(a, b)) == Some((a, b))
  {
    ParseRenderRange(a);
    ParseRenderRange(b);
    ParseLineOf(RenderRange(a), RenderRange(b));
  }

  // -------------------------------------------------------------- counting

  /** Part one: pairs where either range contains the other. */
  function CountNested(pairs: seq<(Range, Range)>): (n: nat)
    ensures n <= |pairs|
  {
    if |pairs| == 0 then 0
    else
      var (a, b) := pairs[|pairs| - 1];
      CountNested(pairs[..|pairs| - 1]) + (if a.Contains(b) || b.Contains(a) then 1 else 0)
  }

  /** Part two: pairs that overlap. */
  function CountOverlapping(pairs: seq<(Range, Range)>): (n: nat)
    ensures n <= |pairs|
  {
    if |pairs| == 0 then 0
    else
      var (a, b) := pairs[|pairs| - 1];
      CountOverlapping(pairs[..|pairs| - 1]) + (if a.Overlaps(b) then 1 else 0)
  }

  predicate AllValid(pairs: seq<(Range, Range)>)
  {
    forall i :: 0 <= i < |pairs| ==> pairs[i].0.Valid() && pairs[i].1.Valid()
  }

  /** Every nested pair overlaps, so part one never exceeds part two. */
  lemma {:induction false} NestedAtMostOverlapping(pairs: seq<(Range, Range)>)
    requires AllValid(pairs)
    ensures CountNested(pairs) <= CountOverlapping(pairs)
    decreases |pairs|
  {
    if |pairs| > 0 {
      var (a, b) := pairs[|pairs| - 1];
      assert a.Valid() && b.Valid();
      ContainsOverlaps(a, b);
      ContainsOverlaps(b, a);
      assert AllValid(pairs[..|pairs| - 1]);
      NestedAtMostOverlapping(pairs[..|pairs| - 1]);
    }
  }

  /** The counts add up over a split of the list. */
  lemma {:induction false} CountsAppend(p: seq<(Range, Range)>, q: seq<(Range, Range)>)
    ensures CountNested(p + q) == CountNested(p) + CountNested(q)
    ensures CountOverlapping(p + q) == CountOverlapping(p) + CountOverlapping(q)
    decreases |q|
  {
    if |q| == 0 {
      assert p + q == p;
    } else {
      assert (p + q)[..|p + q| - 1] == p + q[..|q| - 1];
      CountsAppend(p, q[..|q| - 1]);
    }
  }

  /** The whole input: `None` when any line fails to parse. */
  function ParseAll(lines: seq<string>): (r: Option<seq<(Range, Range)>>)
    ensures r.Some? <==> forall i :: 0 <= i < |lines| ==> ParseLine(lines[i]).Some?
    ensures r.Some? ==> |r.value| == |lines|
    ensures r.Some? ==> forall i :: 0 <= i < |lines| ==> r.value[i] == ParseLine(lines[i]).value
  {
    if forall i :: 0 <= i < |lines| ==> ParseLine(lines[i]).Some? then
      Some(seq(|lines|, i requires 0 <= i < |lines| => ParseLine(lines[i]).value))
    else None
  }
}
