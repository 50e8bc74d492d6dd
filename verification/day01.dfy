/** Day 1: the input lists the calories each elf carries, one number per
    line, with a blank line between elves. The answers are the largest
    total and the sum of the three largest totals. */
module Calories {
  import opened Util
  import opened Text
  import opened Ranking

  /** `line.parse::<i32>().unwrap()` on every line: `None` for the panic. */
  function ParseLines(lines: seq<string>): (r: Option<seq<int>>)
    ensures r.Some? <==> forall i :: 0 <= i < |lines| ==> ParseI32(lines[i]).Some?
    ensures r.Some? ==> |r.value| == |lines|
    ensures r.Some? ==> forall i :: 0 <= i < |lines| ==> r.value[i] == ParseI32(lines[i]).value
  {
    if |lines| == 0 then Some([])
    else
      var init := ParseLines(lines[..|lines| - 1]);
      var last := ParseI32(lines[|lines| - 1]);
      if init.None? || last.None? then None else Some(init.value + [last.value])
  }

  /** One elf's total: the `i32` fold over its lines. `None` when a line is
      not an `i32` or a running total overflows. */
  function ElfTotal(group: string): (r: Option<int>)
    ensures r.Some? <==> (ParseLines(SplitChar(group, '\n')).Some? &&
      CheckedSumI32(ParseLines(SplitChar(group, '\n')).value).Some?)
    ensures r.Some? ==> r.value == Sum(ParseLines(SplitChar(group, '\n')).value) && InI32(r.value)
  {
    match ParseLines(SplitChar(group, '\n'))
    case None => None
    case Some(values) => CheckedSumI32(values)
  }

  /** Every elf's total, in input order; `None` when any elf's fold panics. */
  function ElfTotals(groups: seq<string>): (r: Option<seq<int>>)
    ensures r.Some? <==> forall i :: 0 <= i < |groups| ==> ElfTotal(groups[i]).Some?
    ensures r.Some? ==> |r.value| == |groups|
    ensures r.Some? ==> forall i :: 0 <= i < |groups| ==> r.value[i] == ElfTotal(groups[i]).value
  {
    if forall i :: 0 <= i < |groups| ==> ElfTotal(groups[i]).Some? then
      Some(seq(|groups|, i requires 0 <= i < |groups| => ElfTotal(groups[i]).value))
    else None
  }

  /** The totals of the elves of a whole input, split on blank lines. */
  function Totals(input: string): (r: Option<seq<int>>)
    ensures r.Some? ==> |r.value| >= 1
  {
    ElfTotals(Split(input, "\n\n"))
  }

  /** Part one: the largest total, which some elf carries. */
  function MaxCalories(input: string): (r: Option<int>)
    ensures r.Some? <==> Totals(input).Some?
    ensures r.Some? ==> r.value in Totals(input).value
    ensures r.Some? ==> forall i :: 0 <= i < |Totals(input).value| ==> Totals(input).value[i] <= r.value
  {
    match Totals(input)
    case None => None
    case Some(totals) => Some(MaxOf(totals))
  }

  /** The three largest totals (fewer when there are fewer elves). */
  function TopThreeOf(totals: seq<int>): (top: seq<int>)
    ensures |top| == Min(3, |totals|)
    ensures multiset(top) <= multiset(totals)
    ensures forall v :: CountAtLeast(top, v) == Min(|top|, CountAtLeast(totals, v))
  {
    forall v ensures CountAtLeast(SortDesc(totals)[..Min(3, |totals|)], v)
      == Min(Min(3, |totals|), CountAtLeast(totals, v)) {
      TopSumLargest(totals, 3, v);
    }
    TopSumLargest(totals, 3, 0);
    SortDesc(totals)[..Min(3, |totals|)]
  }

  /** Part two: the `i32` sum of the three largest totals; `None` when
      the input does not parse or a running sum leaves `i32`. */
  function TopThree(input: string): (r: Option<int>)
    ensures r.Some? ==> Totals(input).Some? && r.value == Sum(TopThreeOf(Totals(input).value))
    ensures r.Some? <==> (Totals(input).Some? &&
      forall k :: 0 < k <= |TopThreeOf(Totals(input).value)| ==> InI32(Sum(TopThreeOf(Totals(input).value)[..k])))
  {
    match Totals(input)
    case None => None
    case Some(totals) =>
      CheckedSumI32Defined(TopThreeOf(totals));
      CheckedSumI32(TopThreeOf(totals))
  }

  // ------------------------------------------------------------ rendering

  /** The lines of one elf: its numbers in decimal, one per line. */
  function RenderElf(values: seq<int>): string
  {
    Join(seq(|values|, i requires 0 <= i < |values| => IntToString(values[i])), "\n")
  }

  /** A whole input: the elves separated by blank lines. */
  function Render(elves: seq<seq<int>>): string
  {
    Join(seq(|elves|, i requires 0 <= i < |elves| => RenderElf(elves[i])), "\n\n")
  }

  /** An input an elf can write: every elf carries at least one item, every
      item is an `i32` and every running total of an elf fits in `i32`. */
  predicate WellFormed(elves: seq<seq<int>>)
  {
    |elves| >= 1 &&
    forall e :: 0 <= e < |elves| ==>
      |elves[e]| >= 1 &&
      (forall i :: 0 <= i < |elves[e]| ==> InI32(elves[e][i])) &&
      (forall k :: 0 < k <= |elves[e]| ==> InI32(Sum(elves[e][..k])))
  }

  /** No blank line inside, and no newline at the end. */
  predicate NoBlank(g: string)
  {
    (forall j :: 0 <= j < |g| - 1 ==> !(g[j] == '\n' && g[j + 1] == '\n')) &&
    (|g| == 0 || g[|g| - 1] != '\n')
  }

  lemma NoBlankNoMatch(g: string)
    requires NoBlank(g)
    ensures forall k :: !MatchAt(g, "\n\n", k)
  {
    forall k | 0 <= k ensures !MatchAt(g, "\n\n", k) {
      if k + 2 <= |g| {
        assert g[k..k + 2][0] == g[k] && g[k..k + 2][1] == g[k + 1];
      }
    }
  }

  /** The first blank line of `p + "\n\n" + rest` is the one after `p`. */
  lemma SplitBlankStep(p: string, rest: string)
    requires NoBlank(p)
    ensures Split(p + "\n\n" + rest, "\n\n") == [p] + Split(rest, "\n\n")
  {
    var s := p + "\n\n" + rest;
    forall j | 0 <= j < |p| ensures !MatchAt(s, "\n\n", j) {
      assert s[j..j + 2][0] == s[j] == p[j];
      if j + 1 < |p| {
        assert s[j..j + 2][1] == p[j + 1];
      }
    }
    assert s[|p|..|p| + 2] == "\n\n";
    SplitFirst(s, "\n\n", |p|);
    assert s[..|p|] == p;
    assert s[|p| + 2..] == rest;
  }

  /** Splitting on blank lines undoes joining with them. */
  lemma {:induction false} SplitJoinBlank(parts: seq<string>)
    requires |parts| >= 1
    requires forall i :: 0 <= i < |parts| ==> NoBlank(parts[i])
    ensures Split(Join(parts, "\n\n"), "\n\n") == parts
  {
    if |parts| == 1 {
      NoBlankNoMatch(parts[0]);
      assert FindFrom(parts[0], "\n\n", 0).None?;
    } else {
      SplitBlankStep(parts[0], Join(parts[1..], "\n\n"));
      SplitJoinBlank(parts[1..]);
      assert parts == [parts[0]] + parts[1..];
    }
  }

  /** Numbers joined by single newlines leave no blank line and end with a
      digit. */
  lemma {:induction false} JoinLinesNoBlank(lines: seq<string>)
    requires |lines| >= 1
    requires forall i :: 0 <= i < |lines| ==> |lines[i]| > 0
    requires forall i, j :: 0 <= i < |lines| && 0 <= j < |lines[i]| ==> lines[i][j] != '\n'
    ensures NoBlank(Join(lines, "\n"))
    ensures Join(lines, "\n")[0] != '\n'
  {
    if |lines| > 1 {
      var p := lines[0];
      var rest := Join(lines[1..], "\n");
      JoinLinesNoBlank(lines[1..]);
      var s := Join(lines, "\n");
      assert s == p + "\n" + rest;
      forall j | 0 <= j < |s| - 1 ensures !(s[j] == '\n' && s[j + 1] == '\n') {
        if j < |p| {
          assert s[j] == p[j];
        } else if j == |p| {
          assert s[j + 1] == rest[0];
        } else {
          assert s[j] == rest[j - |p| - 1] && s[j + 1] == rest[j - |p|];
        }
      }
      assert s[|s| - 1] == rest[|rest| - 1];
    }
  }

  lemma RenderElfLines(values: seq<int>)
    requires |values| >= 1
    ensures NoBlank(RenderElf(values))
    ensures SplitChar(RenderElf(values), '\n') ==
      seq(|values|, i requires 0 <= i < |values| => IntToString(values[i]))
  {
    var lines := seq(|values|, i requires 0 <= i < |values| => IntToString(values[i]));
    forall i | 0 <= i < |lines| ensures |lines[i]| > 0 &&
      forall j :: 0 <= j < |lines[i]| ==> lines[i][j] != '\n' {
      IntToStringChars(values[i]);
    }
    JoinLinesNoBlank(lines);
    SplitJoinChar(lines, '\n');
  }

  /** Every rendered line parses back to its number. */
  lemma ParseLinesOfRender(values: seq<int>)
    requires forall i :: 0 <= i < |values| ==> InI32(values[i])
    ensures ParseLines(seq(|values|, i requires 0 <= i < |values| => IntToString(values[i]))) == Some(values)
  {
    var lines := seq(|values|, i requires 0 <= i < |values| => IntToString(values[i]));
    forall i | 0 <= i < |values| ensures ParseI32(lines[i]) == Some(values[i]) {
      ParseIntToString(values[i], I32_MIN, I32_MAX);
    }
    assert ParseLines(lines).value == values;
  }

  /** Reading back one rendered elf gives its exact total. */
  lemma ElfTotalOfRender(values: seq<int>)
    requires |values| >= 1
    requires forall i :: 0 <= i < |values| ==> InI32(values[i])
    requires forall k :: 0 < k <= |values| ==> InI32(Sum(values[..k]))
    ensures NoBlank(RenderElf(values))
    ensures ElfTotal(RenderElf(values)) == Some(Sum(values))
  {
    RenderElfLines(values);
    ParseLinesOfRender(values);
    CheckedSumI32Defined(values);
  }

  lemma ElfTotalsAll(groups: seq<string>, totals: seq<int>)
    requires |groups| == |totals|
    requires forall e :: 0 <= e < |groups| ==> ElfTotal(groups[e]) == Some(totals[e])
    ensures ElfTotals(groups) == Some(totals)
  {
    assert ElfTotals(groups).Some?;
    assert ElfTotals(groups).value == totals;
  }

  /** Reading a rendered input gives back every elf's exact total. */
  lemma TotalsOfRender(elves: seq<seq<int>>)
    requires WellFormed(elves)
    ensures Totals(Render(elves)) == Some(seq(|elves|, e requires 0 <= e < |elves| => Sum(elves[e])))
  {
    var groups := seq(|elves|, i requires 0 <= i < |elves| => RenderElf(elves[i]));
    var totals := seq(|elves|, e requires 0 <= e < |elves| => Sum(elves[e]));
    forall e | 0 <= e < |elves| ensures NoBlank(groups[e]) && ElfTotal(groups[e]) == Some(totals[e]) {
      ElfTotalOfRender(elves[e]);
    }
    SplitJoinBlank(groups);
    ElfTotalsAll(groups, totals);
  }
}
