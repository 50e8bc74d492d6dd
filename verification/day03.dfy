/** Day 3: rucksacks. Each line lists the items of one rucksack, half in
    each compartment; the item type found in both compartments, and the
    badge common to each group of three elves, are scored by priority. */
module Rucksacks {
  import opened Util

  predicate IsLower(c: char) { 'a' <= c <= 'z' }
  predicate IsUpper(c: char) { 'A' <= c <= 'Z' }

  /** `char_to_int`: `a`..`z` score 1..26, `A`..`Z` score 27..52, every
      other character 0. */
  function Priority(c: char): (p: int)
    ensures IsLower(c) ==> p == (c as int) - ('a' as int) + 1
    ensures IsUpper(c) ==> p == (c as int) - ('A' as int) + 27
    ensures 1 <= p <= 52 <==> IsLower(c) || IsUpper(c)
    ensures p == 0 <==> !(IsLower(c) || IsUpper(c))
  {
    if IsLower(c) then (c as int) - ('a' as int) + 1
    else if IsUpper(c) then (c as int) - ('A' as int) + 27
    else 0
  }

  /** The item type of a priority. */
  function ItemOf(p: int): (c: char)
    requires 1 <= p <= 52
    ensures IsLower(c) || IsUpper(c)
  {
    if p <= 26 then ('a' as int + p - 1) as char else ('A' as int + p - 27) as char
  }

  /** Priorities name letters one to one. */
  lemma PriorityInverse(c: char, p: int)
    ensures IsLower(c) || IsUpper(c) ==> ItemOf(Priority(c)) == c
    ensures 1 <= p <= 52 ==> Priority(ItemOf(p)) == p
  {
  }

  function CharSet(s: string): (r: set<char>)
    ensures forall c :: c in r <==> c in s
  {
    set i | 0 <= i < |s| :: s[i]
  }

  /** The index of the first character of `s` at or after `i` that lies in
      `items`, or `|s|` when there is none. */
  function FirstIn(s: string, items: set<char>, i: nat): (k: nat)
    requires i <= |s|
    ensures i <= k <= |s|
    ensures k < |s| ==> s[k] in items
    ensures forall j :: i <= j < k ==> s[j] !in items
    decreases |s| - i
  {
    if i == |s| || s[i] in items then i else FirstIn(s, items, i + 1)
  }

  /** The two compartments: `line.split_at(count / 2)`. */
  function FirstHalf(line: string): string { line[..|line| / 2] }
  function SecondHalf(line: string): string { line[|line| / 2..] }

  /** Position `k` of the second compartment holds the first of its items
      that the first compartment also holds. */
  predicate FirstShared(line: string, k: int)
  {
    0 <= k < |SecondHalf(line)| && SecondHalf(line)[k] in FirstHalf(line) &&
    forall j :: 0 <= j < k ==> SecondHalf(line)[j] !in FirstHalf(line)
  }

  /** `calculate_priority_score`: the line is cut in the middle; the first
      item of the second compartment that also lies in the first one is
      scored, and a line without such an item scores 0. */
  function PriorityScore(line: string): (r: int)
    ensures 0 <= r <= 52
    ensures forall k :: FirstShared(line, k) ==> r == Priority(SecondHalf(line)[k])
    ensures (forall k :: 0 <= k < |SecondHalf(line)| ==> SecondHalf(line)[k] !in FirstHalf(line)) ==> r == 0
  {
    var first := FirstHalf(line);
    var second := SecondHalf(line);
    var k := FirstIn(second, CharSet(first), 0);
    assert forall k' :: FirstShared(line, k') ==> k' == k;
    if k < |second| then Priority(second[k]) else 0
  }

  /** The scores the unit test of `calculate_priority_score` expects of
      its six sample lines, each written as its two compartments. */
  lemma SampleScore1()
    ensures PriorityScore("vJrwpWtwJgWr" + "hcsFMMfFFhFp") == 16
  {
    assert 'F' !in "vJrwpWtwJgWr";
    assert 'M' !in "vJrwpWtwJgWr";
    assert 'c' !in "vJrwpWtwJgWr";
    assert 'f' !in "vJrwpWtwJgWr";
    assert 'h' !in "vJrwpWtwJgWr";
    assert 's' !in "vJrwpWtwJgWr";
    SampleScore("vJrwpWtwJgWr", "hcsFMMfFFhFp", 11, 4);
  }

  lemma SampleScore2()
    ensures PriorityScore("jqHRNqRjqzjGDLGL" + "rsFMfFZSrLrFZsSL") == 38
  {
    SampleTwoUnshared();
    SampleScore("jqHRNqRjqzjGDLGL", "rsFMfFZSrLrFZsSL", 9, 13);
  }

  /** The second sample line's second compartment shares nothing with
      the first before its `L`. */
  lemma SampleTwoUnshared()
    ensures forall i :: 0 <= i < 9 ==> "rsFMfFZSrLrFZsSL"[i] !in "jqHRNqRjqzjGDLGL"
  {
    SampleTwoAbsent('F');
    SampleTwoAbsent('M');
    SampleTwoAbsent('S');
    SampleTwoAbsent('Z');
    SampleTwoAbsent('f');
    SampleTwoAbsent('r');
    SampleTwoAbsent('s');
  }

  /** A letter none of `j q H R N z G D L` is not in the second sample
      line's first compartment. */
  lemma SampleTwoAbsent(c: char)
    requires c !in "jqHRNzGDL"
    ensures c !in "jqHRNqRjqzjGDLGL"
  {
  }

  lemma SampleScore3()
    ensures PriorityScore("PmmdzqPrV" + "vPwwTWBwg") == 42
  {
    assert 'v' !in "PmmdzqPrV";
    SampleScore("PmmdzqPrV", "vPwwTWBwg", 1, 0);
  }

  lemma SampleScore4()
    ensures PriorityScore("wMqvLMZHhHMvwLH" + "jbvcjnnSBnvTQFn") == 22
  {
    assert 'b' !in "wMqvLMZHhHMvwLH";
    assert 'j' !in "wMqvLMZHhHMvwLH";
    SampleScore("wMqvLMZHhHMvwLH", "jbvcjnnSBnvTQFn", 2, 3);
  }

  lemma SampleScore5()
    ensures PriorityScore("ttgJtRGJ" + "QctTZtZT") == 20
  {
    assert 'Q' !in "ttgJtRGJ";
    assert 'c' !in "ttgJtRGJ";
    SampleScore("ttgJtRGJ", "QctTZtZT", 2, 0);
  }

  lemma SampleScore6()
    ensures PriorityScore("CrZsJsPPZsGz" + "wwsLwLmpwMDw") == 19
  {
    assert 'w' !in "CrZsJsPPZsGz";
    SampleScore("CrZsJsPPZsGz", "wwsLwLmpwMDw", 2, 3);
  }

  /** A line `first + second` whose shared item sits at `k` of the second
      compartment and `j` of the first. */
  lemma SampleScore(first: string, second: string, k: int, j: int)
    requires |first| == |second| && 0 <= k < |second| && 0 <= j < |first|
    requires first[j] == second[k]
    requires forall i :: 0 <= i < k ==> second[i] !in first
    ensures PriorityScore(first + second) == Priority(second[k])
  {
    var line := first + second;
    assert FirstHalf(line) == first;
    assert SecondHalf(line) == second;
    assert FirstShared(line, k);
  }

  /** Part one: the sum of the line scores. */
  function PartOne(lines: seq<string>): (total: int)
    ensures 0 <= total <= 52 * |lines|
  {
    if |lines| == 0 then 0 else PartOne(lines[..|lines| - 1]) + PriorityScore(lines[|lines| - 1])
  }

  /** Part one adds up line by line: a single line scores its own score,
      and the total of two inputs one after the other is the sum of their
      totals. */
  lemma {:induction false} PartOneAppend(a: seq<string>, b: seq<string>)
    ensures PartOne([]) == 0
    ensures |b| == 1 ==> PartOne(b) == PriorityScore(b[0])
    ensures PartOne(a + b) == PartOne(a) + PartOne(b)
    decreases |b|
  {
    if |b| == 1 {
      assert b[..0] == [];
    }
    if |b| == 0 {
      assert a + b == a;
    } else {
      var n := |b| - 1;
      assert (a + b)[..|a + b| - 1] == a + b[..n];
      PartOneAppend(a, b[..n]);
    }
  }

  /** The item types every rucksack of a group holds: the fold of set
      intersection over the group. */
  function Common(group: seq<string>): (r: set<char>)
    requires |group| >= 1
    ensures forall c :: c in r <==> forall i :: 0 <= i < |group| ==> c in group[i]
  {
    if |group| == 1 then CharSet(group[0])
    else Common(group[..|group| - 1]) * CharSet(group[|group| - 1])
  }

  /** `get_group_badge_priority`: the priority of an item common to the
      whole group, or `None` when there is none (indexing the empty
      intersection panics). Of several common items the source takes the
      first its hash set yields; the model takes the first in the first
      rucksack. */
  function BadgePriority(group: seq<string>): (r: Option<int>)
    requires |group| >= 1
    ensures r.None? <==> Common(group) == {}
    ensures r.Some? ==> exists c :: c in Common(group) && r.value == Priority(c)
    ensures forall c :: Common(group) == {c} ==> r == Some(Priority(c))
  {
    var items := Common(group);
    var k := FirstIn(group[0], items, 0);
    if k < |group[0]| then Some(Priority(group[0][k]))
    else
      assert forall c :: c in items ==> c in group[0];
      None
  }

  /** `lines.chunks(3)`: groups of three, the last one shorter when the
      count is not a multiple of three. */
  function Chunks(lines: seq<string>): (r: seq<seq<string>>)
    ensures forall i :: 0 <= i < |r| ==> 1 <= |r[i]| <= 3
    ensures |r| == (|lines| + 2) / 3
    decreases |lines|
  {
    if |lines| == 0 then []
    else if |lines| <= 3 then [lines]
    else [lines[..3]] + Chunks(lines[3..])
  }

  /** Chunking keeps every line, in order. */
  lemma {:induction false} ChunksConcat(lines: seq<string>)
    ensures Flatten(Chunks(lines)) == lines
    decreases |lines|
  {
    if |lines| > 3 {
      ChunksConcat(lines[3..]);
      assert lines == lines[..3] + lines[3..];
    }
  }

  function Flatten(gs: seq<seq<string>>): seq<string>
  {
    if |gs| == 0 then [] else gs[0] + Flatten(gs[1..])
  }

  /** Part two: the sum of the badge priorities of the groups of three;
      `None` when a group has no common item. */
  function PartTwo(lines: seq<string>): (r: Option<int>)
    ensures r.Some? <==> AllHaveBadge(Chunks(lines))
    ensures r.Some? ==> 0 <= r.value <= 52 * |Chunks(lines)|
  {
    BadgeSum(Chunks(lines))
  }

  /** Up to three lines form one group, whose badge priority is the
      answer. */
  lemma PartTwoOneGroup(lines: seq<string>)
    requires 1 <= |lines| <= 3
    ensures PartTwo(lines) == BadgePriority(lines)
  {
    assert Chunks(lines) == [lines];
    var bs := Badges([lines]);
    assert bs[..0] == [];
    assert SumAll(bs) == AddBoth(Some(0), BadgePriority(lines));
  }

  /** Chunking a whole number of groups followed by more lines chunks
      each part on its own. */
  lemma {:induction false} ChunksAppend(a: seq<string>, b: seq<string>)
    requires |a| % 3 == 0
    ensures Chunks(a + b) == Chunks(a) + Chunks(b)
    decreases |a|
  {
    if |a| == 0 {
      assert a + b == b;
    } else if |b| == 0 {
      assert a + b == a;
    } else {
      var ab := a + b;
      assert ab[..3] == a[..3];
      assert ab[3..] == a[3..] + b;
      assert Chunks(ab) == [a[..3]] + Chunks(a[3..] + b);
      ChunksAppend(a[3..], b);
      if |a| == 3 {
        assert a[..3] == a && a[3..] == [];
      } else {
        assert Chunks(a) == [a[..3]] + Chunks(a[3..]);
      }
    }
  }

  /** Both values present: their sum; otherwise nothing. */
  function AddBoth(x: Option<int>, y: Option<int>): (r: Option<int>)
    ensures r.Some? <==> x.Some? && y.Some?
    ensures r.Some? ==> r.value == x.value + y.value
  {
    if x.Some? && y.Some? then Some(x.value + y.value) else None
  }

  /** Part two adds up group by group: when the first input is a whole
      number of groups of three, the answer for both inputs together is
      the sum of their answers, and `None` when either is. */
  lemma PartTwoAppend(a: seq<string>, b: seq<string>)
    requires |a| % 3 == 0
    ensures PartTwo(a + b) == AddBoth(PartTwo(a), PartTwo(b))
  {
    ChunksAppend(a, b);
    BadgeSumAppend(Chunks(a), Chunks(b));
  }

  /** Every group has an item all its rucksacks hold. */
  predicate AllHaveBadge(groups: seq<seq<string>>)
    requires forall i :: 0 <= i < |groups| ==> |groups[i]| >= 1
  {
    forall i :: 0 <= i < |groups| ==> Common(groups[i]) != {}
  }

  /** The badge priority of each group, in order. */
  function Badges(groups: seq<seq<string>>): (r: seq<Option<int>>)
    requires forall i :: 0 <= i < |groups| ==> |groups[i]| >= 1
    ensures |r| == |groups| && forall i :: 0 <= i < |r| ==> r[i] == BadgePriority(groups[i])
  {
    seq(|groups|, i requires 0 <= i < |groups| => BadgePriority(groups[i]))
  }

  /** The fold `sum + p` over the group priorities; `None` when any is
      missing. */
  function SumAll(xs: seq<Option<int>>): (r: Option<int>)
    ensures r.Some? <==> forall i :: 0 <= i < |xs| ==> xs[i].Some?
  {
    if |xs| == 0 then Some(0) else AddBoth(SumAll(xs[..|xs| - 1]), xs[|xs| - 1])
  }

  lemma {:induction false} SumAllAppend(xs: seq<Option<int>>, ys: seq<Option<int>>)
    ensures SumAll(xs + ys) == AddBoth(SumAll(xs), SumAll(ys))
    decreases |ys|
  {
    if |ys| == 0 {
      assert xs + ys == xs;
    } else {
      var n := |ys| - 1;
      assert (xs + ys)[..|xs + ys| - 1] == xs + ys[..n];
      SumAllAppend(xs, ys[..n]);
    }
  }

  lemma {:induction false} SumAllBound(xs: seq<Option<int>>)
    requires forall i :: 0 <= i < |xs| ==> xs[i].Some? ==> 0 <= xs[i].value <= 52
    ensures SumAll(xs).Some? ==> 0 <= SumAll(xs).value <= 52 * |xs|
    decreases |xs|
  {
    if |xs| > 0 {
      SumAllBound(xs[..|xs| - 1]);
    }
  }

  function BadgeSum(groups: seq<seq<string>>): (r: Option<int>)
    requires forall i :: 0 <= i < |groups| ==> |groups[i]| >= 1
    ensures r.Some? <==> AllHaveBadge(groups)
    ensures r.Some? ==> 0 <= r.value <= 52 * |groups|
  {
    SumAllBound(Badges(groups));
    SumAll(Badges(groups))
  }

  /** The badge sum of two runs of groups: defined exactly when both are,
      and then their sum. */
  lemma BadgeSumAppend(g: seq<seq<string>>, h: seq<seq<string>>)
    requires forall i :: 0 <= i < |g| ==> |g[i]| >= 1
    requires forall i :: 0 <= i < |h| ==> |h[i]| >= 1
    ensures BadgeSum(g + h) == AddBoth(BadgeSum(g), BadgeSum(h))
  {
    assert Badges(g + h) == Badges(g) + Badges(h);
    SumAllAppend(Badges(g), Badges(h));
  }
}
