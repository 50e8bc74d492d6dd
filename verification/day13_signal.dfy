/** Day 13 answers: part one sums the 1-based indices of the pairs that
    are in the right order; part two sorts all packets together with the
    two divider packets `[[2]]` and `[[6]]` and multiplies the dividers'
    1-based positions. */
module DistressSignal {
  import opened Util
  import opened Packets

  // --------------------------------------------------------------- part one

  /** The sum of the indices, counted from `first`, of the pairs whose left
      packet is less than their right packet. */
  function IndexSum(pairs: seq<(Packet, Packet)>, first: nat): nat
  {
    if |pairs| == 0 then 0
    else (if Lt(pairs[0].0, pairs[0].1) then first else 0) + IndexSum(pairs[1..], first + 1)
  }

  /** A pair added at the end contributes its own index or nothing. */
  lemma {:induction false} IndexSumAppend(pairs: seq<(Packet, Packet)>, first: nat, pr: (Packet, Packet))
    ensures IndexSum(pairs + [pr], first)
      == IndexSum(pairs, first) + (if Lt(pr.0, pr.1) then first + |pairs| else 0)
  {
    if |pairs| > 0 {
      assert (pairs + [pr])[1..] == pairs[1..] + [pr];
      IndexSumAppend(pairs[1..], first + 1, pr);
    }
  }

  /** Part one: the loop over the pairs zipped with `1..`. */
  method PartOne(pairs: seq<(Packet, Packet)>) returns (total: nat)
    ensures total == IndexSum(pairs, 1)
  {
    total := 0;
    var i := 0;
    while i < |pairs|
      invariant 0 <= i <= |pairs|
      invariant total == IndexSum(pairs[..i], 1)
    {
      IndexSumAppend(pairs[..i], 1, pairs[i]);
      assert pairs[..i + 1] == pairs[..i] + [pairs[i]];
      if Lt(pairs[i].0, pairs[i].1) {
        total := total + i + 1;
      }
      i := i + 1;
    }
    assert pairs[..|pairs|] == pairs;
  }

  /** Each pair with its packets swapped. */
  function Swapped(pairs: seq<(Packet, Packet)>): (r: seq<(Packet, Packet)>)
    ensures |r| == |pairs|
    ensures forall i :: 0 <= i < |pairs| ==> r[i] == (pairs[i].1, pairs[i].0)
  {
    if |pairs| == 0 then [] else [(pairs[0].1, pairs[0].0)] + Swapped(pairs[1..])
  }

  /** The sum of the `n` indices from `first` on. */
  function AllIndices(n: nat, first: nat): nat
  {
    if n == 0 then 0 else first + AllIndices(n - 1, first + 1)
  }

  /** Counted from 1, the indices sum to the triangular number. */
  lemma {:induction false} AllIndicesFromOne(n: nat, first: nat)
    ensures 2 * AllIndices(n, first) == n * (2 * first + n - 1)
  {
    if n > 0 {
      AllIndicesFromOne(n - 1, first + 1);
      assert (n - 1) * (2 * (first + 1) + n - 2) + 2 * first == n * (2 * first + n - 1);
    }
  }

  /** When no pair compares `Equal`, exactly one of a pair and its swap is
      in the right order, so the two answers add up to the sum of all the
      indices. */
  lemma {:induction false} IndexSumSwapped(pairs: seq<(Packet, Packet)>, first: nat)
    requires forall i :: 0 <= i < |pairs| ==> Cmp(pairs[i].0, pairs[i].1) != Equal
    ensures IndexSum(pairs, first) + IndexSum(Swapped(pairs), first) == AllIndices(|pairs|, first)
  {
    if |pairs| > 0 {
      CmpFlip(pairs[0].0, pairs[0].1);
      assert Swapped(pairs)[1..] == Swapped(pairs[1..]);
      IndexSumSwapped(pairs[1..], first + 1);
    }
  }

  /** Part one is at most the sum of all the indices, and reaches it when
      every pair is in the right order. */
  lemma {:induction false} IndexSumBound(pairs: seq<(Packet, Packet)>, first: nat)
    ensures IndexSum(pairs, first) <= AllIndices(|pairs|, first)
    ensures (forall i :: 0 <= i < |pairs| ==> Lt(pairs[i].0, pairs[i].1))
      ==> IndexSum(pairs, first) == AllIndices(|pairs|, first)
  {
    if |pairs| > 0 {
      IndexSumBound(pairs[1..], first + 1);
      if forall i :: 0 <= i < |pairs| ==> Lt(pairs[i].0, pairs[i].1) {
        assert Lt(pairs[0].0, pairs[0].1);
        assert forall i :: 0 <= i < |pairs[1..]| ==> pairs[1..][i] == pairs[i + 1];
      }
    }
  }

  // ---------------------------------------------------------- sorting

  /** Ordered by `cmp`: no packet is greater than one after it. */
  ghost predicate Sorted(s: seq<Packet>)
  {
    forall i, j :: 0 <= i < j < |s| ==> Cmp(s[i], s[j]) != Greater
  }

  /** One step of a stable insertion sort: `x` goes after every packet
      that is not greater than it. */
  function Insert(x: Packet, s: seq<Packet>): (r: seq<Packet>)
    ensures multiset(r) == multiset(s) + multiset{x}
  {
    if |s| == 0 then [x]
    else if Cmp(s[0], x) == Greater then [x] + s
    else
      assert s == [s[0]] + s[1..];
      [s[0]] + Insert(x, s[1..])
  }

  /** `slice::sort` with `Ord::cmp`: the stable sort, as insertion of each
      packet in turn. Because `cmp` is a total preorder (`CmpFlip`,
      `CmpTrans`), every stable sort gives this same sequence. */
  function Sort(s: seq<Packet>): (r: seq<Packet>)
    ensures multiset(r) == multiset(s)
  {
    if |s| == 0 then []
    else
      assert s == s[..|s| - 1] + [s[|s| - 1]];
      Insert(s[|s| - 1], Sort(s[..|s| - 1]))
  }

  /** A packet not greater than every element of a multiset is not greater
      than any element of a sequence holding it. */
  lemma InsertHead(y: Packet, x: Packet, s: seq<Packet>, r: seq<Packet>)
    requires Cmp(y, x) != Greater
    requires forall j :: 0 <= j < |s| ==> Cmp(y, s[j]) != Greater
    requires multiset(r) == multiset(s) + multiset{x}
    ensures forall j :: 0 <= j < |r| ==> Cmp(y, r[j]) != Greater
  {
    forall j | 0 <= j < |r| ensures Cmp(y, r[j]) != Greater {
      assert r[j] in multiset(r);
      if r[j] != x {
        assert r[j] in multiset(s);
        var m :| 0 <= m < |s| && s[m] == r[j];
      }
    }
  }

  /** Insertion keeps a sorted sequence sorted. */
  lemma {:induction false} InsertSorted(x: Packet, s: seq<Packet>)
    requires Sorted(s)
    ensures Sorted(Insert(x, s))
  {
    if |s| == 0 {
    } else if Cmp(s[0], x) == Greater {
      CmpFlip(s[0], x);
      forall j | 0 <= j < |s| ensures Cmp(x, s[j]) != Greater {
        if j > 0 {
          CmpTrans(x, s[0], s[j]);
        }
      }
      var r := [x] + s;
      forall i, j | 0 <= i < j < |r| ensures Cmp(r[i], r[j]) != Greater {
        if i > 0 {
          assert r[i] == s[i - 1] && r[j] == s[j - 1];
        }
      }
    } else {
      var t := s[1..];
      assert Sorted(t);
      InsertSorted(x, t);
      var r' := Insert(x, t);
      forall j | 0 <= j < |t| ensures Cmp(s[0], t[j]) != Greater {
        assert t[j] == s[j + 1];
      }
      InsertHead(s[0], x, t, r');
      var r := [s[0]] + r';
      forall i, j | 0 <= i < j < |r| ensures Cmp(r[i], r[j]) != Greater {
        if i == 0 {
          assert r[j] == r'[j - 1];
        } else {
          assert r[i] == r'[i - 1] && r[j] == r'[j - 1];
        }
      }
    }
  }

  /** The sort's result is sorted. */
  lemma {:induction false} SortSorted(s: seq<Packet>)
    ensures Sorted(Sort(s))
  {
    if |s| > 0 {
      SortSorted(s[..|s| - 1]);
      InsertSorted(s[|s| - 1], Sort(s[..|s| - 1]));
    }
  }

  // ---------------------------------------------------------- part two

  /** The divider packets `[[2]]` and `[[6]]`. */
  const DividerA: Packet := List([List([Int(2)])])
  const DividerB: Packet := List([List([Int(6)])])

  /** The 1-based position of the first packet `eq` to `d`: the
      `iter().zip(1..).find(..)`; `None` where the source unwraps
      nothing. */
  function Position(s: seq<Packet>, d: Packet): (r: Option<nat>)
    ensures r.Some? ==> 1 <= r.value <= |s|
  {
    if |s| == 0 then None
    else if Eq(s[0], d) then Some(1)
    else match Position(s[1..], d)
      case None => None
      case Some(k) => Some(k + 1)
  }

  /** `Position` finds the first occurrence, and finds one whenever the
      packet occurs. */
  lemma {:induction false} PositionSpec(s: seq<Packet>, d: Packet, k: nat)
    requires k < |s| && s[k] == d
    requires forall i :: 0 <= i < k ==> s[i] != d
    ensures Position(s, d) == Some(k + 1)
  {
    EqIsEquality(s[0], d);
    if k > 0 {
      PositionSpec(s[1..], d, k - 1);
    }
  }

  /** Part two: the product of the dividers' positions after sorting all
      packets with the dividers added at the end. */
  function DecoderKey(packets: seq<Packet>): Option<int>
  {
    var sorted := Sort(packets + [DividerA, DividerB]);
    match (Position(sorted, DividerA), Position(sorted, DividerB))
    case (Some(a), Some(b)) => Some(a * b)
    case _ => None
  }

  /** The number of packets less than `d`. */
  function CountLess(s: seq<Packet>, d: Packet): (r: nat)
    ensures r <= |s|
  {
    if |s| == 0 then 0 else (if Cmp(s[0], d) == Less then 1 else 0) + CountLess(s[1..], d)
  }

  lemma {:induction false} CountLessConcat(a: seq<Packet>, b: seq<Packet>, d: Packet)
    ensures CountLess(a + b, d) == CountLess(a, d) + CountLess(b, d)
  {
    if |a| > 0 {
      assert (a + b)[1..] == a[1..] + b;
      CountLessConcat(a[1..], b, d);
    } else {
      assert a + b == b;
    }
  }

  /** The count depends only on which packets there are, not their order. */
  lemma {:induction false} CountLessPermutation(a: seq<Packet>, b: seq<Packet>, d: Packet)
    requires multiset(a) == multiset(b)
    ensures CountLess(a, d) == CountLess(b, d)
    decreases |a|
  {
    if |a| == 0 {
      assert |b| == |multiset(b)| == 0;
    } else {
      assert a[0] in multiset(b);
      var j :| 0 <= j < |b| && b[j] == a[0];
      var b' := b[..j] + b[j + 1..];
      RemoveOne(a, b, j);
      CountLessPermutation(a[1..], b', d);
      assert b == b[..j] + [b[j]] + b[j + 1..];
      CountLessConcat(b[..j] + [b[j]], b[j + 1..], d);
      CountLessConcat(b[..j], [b[j]], d);
      CountLessConcat(b[..j], b[j + 1..], d);
      assert [b[j]][1..] == [];
    }
  }

  /** Taking the first packet off one sequence and an equal packet off
      another with the same packets leaves the same packets. */
  lemma RemoveOne(a: seq<Packet>, b: seq<Packet>, j: nat)
    requires |a| > 0 && j < |b| && b[j] == a[0] && multiset(a) == multiset(b)
    ensures multiset(a[1..]) == multiset(b[..j] + b[j + 1..])
  {
    assert a == [a[0]] + a[1..];
    assert multiset(a) == multiset{a[0]} + multiset(a[1..]);
    assert b == b[..j] + [b[j]] + b[j + 1..];
    assert multiset(b) == multiset(b[..j]) + multiset{b[j]} + multiset(b[j + 1..]);
    var b' := b[..j] + b[j + 1..];
    assert multiset(b') == multiset(b[..j]) + multiset(b[j + 1..]);
    forall q ensures multiset(a[1..])[q] == multiset(b')[q] {
      assert multiset(a)[q] == multiset(b)[q];
    }
  }

  /** In a sorted sequence, a packet that every `cmp`-equal packet equals
      sits right after the packets less than it. */
  lemma {:induction false} CountLessAt(s: seq<Packet>, d: Packet, k: nat)
    requires k <= |s|
    requires forall i :: 0 <= i < k ==> Cmp(s[i], d) == Less
    requires forall i :: k <= i < |s| ==> Cmp(s[i], d) != Less
    ensures CountLess(s, d) == k
  {
    if |s| > 0 {
      assert Cmp(s[0], d) == Less <==> k > 0;
      CountLessAt(s[1..], d, if k > 0 then k - 1 else 0);
    }
  }

  /** The first index holding a packet. */
  lemma {:induction false} FirstIndex(s: seq<Packet>, d: Packet) returns (k: nat)
    requires d in s
    ensures k < |s| && s[k] == d
    ensures forall i :: 0 <= i < k ==> s[i] != d
  {
    if s[0] == d {
      k := 0;
    } else {
      assert d in s[1..];
      var k' := FirstIndex(s[1..], d);
      k := k' + 1;
    }
  }

  /** The rank of a packet that is `cmp`-equal to nothing but itself: its
      position is one more than the number of packets less than it. */
  lemma RankInSorted(s: seq<Packet>, d: Packet)
    requires Sorted(s) && d in s
    requires forall i :: 0 <= i < |s| && Cmp(s[i], d) == Equal ==> s[i] == d
    ensures Position(s, d) == Some(CountLess(s, d) + 1)
  {
    var k := FirstIndex(s, d);
    PositionSpec(s, d, k);
    CmpRefl(d);
    forall i | 0 <= i < |s| ensures (i < k) == (Cmp(s[i], d) == Less) {
      if i < k {
        assert s[i] != d;
        assert Cmp(s[i], d) != Greater;
      } else if i > k {
        CmpFlip(d, s[i]);
      }
    }
    CountLessAt(s, d, k);
  }

  /** The dividers compare `[[2]] < [[6]]`. */
  lemma DividersOrdered()
    ensures Cmp(DividerA, DividerB) == Less && Cmp(DividerB, DividerA) == Greater
  {
    CmpFlip(DividerA, DividerB);
  }

  /** A divider that no other packet compares `Equal` to is found just
      after the packets less than it in the sorted sequence. */
  lemma DividerRank(all: seq<Packet>, d: Packet)
    requires d in all
    requires forall i :: 0 <= i < |all| && Cmp(all[i], d) == Equal ==> all[i] == d
    ensures Position(Sort(all), d) == Some(CountLess(all, d) + 1)
  {
    var sorted := Sort(all);
    SortSorted(all);
    assert d in multiset(sorted);
    forall i | 0 <= i < |sorted| && Cmp(sorted[i], d) == Equal ensures sorted[i] == d {
      assert sorted[i] in multiset(all);
      var j :| 0 <= j < |all| && all[j] == sorted[i];
    }
    RankInSorted(sorted, d);
    CountLessPermutation(all, sorted, d);
  }

  /** When no input packet compares `Equal` to a divider, part two is the
      product of one plus the number of packets below `[[2]]` and two plus
      the number below `[[6]]` (the first divider is below the second). */
  lemma DecoderKeyRank(packets: seq<Packet>)
    requires forall i {:trigger Cmp(packets[i], DividerA)} {:trigger Cmp(packets[i], DividerB)} ::
      0 <= i < |packets| ==> Cmp(packets[i], DividerA) != Equal && Cmp(packets[i], DividerB) != Equal
    ensures DecoderKey(packets)
      == Some((CountLess(packets, DividerA) + 1) * (CountLess(packets, DividerB) + 2))
  {
    DividerPositions(packets);
    KeyFromRanks(packets);
  }

  /** Part two from the dividers' ranks among all the packets. */
  lemma KeyFromRanks(packets: seq<Packet>)
    requires Position(Sort(packets + [DividerA, DividerB]), DividerA)
      == Some(CountLess(packets + [DividerA, DividerB], DividerA) + 1)
    requires Position(Sort(packets + [DividerA, DividerB]), DividerB)
      == Some(CountLess(packets + [DividerA, DividerB], DividerB) + 1)
    ensures DecoderKey(packets)
      == Some((CountLess(packets, DividerA) + 1) * (CountLess(packets, DividerB) + 2))
  {
    CountAll(packets);
    KeyOfPositions(packets, CountLess(packets, DividerA) + 1, CountLess(packets, DividerB) + 2);
  }

  /** Each divider sits right after the packets less than it. */
  lemma DividerPositions(packets: seq<Packet>)
    requires forall i {:trigger Cmp(packets[i], DividerA)} {:trigger Cmp(packets[i], DividerB)} ::
      0 <= i < |packets| ==> Cmp(packets[i], DividerA) != Equal && Cmp(packets[i], DividerB) != Equal
    ensures var all := packets + [DividerA, DividerB];
      Position(Sort(all), DividerA) == Some(CountLess(all, DividerA) + 1) &&
      Position(Sort(all), DividerB) == Some(CountLess(all, DividerB) + 1)
  {
    var all := packets + [DividerA, DividerB];
    DividersUnique(packets);
    DividerRank(all, DividerA);
    DividerRank(all, DividerB);
  }

  /** Part two from the dividers' positions. */
  lemma KeyOfPositions(packets: seq<Packet>, a: nat, b: nat)
    requires Position(Sort(packets + [DividerA, DividerB]), DividerA) == Some(a)
    requires Position(Sort(packets + [DividerA, DividerB]), DividerB) == Some(b)
    ensures DecoderKey(packets) == Some(a * b)
  {
  }

  /** Counting with the dividers added. */
  lemma CountAll(packets: seq<Packet>)
    ensures CountLess(packets + [DividerA, DividerB], DividerA) == CountLess(packets, DividerA)
    ensures CountLess(packets + [DividerA, DividerB], DividerB) == CountLess(packets, DividerB) + 1
  {
    CountLessConcat(packets, [DividerA, DividerB], DividerA);
    CountLessConcat(packets, [DividerA, DividerB], DividerB);
    CountDividers();
  }

  /** With the dividers added, the only packet `cmp`-equal to a divider
      is that divider. */
  lemma DividersUnique(packets: seq<Packet>)
    requires forall i {:trigger Cmp(packets[i], DividerA)} {:trigger Cmp(packets[i], DividerB)} ::
      0 <= i < |packets| ==> Cmp(packets[i], DividerA) != Equal && Cmp(packets[i], DividerB) != Equal
    ensures var all := packets + [DividerA, DividerB];
      DividerA in all && DividerB in all &&
      (forall i :: 0 <= i < |all| && Cmp(all[i], DividerA) == Equal ==> all[i] == DividerA) &&
      (forall i :: 0 <= i < |all| && Cmp(all[i], DividerB) == Equal ==> all[i] == DividerB)
  {
    var all := packets + [DividerA, DividerB];
    DividersOrdered();
    assert all[|packets|] == DividerA && all[|packets| + 1] == DividerB;
    forall i | 0 <= i < |packets| ensures all[i] == packets[i] {
    }
  }

  /** Among the dividers, only `[[2]]` is below `[[6]]`. */
  lemma CountDividers()
    ensures CountLess([DividerA, DividerB], DividerA) == 0
    ensures CountLess([DividerA, DividerB], DividerB) == 1
  {
    DividersOrdered();
    CmpRefl(DividerA);
    CmpRefl(DividerB);
    assert [DividerA, DividerB][1..] == [DividerB];
  }

  /** Part two always has an answer: both dividers are among the sorted
      packets, so neither `unwrap` fails. */
  lemma DecoderKeyDefined(packets: seq<Packet>)
    ensures DecoderKey(packets).Some?
  {
    var all := packets + [DividerA, DividerB];
    var sorted := Sort(all);
    assert all[|packets|] == DividerA && all[|packets| + 1] == DividerB;
    assert DividerA in multiset(sorted) && DividerB in multiset(sorted);
    var ka := FirstIndex(sorted, DividerA);
    var kb := FirstIndex(sorted, DividerB);
    PositionSpec(sorted, DividerA, ka);
    PositionSpec(sorted, DividerB, kb);
    KeyOfPositions(packets, ka + 1, kb + 1);
  }
}
