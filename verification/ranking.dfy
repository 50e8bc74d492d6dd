/** Sorting integers from largest to smallest and summing the first few,
    as days 1 and 11 do with `sort_by(|a, b| b.cmp(a))` and `take(k)`.
    The sum of the first `k` is characterised without reference to the
    sort: for every threshold, it holds as many values at or above the
    threshold as possible, up to `k`. */
module Ranking {
  import opened Util

  /** Non-increasing. */
  predicate Descending(s: seq<int>)
  {
    forall i, j :: 0 <= i < j < |s| ==> s[i] >= s[j]
  }

  /** Insert `x` after every value at least as large. */
  function InsertDesc(x: int, s: seq<int>): seq<int>
  {
    if |s| == 0 || s[0] < x then [x] + s else [s[0]] + InsertDesc(x, s[1..])
  }

  lemma {:induction false} InsertDescPermutes(x: int, s: seq<int>)
    ensures multiset(InsertDesc(x, s)) == multiset(s) + multiset{x}
    ensures |InsertDesc(x, s)| == |s| + 1
  {
    if |s| > 0 && s[0] >= x {
      InsertDescPermutes(x, s[1..]);
      assert s == [s[0]] + s[1..];
    }
  }

  lemma {:induction false} InsertDescSorted(x: int, s: seq<int>)
    requires Descending(s)
    ensures Descending(InsertDesc(x, s))
  {
    if |s| > 0 && s[0] >= x {
      var t := InsertDesc(x, s[1..]);
      assert Descending(s[1..]);
      InsertDescSorted(x, s[1..]);
      InsertDescPermutes(x, s[1..]);
      forall j | 0 <= j < |t| ensures s[0] >= t[j] {
        assert t[j] in multiset(s[1..]) + multiset{x};
        if t[j] != x {
          assert t[j] in s[1..];
        }
      }
    }
  }

  /** The descending sort. */
  function SortDesc(s: seq<int>): (r: seq<int>)
    ensures multiset(r) == multiset(s) && |r| == |s|
    ensures Descending(r)
  {
    if |s| == 0 then []
    else
      var init := SortDesc(s[..|s| - 1]);
      InsertDescPermutes(s[|s| - 1], init);
      InsertDescSorted(s[|s| - 1], init);
      assert s == s[..|s| - 1] + [s[|s| - 1]];
      InsertDesc(s[|s| - 1], init)
  }

  /** How many values are at least `v`. */
  function CountAtLeast(s: seq<int>, v: int): (r: nat)
    ensures r <= |s|
  {
    if |s| == 0 then 0 else (if s[0] >= v then 1 else 0) + CountAtLeast(s[1..], v)
  }

  lemma {:induction false} CountAtLeastConcat(a: seq<int>, b: seq<int>, v: int)
    ensures CountAtLeast(a + b, v) == CountAtLeast(a, v) + CountAtLeast(b, v)
  {
    if |a| > 0 {
      assert (a + b)[1..] == a[1..] + b;
      CountAtLeastConcat(a[1..], b, v);
    } else {
      assert a + b == b;
    }
  }

  /** The count depends only on which values there are. */
  lemma {:induction false} CountAtLeastPermutation(a: seq<int>, b: seq<int>, v: int)
    requires multiset(a) == multiset(b)
    ensures CountAtLeast(a, v) == CountAtLeast(b, v)
    decreases |a|
  {
    if |a| == 0 {
      assert |b| == |multiset(b)| == 0;
    } else {
      assert a[0] in multiset(b);
      var j :| 0 <= j < |b| && b[j] == a[0];
      var b' := b[..j] + b[j + 1..];
      assert a == [a[0]] + a[1..];
      assert b == b[..j] + [b[j]] + b[j + 1..];
      assert multiset(b') == multiset(b[..j]) + multiset(b[j + 1..]);
      forall q ensures multiset(a[1..])[q] == multiset(b')[q] {
        assert multiset(a)[q] == multiset(b)[q];
      }
      CountAtLeastPermutation(a[1..], b', v);
      CountAtLeastConcat(b[..j] + [b[j]], b[j + 1..], v);
      CountAtLeastConcat(b[..j], [b[j]], v);
      CountAtLeastConcat(b[..j], b[j + 1..], v);
      assert [b[j]][1..] == [];
    }
  }

  /** In a descending sequence, the first `k` values hold as many values
      at least `v` as the whole sequence does, up to `k`. */
  lemma {:induction false} CountAtLeastPrefix(s: seq<int>, v: int, k: nat)
    requires Descending(s) && k <= |s|
    ensures CountAtLeast(s[..k], v) == Min(k, CountAtLeast(s, v))
  {
    if k > 0 {
      var t := s[1..];
      assert Descending(t);
      assert s[..k][1..] == t[..k - 1];
      CountAtLeastPrefix(t, v, k - 1);
      if s[0] < v {
        NoneAtLeast(s, v);
        NoneAtLeast(s[..k], v);
      }
    }
  }

  /** A descending sequence whose first value is below `v` has none at
      least `v`. */
  lemma {:induction false} NoneAtLeast(s: seq<int>, v: int)
    requires Descending(s) && |s| > 0 && s[0] < v
    ensures CountAtLeast(s, v) == 0
  {
    if |s| > 1 {
      assert Descending(s[1..]);
      NoneAtLeast(s[1..], v);
    }
  }

  /** The sum of the `k` largest values (all of them when there are fewer
      than `k`): `sorted.iter().take(k).sum()`. */
  function TopSum(s: seq<int>, k: nat): int
  {
    var t := SortDesc(s);
    Sum(t[..Min(k, |t|)])
  }

  /** The values `TopSum` adds up are the largest: for every threshold
      `v`, as many of them are at least `v` as there are such values in
      the input, up to `k`; and they are values of the input. */
  lemma TopSumLargest(s: seq<int>, k: nat, v: int)
    ensures var top := SortDesc(s)[..Min(k, |s|)];
      multiset(top) <= multiset(s) &&
      CountAtLeast(top, v) == Min(Min(k, |s|), CountAtLeast(s, v))
  {
    var t := SortDesc(s);
    var n := Min(k, |s|);
    CountAtLeastPrefix(t, v, n);
    CountAtLeastPermutation(s, t, v);
    PrefixSubMultiset(t, n);
  }

  lemma PrefixSubMultiset(t: seq<int>, n: nat)
    requires n <= |t|
    ensures multiset(t[..n]) <= multiset(t)
  {
    assert t == t[..n] + t[n..];
  }

  /** The largest value: present, and no smaller than any other. */
  function MaxOf(s: seq<int>): (m: int)
    requires |s| > 0
    ensures m in s && forall i :: 0 <= i < |s| ==> s[i] <= m
  {
    var t := SortDesc(s);
    assert t[0] in multiset(s);
    forall i | 0 <= i < |s| ensures s[i] <= t[0] {
      assert s[i] in multiset(t);
      var j :| 0 <= j < |t| && t[j] == s[i];
    }
    t[0]
  }

  /** Non-decreasing. */
  predicate Ascending(s: seq<int>)
  {
    forall i, j :: 0 <= i < j < |s| ==> s[i] <= s[j]
  }

  /** The values in the opposite order. */
  function Reversed(s: seq<int>): (r: seq<int>)
    ensures |r| == |s|
  {
    if |s| == 0 then [] else [s[|s| - 1]] + Reversed(s[..|s| - 1])
  }

  lemma {:induction false} ReversedAt(s: seq<int>, i: nat)
    requires i < |s|
    ensures Reversed(s)[i] == s[|s| - 1 - i]
    decreases |s|
  {
    if i > 0 {
      ReversedAt(s[..|s| - 1], i - 1);
    }
  }

  lemma {:induction false} ReversedPermutes(s: seq<int>)
    ensures multiset(Reversed(s)) == multiset(s)
    decreases |s|
  {
    if |s| > 0 {
      ReversedPermutes(s[..|s| - 1]);
      assert s == s[..|s| - 1] + [s[|s| - 1]];
    }
  }

  /** The ascending sort, as `sort()` on integers: the descending sort read
      backwards. */
  function SortAsc(s: seq<int>): (r: seq<int>)
    ensures multiset(r) == multiset(s) && |r| == |s|
    ensures Ascending(r)
  {
    var d := SortDesc(s);
    ReversedPermutes(d);
    forall i, j | 0 <= i < j < |d| ensures Reversed(d)[i] <= Reversed(d)[j] {
      ReversedAt(d, i);
      ReversedAt(d, j);
    }
    Reversed(d)
  }

  /** Two ascending sequences holding the same values are the same: the
      ascending order of a collection is unique. */
  lemma {:induction false} AscendingUnique(a: seq<int>, b: seq<int>)
    requires Ascending(a) && Ascending(b) && multiset(a) == multiset(b)
    ensures a == b
    decreases |a|
  {
    assert |a| == |multiset(a)| == |multiset(b)| == |b|;
    if |a| > 0 {
      AscendingHeads(a, b);
      AscendingUnique(a[1..], b[1..]);
      assert a == [a[0]] + a[1..] && b == [b[0]] + b[1..];
    }
  }

  /** Two ascending sequences holding the same values start alike, and
      what follows holds the same values again. */
  lemma AscendingHeads(a: seq<int>, b: seq<int>)
    requires Ascending(a) && Ascending(b) && multiset(a) == multiset(b)
    requires |a| > 0 && |b| > 0
    ensures a[0] == b[0] && multiset(a[1..]) == multiset(b[1..])
    ensures Ascending(a[1..]) && Ascending(b[1..])
  {
    var x, y := a[0], b[0];
    assert y <= x by {
      assert x in multiset(b);
      var i :| 0 <= i < |b| && b[i] == x;
    }
    assert x <= y by {
      assert y in multiset(a);
      var j :| 0 <= j < |a| && a[j] == y;
    }
    DropHead(a);
    DropHead(b);
  }

  lemma DropHead(a: seq<int>)
    requires |a| > 0
    ensures multiset(a[1..]) == multiset(a) - multiset{a[0]}
    ensures Ascending(a) ==> Ascending(a[1..])
  {
    assert a == [a[0]] + a[1..];
  }
}
