/** Day 13 distress-signal packets: a packet is an integer or a list of
    packets. Packets are compared by the puzzle's rules (integers
    numerically, lists lexicographically, an integer against a list as a
    one-element list), compared for equality structurally, and printed in
    bracket notation. */
module Packets {
  import opened Util
  import opened Text

  /** `Packet::Int(i32)` / `Packet::List(Vec<Packet>)`. */
  datatype Packet = Int(n: int) | List(items: seq<Packet>)

  /** Every integer in the packet fits in an `i32`. */
  ghost predicate WellTyped(p: Packet)
  {
    match p
    case Int(x) => InI32(x)
    case List(xs) => forall i :: 0 <= i < |xs| ==> WellTyped(xs[i])
  }

  /** Number of nodes: the measure the comparison recursion decreases. */
  function Size(p: Packet): (r: nat)
    ensures r >= 1
  {
    match p
    case Int(_) => 1
    case List(xs) => 1 + SizeAll(xs)
  }

  function SizeAll(xs: seq<Packet>): (r: nat)
    ensures |xs| > 0 ==> r >= Size(xs[0]) + |xs| - 1
    ensures |xs| == 1 ==> r == Size(xs[0])
  {
    if |xs| == 0 then 0 else Size(xs[0]) + SizeAll(xs[1..])
  }

  // ------------------------------------------------------------- equality

  /** `PartialEq::eq`: equal integers, or lists of the same length whose
      elements are pairwise equal; an integer never equals a list. */
  function Eq(a: Packet, b: Packet): bool
  {
    match (a, b)
    case (Int(x), Int(y)) => x == y
    case (List(xs), List(ys)) => |xs| == |ys| && EqAll(xs, ys)
    case _ => false
  }

  /** The `zip(..).map(eq).all(..)` of two lists of equal length. */
  function EqAll(xs: seq<Packet>, ys: seq<Packet>): bool
    requires |xs| == |ys|
  {
    |xs| == 0 || (Eq(xs[0], ys[0]) && EqAll(xs[1..], ys[1..]))
  }

  /** The custom equality is exactly structural equality. */
  lemma {:induction false} EqIsEquality(a: Packet, b: Packet)
    ensures Eq(a, b) <==> a == b
  {
    match (a, b)
    case (Int(x), Int(y)) =>
    case (List(xs), List(ys)) =>
      if |xs| == |ys| {
        EqAllIsEquality(xs, ys);
      }
    case _ =>
  }

  lemma {:induction false} EqAllIsEquality(xs: seq<Packet>, ys: seq<Packet>)
    requires |xs| == |ys|
    ensures EqAll(xs, ys) <==> xs == ys
  {
    if |xs| > 0 {
      EqIsEquality(xs[0], ys[0]);
      EqAllIsEquality(xs[1..], ys[1..]);
      if xs[0] == ys[0] && xs[1..] == ys[1..] {
        assert xs == [xs[0]] + xs[1..] && ys == [ys[0]] + ys[1..];
      }
    }
  }

  // ------------------------------------------------------------- ordering

  /** `Ord::cmp`. An integer against a list is compared as the one-element
      list holding it, on either side; the list-against-list loop is
      `CmpAll`. */
  function Cmp(a: Packet, b: Packet): Ordering
    decreases Size(a) + Size(b), 1
  {
    match (a, b)
    case (Int(x), Int(y)) => IntCmp(x, y)
    case (Int(x), List(ys)) => CmpAll([Int(x)], ys)
    case (List(xs), Int(y)) => CmpAll(xs, [Int(y)])
    case (List(xs), List(ys)) => CmpAll(xs, ys)
  }

  /** The element-by-element loop over two lists: the first element pair
      that is not `Equal` decides; otherwise the shorter list is `Less`. */
  function CmpAll(xs: seq<Packet>, ys: seq<Packet>): Ordering
    decreases SizeAll(xs) + SizeAll(ys), 2
  {
    if |xs| == 0 && |ys| == 0 then Equal
    else if |xs| == 0 then Less
    else if |ys| == 0 then Greater
    else
      match Cmp(xs[0], ys[0])
      case Less => Less
      case Greater => Greater
      case Equal => CmpAll(xs[1..], ys[1..])
  }

  /** `PartialOrd::partial_cmp`. */
  function PartialCmp(a: Packet, b: Packet): Option<Ordering>
  {
    Some(Cmp(a, b))
  }

  /** Rust's `a < b` on packets, which goes through `partial_cmp`. */
  predicate Lt(a: Packet, b: Packet)
  {
    PartialCmp(a, b) == Some(Less)
  }

  /** The partial comparison always has a result, and it is `cmp`'s; so
      `<` means `cmp` says `Less`. */
  lemma PartialCmpTotal(a: Packet, b: Packet)
    ensures PartialCmp(a, b).Some? && PartialCmp(a, b).value == Cmp(a, b)
    ensures Lt(a, b) <==> Cmp(a, b) == Less
  {
  }

  /** The list a packet is compared as: itself if it is a list, the
      one-element list holding it if it is an integer. */
  function View(p: Packet): (r: seq<Packet>)
    ensures SizeAll(r) <= Size(p)
    ensures p.List? ==> SizeAll(r) < Size(p)
  {
    match p
    case Int(_) => [p]
    case List(xs) => xs
  }

  /** Every comparison is the list comparison of the two views, also when
      both packets are integers. */
  lemma CmpView(a: Packet, b: Packet)
    ensures Cmp(a, b) == CmpAll(View(a), View(b))
  {
    if a.Int? && b.Int? {
      assert [a][1..] == [] && [b][1..] == [];
    }
  }

  /** Integers compare numerically. */
  lemma CmpInts(x: int, y: int)
    ensures Cmp(Int(x), Int(y)) == IntCmp(x, y)
  {
  }

  /** An integer against a list compares as the one-element list holding
      it, in both directions. */
  lemma CmpWrapsInt(x: int, ys: seq<Packet>)
    ensures Cmp(Int(x), List(ys)) == Cmp(List([Int(x)]), List(ys))
    ensures Cmp(List(ys), Int(x)) == Cmp(List(ys), List([Int(x)]))
  {
  }

  /** The first element pair that is not `Equal` decides a list
      comparison. */
  lemma {:induction false} CmpAllFirstDifference(xs: seq<Packet>, ys: seq<Packet>, k: nat)
    requires k < |xs| && k < |ys|
    requires forall i :: 0 <= i < k ==> Cmp(xs[i], ys[i]) == Equal
    requires Cmp(xs[k], ys[k]) != Equal
    ensures CmpAll(xs, ys) == Cmp(xs[k], ys[k])
    decreases k
  {
    if k > 0 {
      assert Cmp(xs[0], ys[0]) == Equal;
      CmpAllFirstDifference(xs[1..], ys[1..], k - 1);
    }
  }

  /** When every common position compares `Equal`, the lengths decide: a
      proper prefix is `Less`, a longer list `Greater`, equal lengths
      `Equal`. */
  lemma {:induction false} CmpAllLengths(xs: seq<Packet>, ys: seq<Packet>)
    requires forall i :: 0 <= i < |xs| && i < |ys| ==> Cmp(xs[i], ys[i]) == Equal
    ensures CmpAll(xs, ys) == IntCmp(|xs|, |ys|)
  {
    if |xs| > 0 && |ys| > 0 {
      assert Cmp(xs[0], ys[0]) == Equal;
      CmpAllLengths(xs[1..], ys[1..]);
    }
  }

  /** Every packet compares `Equal` to itself. */
  lemma {:induction false} CmpRefl(a: Packet)
    ensures Cmp(a, a) == Equal
    decreases Size(a), 1
  {
    if a.List? {
      CmpAllRefl(a.items);
    }
  }

  lemma {:induction false} CmpAllRefl(xs: seq<Packet>)
    ensures CmpAll(xs, xs) == Equal
    decreases SizeAll(xs), 2
  {
    if |xs| > 0 {
      CmpRefl(xs[0]);
      CmpAllRefl(xs[1..]);
    }
  }

  /** Swapping the operands reverses the comparison. */
  lemma {:induction false} CmpFlip(a: Packet, b: Packet)
    ensures Cmp(b, a) == Cmp(a, b).Reverse()
    decreases Size(a) + Size(b), 1
  {
    CmpView(a, b);
    CmpView(b, a);
    if !(a.Int? && b.Int?) {
      CmpAllFlip(View(a), View(b));
    }
  }

  lemma {:induction false} CmpAllFlip(xs: seq<Packet>, ys: seq<Packet>)
    ensures CmpAll(ys, xs) == CmpAll(xs, ys).Reverse()
    decreases SizeAll(xs) + SizeAll(ys), 2
  {
    if |xs| > 0 && |ys| > 0 {
      CmpFlip(xs[0], ys[0]);
      CmpAllFlip(xs[1..], ys[1..]);
    }
  }

  /** How two successive non-`Greater` comparisons combine: `Equal` only
      when both are `Equal`. */
  function Chain(o1: Ordering, o2: Ordering): Ordering
  {
    if o1 == Equal && o2 == Equal then Equal else Less
  }

  /** Transitivity: `a <= b <= c` gives `a <= c`, strictly when either
      step is strict. With `CmpFlip` this makes `Cmp` a total preorder. */
  lemma {:induction false} CmpTrans(a: Packet, b: Packet, c: Packet)
    requires Cmp(a, b) != Greater && Cmp(b, c) != Greater
    ensures Cmp(a, c) == Chain(Cmp(a, b), Cmp(b, c))
    decreases Size(a) + Size(b) + Size(c), 1
  {
    CmpView(a, b);
    CmpView(b, c);
    CmpView(a, c);
    if !(a.Int? && b.Int? && c.Int?) {
      CmpAllTrans(View(a), View(b), View(c));
    }
  }

  lemma {:induction false} CmpAllTrans(xs: seq<Packet>, ys: seq<Packet>, zs: seq<Packet>)
    requires CmpAll(xs, ys) != Greater && CmpAll(ys, zs) != Greater
    ensures CmpAll(xs, zs) == Chain(CmpAll(xs, ys), CmpAll(ys, zs))
    decreases SizeAll(xs) + SizeAll(ys) + SizeAll(zs), 2
  {
    if |xs| > 0 && |ys| > 0 && |zs| > 0 {
      CmpTrans(xs[0], ys[0], zs[0]);
      if Cmp(xs[0], ys[0]) == Equal && Cmp(ys[0], zs[0]) == Equal {
        CmpAllTrans(xs[1..], ys[1..], zs[1..]);
      }
    }
  }

  /** `eq` and `cmp` disagree: an integer and the one-element list holding
      it compare `Equal` but are not equal. */
  lemma IntAgainstWrappedInt(x: int)
    ensures Cmp(Int(x), List([Int(x)])) == Equal
    ensures !Eq(Int(x), List([Int(x)]))
  {
    CmpAllRefl([Int(x)]);
  }

  /** Equal packets compare `Equal`. */
  lemma EqThenCmpEqual(a: Packet, b: Packet)
    requires Eq(a, b)
    ensures Cmp(a, b) == Equal
  {
    EqIsEquality(a, b);
    CmpRefl(a);
  }

  /** The comparisons asserted by the packet tests: `[7,7]` is not less
      than `[7]`, and `[[1],[2,3,4]]` is less than `[[1],4]`. */
  lemma SampleComparisons()
    ensures !Lt(List([Int(7), Int(7)]), List([Int(7)]))
    ensures Lt(List([List([Int(1)]), List([Int(2), Int(3), Int(4)])]),
               List([List([Int(1)]), Int(4)]))
  {
    var seven := [Int(7), Int(7)];
    CmpAllLengths(seven, [Int(7)]);
    var l1 := [List([Int(1)]), List([Int(2), Int(3), Int(4)])];
    var l2 := [List([Int(1)]), Int(4)];
    CmpRefl(l1[0]);
    assert Cmp(l1[1], l2[1]) == Less;
    CmpAllFirstDifference(l1, l2, 1);
  }

  // ------------------------------------------------------------- printing

  /** The `Debug` rendering: an integer in decimal, a list as its elements
      separated by commas inside brackets. */
  function Show(p: Packet): string
  {
    match p
    case Int(x) => IntToString(x)
    case List(xs) => "[" + ShowAll(xs) + "]"
  }

  /** The elements of a list, each followed by a comma except the last. */
  function ShowAll(xs: seq<Packet>): string
  {
    if |xs| == 0 then ""
    else if |xs| == 1 then Show(xs[0])
    else Show(xs[0]) + "," + ShowAll(xs[1..])
  }

  /** A rendering opens with `[` exactly when the packet is a list and then
      ends with `]`. */
  lemma ShowShape(p: Packet)
    ensures |Show(p)| > 0
    ensures Show(p)[0] == '[' <==> p.List?
    ensures p.List? ==> Show(p)[|Show(p)| - 1] == ']'
  {
    if p.Int? {
      var x := p.n;
      if x < 0 {
        assert Show(p)[0] == '-';
      } else {
        assert IsDigit(NatToString(x)[0]);
      }
    }
  }
}
