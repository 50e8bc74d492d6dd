/** Day 20: mixing an encrypted file. The numbers form a circular doubly
    linked list, kept here as two index sequences `next` and `prev` over
    the numbers' positions in the file; mixing moves each number, in file
    order, as many places along the circle as its value says. */
module Mixer {
  import opened Util

  /** `next` and `prev` link `n` nodes and undo each other: following one
      and then the other gets back to where it started. */
  ghost predicate Linked(next: seq<nat>, prev: seq<nat>, n: nat)
  {
    |next| == n && |prev| == n &&
    (forall j :: 0 <= j < n ==> next[j] < n && prev[j] < n) &&
    (forall j :: 0 <= j < n ==> prev[next[j]] == j && next[prev[j]] == j)
  }

  /** Every link points inside the list. */
  predicate Closed(next: seq<nat>)
  {
    forall j :: 0 <= j < |next| ==> next[j] < |next|
  }

  /** The node `k` steps along `next` from node `j`. */
  function Walk(next: seq<nat>, j: nat, k: nat): (r: nat)
    requires Closed(next) && j < |next|
    ensures r < |next|
    decreases k
  {
    if k == 0 then j else Walk(next, next[j], k - 1)
  }

  // ------------------------------------------------------------ linking

  /** The initial linking: each node's successor is the next one in file
      order and the last node's is the first, and the reverse for `prev`. */
  method Link(n: nat) returns (next: seq<nat>, prev: seq<nat>)
    requires n >= 1
    ensures Linked(next, prev, n)
    ensures forall j :: 0 <= j < n ==> next[j] == (j + 1) % n
    ensures forall j :: 0 <= j < n ==> prev[j] == (j + n - 1) % n
  {
    next := seq(n, _ => 0);
    prev := seq(n, _ => 0);
    prev := prev[0 := n - 1];
    next := next[n - 1 := 0];
    var i := 0;
    while i < n
      invariant 0 <= i <= n && |next| == n && |prev| == n
      invariant prev[0] == n - 1 && next[n - 1] == 0
      invariant forall k :: 0 < k < i ==> prev[k] == k - 1
      invariant forall k :: 0 <= k < i && k < n - 1 ==> next[k] == k + 1
    {
      if i > 0 {
        prev := prev[i := i - 1];
      }
      if i < n - 1 {
        next := next[i := i + 1];
      }
      i := i + 1;
    }
    forall j | 0 <= j < n
      ensures next[j] == (j + 1) % n && prev[j] == (j + n - 1) % n
    {
      if j == n - 1 {
        ModUnique(j + 1, 1, 0, n);
      } else {
        ModUnique(j + 1, 0, j + 1, n);
      }
      if j == 0 {
        ModUnique(j + n - 1, 0, n - 1, n);
      } else {
        ModUnique(j + n - 1, 1, j - 1, n);
      }
    }
  }

  /** After the initial linking the nodes form one cycle in file order:
      `k` steps from node `j` is node `(j + k) mod n`. */
  lemma {:induction false} WalkInOrder(next: seq<nat>, n: nat, j: nat, k: nat)
    requires n >= 1 && |next| == n && j < n
    requires forall i :: 0 <= i < n ==> next[i] == (i + 1) % n
    ensures Closed(next) && Walk(next, j, k) == (j + k) % n
    decreases k
  {
    if k == 0 {
      ModUnique(j, 0, j, n);
    } else {
      WalkInOrder(next, n, (j + 1) % n, k - 1);
      ModSucc(j, k - 1, n);
    }
  }

  // ------------------------------------------------------------- mixing

  /** `next` and `prev` with node `i` unlinked: the other nodes still
      undo each other and none of them points at `i`. */
  ghost predicate LinkedWithout(next: seq<nat>, prev: seq<nat>, n: nat, i: nat)
  {
    |next| == n && |prev| == n && i < n &&
    (forall j :: 0 <= j < n ==> next[j] < n && prev[j] < n) &&
    (forall j :: 0 <= j < n && j != i ==> next[j] != i && prev[j] != i) &&
    (forall j :: 0 <= j < n && j != i ==> prev[next[j]] == j && next[prev[j]] == j)
  }

  /** Unlinking a node that is not alone leaves the others linked. */
  lemma Unlink(next: seq<nat>, prev: seq<nat>, n: nat, i: nat)
    requires Linked(next, prev, n) && i < n && next[i] != i
    ensures prev[i] != i
    ensures LinkedWithout(next[prev[i] := next[i]], prev[next[i] := prev[i]], n, i)
  {
    var p, q := prev[i], next[i];
    var next1, prev1 := next[p := q], prev[q := p];
    forall j | 0 <= j < n && j != i
      ensures next1[j] < n && prev1[j] < n && next1[j] != i && prev1[j] != i
      ensures prev1[next1[j]] == j && next1[prev1[j]] == j
    {
      if next[j] == i {
        assert j == p;
      }
      if prev[j] == i {
        assert j == q;
      }
    }
  }

  /** Linking node `i` back in right after `h` restores a linked list. */
  lemma Relink(next1: seq<nat>, prev1: seq<nat>, n: nat, i: nat, h: nat)
    requires LinkedWithout(next1, prev1, n, i) && h < n && h != i
    ensures var m := next1[h];
      var next2 := next1[i := m];
      Linked(next2[h := i], prev1[i := h][next2[h] := i], n)
  {
    var m := next1[h];
    var next2 := next1[i := m];
    var next3, prev3 := next2[h := i], prev1[i := h][m := i];
    assert next2[h] == m;
    forall j | 0 <= j < n
      ensures next3[j] < n && prev3[j] < n
      ensures prev3[next3[j]] == j && next3[prev3[j]] == j
    {
    }
  }

  /** The places a number moves: its value modulo one less than the
      number of nodes, truncating as C++'s `%` does. */
  function Rotation(value: int, n: nat): (r: int)
    requires n >= 2
    ensures Abs(r) < n - 1
    ensures r == 0 <==> value % (n - 1) == 0
    ensures value >= 0 ==> r >= 0
    ensures value < 0 ==> r <= 0
  {
    TruncDivRem(value, n - 1);
    if value < 0 then
      assert TruncRem(value, n - 1) == -TruncRem(-value, n - 1) by {
        TruncRemNeg(value, n - 1);
      }
      ZeroRemIff(-value, n - 1);
      TruncRem(value, n - 1)
    else
      ZeroRemIff(value, n - 1);
      TruncRem(value, n - 1)
  }

  /** Truncating remainder is odd in the dividend. */
  lemma TruncRemNeg(a: int, b: int)
    requires b > 0 && a < 0
    ensures TruncRem(a, b) == -TruncRem(-a, b)
  {
  }

  /** For a natural dividend, a zero truncating remainder is a zero
      Euclidean remainder, and so divisibility of `-a` is that of `a`. */
  lemma ZeroRemIff(a: int, b: int)
    requires a >= 0 && b > 0
    ensures TruncRem(a, b) == 0 <==> a % b == 0
    ensures a % b == 0 <==> (-a) % b == 0
  {
    TruncDivRem(a, b);
    var q := TruncDiv(a, b);
    if TruncRem(a, b) == 0 {
      ModUnique(a, q, 0, b);
      ModUnique(-a, -q, 0, b);
    }
    if a % b == 0 {
      ModUnique(-a, -(a / b), 0, b);
      ModUnique(a, a / b, 0, b);
    }
    if (-a) % b == 0 {
      var p := (-a) / b;
      assert -a == p * b;
      ModUnique(a, -p, 0, b);
    }
  }

  /** One move of node `i`: unlink it, walk `|r|` steps from its old
      predecessor (backwards for a negative value), and link it back in
      after the node reached. A number whose value is a multiple of
      `n - 1` stays put; otherwise the list stays linked and node `i`
      ends up right after the node reached. */
  method Move(values: seq<int>, next: seq<nat>, prev: seq<nat>, i: nat)
    returns (next': seq<nat>, prev': seq<nat>, h: nat)
    requires |values| >= 2 && Linked(next, prev, |values|) && i < |values|
    ensures Linked(next', prev', |values|)
    ensures values[i] % (|values| - 1) == 0 ==> next' == next && prev' == prev
    ensures values[i] % (|values| - 1) != 0 && next[i] != i ==>
      h != i && h < |values| && prev'[i] == h && next'[h] == i
    ensures values[i] % (|values| - 1) != 0 && next[i] != i ==>
      var next1, prev1 := next[prev[i] := next[i]], prev[next[i] := prev[i]];
      var steps := Abs(Rotation(values[i], |values|));
      Closed(next1) && Closed(prev1) &&
      h == if values[i] < 0 then Walk(prev1, prev[i], steps) else Walk(next1, prev[i], steps)
  {
    var n := |values|;
    h := i;
    var rotate := Rotation(values[i], n);
    if rotate == 0 {
      next', prev' := next, prev;
      return;
    }
    if next[i] == i {
      // Alone on its cycle: unlinking and relinking changes nothing.
      next', prev' := next, prev;
      return;
    }
    Unlink(next, prev, n, i);
    var next1 := next[prev[i] := next[i]];
    var prev1 := prev[next1[i] := prev[i]];
    var head := Seek(next1, prev1, i, prev1[i], Abs(rotate), rotate < 0);
    Relink(next1, prev1, n, i, head);
    var m := next1[head];
    next' := next1[i := m];
    prev' := prev1[i := head];
    prev' := prev'[next'[head] := i];
    next' := next'[head := i];
    h := head;
  }

  /** The walk of a move: `count` steps from `from`, along `prev` when
      `back` and along `next` otherwise, never meeting the unlinked node
      `i`. */
  method Seek(next: seq<nat>, prev: seq<nat>, i: nat, from: nat, count: nat, back: bool)
    returns (h: nat)
    requires LinkedWithout(next, prev, |next|, i) && from < |next| && from != i
    ensures Closed(next) && Closed(prev)
    ensures h != i && h == if back then Walk(prev, from, count) else Walk(next, from, count)
  {
    h := from;
    var k := 0;
    while k < count
      invariant 0 <= k <= count && h < |next| && h != i
      invariant h == if back then Walk(prev, from, k) else Walk(next, from, k)
    {
      WalkSucc(prev, from, k);
      WalkSucc(next, from, k);
      h := if back then prev[h] else next[h];
      k := k + 1;
    }
  }

  /** `decrypt`: `times` rounds of moving every number once, in file
      order. The list stays linked throughout. */
  method Decrypt(values: seq<int>, next: seq<nat>, prev: seq<nat>, times: nat)
    returns (next': seq<nat>, prev': seq<nat>)
    requires |values| >= 2 && Linked(next, prev, |values|)
    ensures Linked(next', prev', |values|)
    ensures (forall k :: 0 <= k < |values| ==> values[k] % (|values| - 1) == 0) ==> next' == next && prev' == prev
  {
    next', prev' := next, prev;
    var round := 0;
    while round < times
      invariant Linked(next', prev', |values|)
      invariant (forall k :: 0 <= k < |values| ==> values[k] % (|values| - 1) == 0) ==> next' == next && prev' == prev
    {
      var i := 0;
      while i < |values|
        invariant Linked(next', prev', |values|)
        invariant (forall k :: 0 <= k < |values| ==> values[k] % (|values| - 1) == 0) ==> next' == next && prev' == prev
      {
        var h;
        next', prev', h := Move(values, next', prev', i);
        i := i + 1;
      }
      round := round + 1;
    }
  }

  // --------------------------------------------------------- read-out

  /** The first node holding zero, as `find_if` finds it; `None` where
      there is none. */
  function FindZero(values: seq<int>): (r: Option<nat>)
    ensures r.None? <==> 0 !in values
    ensures r.Some? ==> r.value < |values| && values[r.value] == 0
    ensures r.Some? ==> forall k :: 0 <= k < r.value ==> values[k] != 0
  {
    if |values| == 0 then None
    else if values[0] == 0 then Some(0)
    else match FindZero(values[1..])
      case None => None
      case Some(k) => Some(k + 1)
  }

  /** The grove coordinates: the numbers 1000, 2000 and 3000 places after
      the zero along the list, added up; `None` where there is no zero. */
  method GroveSum(values: seq<int>, next: seq<nat>) returns (r: Option<int>)
    requires |next| == |values| && Closed(next)
    ensures r.None? <==> 0 !in values
    ensures r.Some? ==> var z := FindZero(values).value; var n := |values|;
      r.value == values[Walk(next, z, 1000 % n)] + values[Walk(next, z, 2000 % n)] + values[Walk(next, z, 3000 % n)]
  {
    var zero := FindZero(values);
    if zero.None? {
      return None;
    }
    var n := |values|;
    var node := zero.value;
    var read: seq<int> := [];
    var i := 0;
    while i < n
      invariant 0 <= i <= n && |read| == i
      invariant node == Walk(next, zero.value, i)
      invariant forall k :: 0 <= k < i ==> read[k] == values[Walk(next, zero.value, k)]
    {
      WalkSucc(next, zero.value, i);
      read := read + [values[node]];
      node := next[node];
      i := i + 1;
    }
    r := Some(read[1000 % n] + read[2000 % n] + read[3000 % n]);
  }

  /** One step more is one step from where `k` steps lead. */
  lemma {:induction false} WalkSucc(next: seq<nat>, j: nat, k: nat)
    requires Closed(next) && j < |next|
    ensures Walk(next, j, k + 1) == next[Walk(next, j, k)]
    decreases k
  {
    if k > 0 {
      WalkSucc(next, next[j], k - 1);
    }
  }

  /** Read out before any mixing, the grove coordinates are the numbers
      1000, 2000 and 3000 places after the zero in file order, wrapping
      round. */
  lemma GroveInFileOrder(values: seq<int>, next: seq<nat>, z: nat)
    requires |values| >= 1 && |next| == |values| && z < |values|
    requires forall i :: 0 <= i < |values| ==> next[i] == (i + 1) % |values|
    ensures Closed(next)
    ensures var n := |values|;
      values[Walk(next, z, 1000 % n)] + values[Walk(next, z, 2000 % n)] + values[Walk(next, z, 3000 % n)]
      == values[(z + 1000 % n) % n] + values[(z + 2000 % n) % n] + values[(z + 3000 % n) % n]
  {
    var n := |values|;
    WalkInOrder(next, n, z, 1000 % n);
    WalkInOrder(next, n, z, 2000 % n);
    WalkInOrder(next, n, z, 3000 % n);
  }
}
