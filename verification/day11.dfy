/** Day 11: monkeys passing items. Each monkey inspects its items in
    order, computes a new worry level with its operation, calms it down
    (divide by three, or reduce modulo a common modulus), and throws the
    item to one of two monkeys depending on a divisibility test. */
module MonkeyBusiness {
  import opened Util
  import opened Text
  import opened Ranking

  /** The operation a monkey applies, in place of the closure the source
      builds: `old + old`, `old * old`, `old + n`, `old * n`, or the
      identity for any other operator. */
  datatype Operation = Double | Square | AddConst(n: nat) | MulConst(n: nat) | Identity

  /** The operation on unbounded integers. */
  function Eval(op: Operation, x: nat): nat
  {
    match op
    case Double => x + x
    case Square => x * x
    case AddConst(n) => x + n
    case MulConst(n) => x * n
    case Identity => x
  }

  /** The operation in `u64`, `None` where it overflows (a debug build
      panics). */
  function ApplyOp(op: Operation, x: nat): (r: Option<nat>)
    ensures r.Some? <==> Eval(op, x) <= U64_MAX
    ensures r.Some? ==> r.value == Eval(op, x)
  {
    var v := Eval(op, x);
    if v <= U64_MAX then Some(v) else None
  }

  /** The closure `parse_monkey` picks from the operator and the second
      operand of `new = old <operator> <operand>`. An operand other than
      `old` must parse as a `u64` whatever the operator; `None` where the
      source unwraps a failed parse. */
  function OperationOf(operator: string, operand: string): (r: Option<Operation>)
    ensures r.None? <==> operand != "old" && ParseU64(operand).None?
    ensures r.Some? && operand == "old" ==>
      r.value == (if operator == "+" then Double else if operator == "*" then Square else Identity)
    ensures r.Some? && operand != "old" ==>
      r.value == (if operator == "+" then AddConst(ParseU64(operand).value)
                  else if operator == "*" then MulConst(ParseU64(operand).value) else Identity)
  {
    var arg := if operand == "old" then None else ParseU64(operand);
    if operand != "old" && arg.None? then None
    else if operator == "+" && operand == "old" then Some(Double)
    else if operator == "*" && operand == "old" then Some(Square)
    else if operator == "+" then Some(AddConst(arg.value))
    else if operator == "*" then Some(MulConst(arg.value))
    else Some(Identity)
  }

  /** The operator and operand an operation is written with. */
  function OperationText(op: Operation): (string, string)
  {
    match op
    case Double => ("+", "old")
    case Square => ("*", "old")
    case AddConst(n) => ("+", NatToString(n))
    case MulConst(n) => ("*", NatToString(n))
    case Identity => ("-", "old")
  }

  /** Every operation with a `u64` constant is read back from its text, and
      it computes what the written formula says. */
  lemma OperationRoundTrip(op: Operation, x: nat)
    requires (op.AddConst? || op.MulConst?) ==> op.n <= U64_MAX
    ensures OperationOf(OperationText(op).0, OperationText(op).1) == Some(op)
    ensures Eval(op, x) == (match OperationText(op).0
      case "+" => x + (if OperationText(op).1 == "old" then x else op.n)
      case "*" => x * (if OperationText(op).1 == "old" then x else op.n)
      case _ => x)
  {
    if op.AddConst? || op.MulConst? {
      var s := NatToString(op.n);
      ParseIntToString(op.n, 0, U64_MAX);
      assert IntToString(op.n) == s;
      assert s != "old" by {
        assert IsDigit(s[0]);
      }
    }
  }

  // ---------------------------------------------------------------- turns

  /** `Monkey`: the queue of worry levels, the operation, the test divisor
      and the two targets, the optional common modulus, and the number of
      items inspected so far. */
  datatype Monkey = Monkey(items: seq<nat>, op: Operation, divisor: nat, a: nat, b: nat,
                           modulus: Option<nat>, activity: nat)

  /** The worry level after inspection: reduced modulo the common modulus
      when there is one, divided by three otherwise. `None` where the
      operation overflows or the modulus is zero. */
  function NewWorry(m: Monkey, item: nat): (r: Option<nat>)
    ensures r.Some? <==> Eval(m.op, item) <= U64_MAX && m.modulus != Some(0)
    ensures r.Some? && m.modulus.Some? ==> r.value == Eval(m.op, item) % m.modulus.value
    ensures r.Some? && m.modulus.None? ==> r.value == Eval(m.op, item) / 3
    ensures r.Some? && m.modulus.Some? ==> r.value < m.modulus.value
  {
    match ApplyOp(m.op, item)
    case None => None
    case Some(v) =>
      match m.modulus
      case Some(md) => if md == 0 then None else Some(v % md)
      case None => Some(v / 3)
  }

  /** One inspection: the target monkey and the new worry level. The
      target is `a` when the worry level is divisible by the divisor and
      `b` otherwise; `None` where the source panics (a zero divisor
      included). */
  function Throw(m: Monkey, item: nat): (r: Option<(nat, nat)>)
    ensures r.Some? <==> NewWorry(m, item).Some? && m.divisor > 0
    ensures r.Some? ==> r.value.1 == NewWorry(m, item).value
    ensures r.Some? ==> (r.value.0 == m.a <== r.value.1 % m.divisor == 0)
    ensures r.Some? ==> (r.value.0 == m.b <== r.value.1 % m.divisor != 0)
  {
    match NewWorry(m, item)
    case None => None
    case Some(w) =>
      if m.divisor == 0 then None
      else if w % m.divisor == 0 then Some((m.a, w)) else Some((m.b, w))
  }

  /** The throws for a queue of items, in queue order. */
  function Throws(m: Monkey, items: seq<nat>): (r: Option<seq<(nat, nat)>>)
    ensures r.Some? <==> forall k :: 0 <= k < |items| ==> Throw(m, items[k]).Some?
    ensures r.Some? ==> |r.value| == |items|
    ensures r.Some? ==> forall k :: 0 <= k < |items| ==> r.value[k] == Throw(m, items[k]).value
    decreases |items|
  {
    if |items| == 0 then Some([])
    else match Throw(m, items[0])
      case None => None
      case Some(t) =>
        match Throws(m, items[1..])
        case None =>
          assert exists k :: 0 <= k < |items| && Throw(m, items[k]).None? by {
            var k :| 0 <= k < |items[1..]| && Throw(m, items[1..][k]).None?;
            assert Throw(m, items[k + 1]).None?;
          }
          None
        case Some(ts) =>
          assert forall k :: 1 <= k < |items| ==> items[k] == items[1..][k - 1];
          Some([t] + ts)
  }

  /** `take_turn`: the queue is emptied, every item counts as an
      inspection, and the throws come out in queue order. */
  function TakeTurn(m: Monkey): (r: Option<(Monkey, seq<(nat, nat)>)>)
    ensures r.Some? <==> forall k :: 0 <= k < |m.items| ==> Throw(m, m.items[k]).Some?
    ensures r.Some? ==> r.value.0.items == [] && r.value.0.activity == m.activity + |m.items|
    ensures r.Some? ==> r.value.0 == m.(items := [], activity := r.value.0.activity)
    ensures r.Some? ==> |r.value.1| == |m.items|
    ensures r.Some? ==> forall k :: 0 <= k < |m.items| ==> r.value.1[k] == Throw(m, m.items[k]).value
  {
    match Throws(m, m.items)
    case None => None
    case Some(ts) => Some((m.(items := [], activity := m.activity + |m.items|), ts))
  }

  // -------------------------------------------------------------- rounds

  /** The worry levels thrown to monkey `i`, in throwing order. */
  function ValuesTo(acts: seq<(nat, nat)>, i: nat): seq<nat>
    decreases |acts|
  {
    if |acts| == 0 then []
    else (if acts[0].0 == i then [acts[0].1] else []) + ValuesTo(acts[1..], i)
  }

  /** The monkeys' queues, in monkey order. */
  function Queues(ms: seq<Monkey>): (r: seq<seq<nat>>)
    ensures |r| == |ms| && forall i :: 0 <= i < |ms| ==> r[i] == ms[i].items
  {
    seq(|ms|, i requires 0 <= i < |ms| => ms[i].items)
  }

  /** The monkeys with their queues replaced by `qs`. */
  function WithQueues(ms: seq<Monkey>, qs: seq<seq<nat>>): (r: seq<Monkey>)
    requires |qs| == |ms|
    ensures |r| == |ms| && forall i :: 0 <= i < |ms| ==> r[i] == ms[i].(items := qs[i])
    ensures Queues(r) == qs
  {
    var r := seq(|ms|, i requires 0 <= i < |ms| => ms[i].(items := qs[i]));
    assert Queues(r) == qs;
    r
  }

  /** The number of items in all queues. */
  function Total(qs: seq<seq<nat>>): nat
  {
    if |qs| == 0 then 0 else Total(qs[..|qs| - 1]) + |qs[|qs| - 1]|
  }

  /** Replacing one queue changes the total by the difference. */
  lemma {:induction false} TotalUpdate(qs: seq<seq<nat>>, i: nat, q: seq<nat>)
    requires i < |qs|
    ensures Total(qs[i := q]) == Total(qs) - |qs[i]| + |q|
    decreases |qs|
  {
    var n := |qs| - 1;
    if i < n {
      assert qs[i := q][..n] == qs[..n][i := q];
      TotalUpdate(qs[..n], i, q);
    } else {
      assert qs[i := q][..n] == qs[..n];
    }
  }

  /** The number of items all monkeys hold. */
  function TotalItems(ms: seq<Monkey>): nat
  {
    Total(Queues(ms))
  }

  /** Every throw goes to one of `n` monkeys. */
  predicate TargetsBelow(acts: seq<(nat, nat)>, n: nat)
  {
    forall k :: 0 <= k < |acts| ==> acts[k].0 < n
  }

  /** All throws have valid targets exactly when the first and the rest
      do. */
  lemma TargetsBelowStep(acts: seq<(nat, nat)>, n: nat)
    requires |acts| > 0
    ensures TargetsBelow(acts, n) <==> acts[0].0 < n && TargetsBelow(acts[1..], n)
  {
    if acts[0].0 < n && TargetsBelow(acts[1..], n) {
      forall k | 0 <= k < |acts| ensures acts[k].0 < n {
        if k > 0 {
          assert acts[k] == acts[1..][k - 1];
        }
      }
    }
  }

  /** Queue `i` of `after` is queue `i` of `before` followed by the values
      thrown to monkey `i`, in throwing order. */
  predicate Delivered(before: seq<seq<nat>>, acts: seq<(nat, nat)>, after: seq<seq<nat>>)
  {
    |after| == |before| && forall i :: 0 <= i < |before| ==> after[i] == before[i] + ValuesTo(acts, i)
  }

  /** Handing out the throws: each worry level joins the back of its
      target's queue; `None` where a target is not a monkey. Every queue
      receives exactly the values thrown to it, in order, after what it
      held. */
  function Deliver(qs: seq<seq<nat>>, acts: seq<(nat, nat)>): (r: Option<seq<seq<nat>>>)
    ensures r.Some? <==> TargetsBelow(acts, |qs|)
    ensures r.Some? ==> Delivered(qs, acts, r.value)
    decreases |acts|
  {
    if |acts| == 0 then
      assert forall i :: 0 <= i < |qs| ==> qs[i] + ValuesTo(acts, i) == qs[i];
      Some(qs)
    else
      TargetsBelowStep(acts, |qs|);
      var to, v := acts[0].0, acts[0].1;
      if to >= |qs| then None
      else
        var r := Deliver(qs[to := qs[to] + [v]], acts[1..]);
        if r.Some? then
          DeliveredStep(qs, acts, r.value);
          r
        else r
  }

  /** Delivering the first throw and then the rest delivers them all. */
  lemma DeliveredStep(qs: seq<seq<nat>>, acts: seq<(nat, nat)>, r: seq<seq<nat>>)
    requires |acts| > 0 && acts[0].0 < |qs|
    requires Delivered(qs[acts[0].0 := qs[acts[0].0] + [acts[0].1]], acts[1..], r)
    ensures Delivered(qs, acts, r)
  {
    var to, v := acts[0].0, acts[0].1;
    forall i | 0 <= i < |qs| ensures r[i] == qs[i] + ValuesTo(acts, i) {
      if i == to {
        assert r[i] == qs[i] + [v] + ValuesTo(acts[1..], i);
      }
    }
  }

  /** Handing out the throws adds one item per throw. */
  lemma {:induction false} DeliverTotal(qs: seq<seq<nat>>, acts: seq<(nat, nat)>)
    requires Deliver(qs, acts).Some?
    ensures Total(Deliver(qs, acts).value) == Total(qs) + |acts|
    decreases |acts|
  {
    if |acts| > 0 {
      var to, v := acts[0].0, acts[0].1;
      TotalUpdate(qs, to, qs[to] + [v]);
      DeliverTotal(qs[to := qs[to] + [v]], acts[1..]);
    }
  }

  /** Monkey `i` takes its turn and its throws are handed out. Items are
      neither created nor lost, monkey `i` is credited with one inspection
      per item it held, and no other monkey's count changes. */
  function Turn(ms: seq<Monkey>, i: nat): (r: Option<seq<Monkey>>)
    requires i < |ms|
    ensures r.Some? ==> |r.value| == |ms| && TotalItems(r.value) == TotalItems(ms)
    ensures r.Some? ==> r.value[i].activity == ms[i].activity + |ms[i].items|
    ensures r.Some? ==> forall j :: 0 <= j < |ms| && j != i ==> r.value[j].activity == ms[j].activity
  {
    match TakeTurn(ms[i])
    case None => None
    case Some((m, acts)) =>
      var ms1 := ms[i := m];
      assert Queues(ms1) == Queues(ms)[i := []];
      TotalUpdate(Queues(ms), i, []);
      match Deliver(Queues(ms1), acts)
      case None => None
      case Some(qs) =>
        DeliverTotal(Queues(ms1), acts);
        Some(WithQueues(ms1, qs))
  }

  /** The turns of monkeys `i` onwards. */
  function RoundFrom(ms: seq<Monkey>, i: nat): (r: Option<seq<Monkey>>)
    requires i <= |ms|
    ensures r.Some? ==> |r.value| == |ms| && TotalItems(r.value) == TotalItems(ms)
    decreases |ms| - i
  {
    if i == |ms| then Some(ms)
    else match Turn(ms, i)
      case None => None
      case Some(ms1) => RoundFrom(ms1, i + 1)
  }

  /** `count` rounds, every monkey taking its turn in order. Items are
      neither created nor lost. */
  function Rounds(ms: seq<Monkey>, count: nat): (r: Option<seq<Monkey>>)
    ensures r.Some? ==> |r.value| == |ms| && TotalItems(r.value) == TotalItems(ms)
    decreases count
  {
    if count == 0 then Some(ms)
    else match RoundFrom(ms, 0)
      case None => None
      case Some(ms1) => Rounds(ms1, count - 1)
  }

  // ------------------------------------------------------------- business

  /** The activity counts in monkey order. */
  function Activities(ms: seq<Monkey>): (r: seq<int>)
    ensures |r| == |ms| && forall i :: 0 <= i < |ms| ==> r[i] == ms[i].activity && r[i] >= 0
  {
    seq(|ms|, i requires 0 <= i < |ms| => ms[i].activity)
  }

  /** `first` is a largest value of `s`, and `second` a largest of what
      remains once `first` is taken out. */
  predicate IsTopTwo(s: seq<int>, first: int, second: int)
  {
    first in multiset(s) && (forall v :: v in multiset(s) ==> v <= first) &&
    second in multiset(s) - multiset{first} &&
    forall v :: v in multiset(s) - multiset{first} ==> v <= second
  }

  /** The two largest values: the largest, and the largest of what remains
      once it is taken out. */
  function TopTwo(s: seq<int>): (r: (int, int))
    requires |s| >= 2
    ensures IsTopTwo(s, r.0, r.1)
    ensures (forall i :: 0 <= i < |s| ==> s[i] >= 0) ==> r.0 >= 0 && r.1 >= 0
  {
    var t := SortDesc(s);
    DescendingHead(t);
    DescendingHead(t[1..]);
    assert t[1..][0] == t[1];
    assert t[0] in s && t[1] in s;
    (t[0], t[1])
  }

  /** The head of a descending list is at least every value it holds, and
      the rest holds the other values. */
  lemma DescendingHead(t: seq<int>)
    requires |t| > 0 && Descending(t)
    ensures t[0] in multiset(t)
    ensures forall v :: v in multiset(t) ==> v <= t[0]
    ensures multiset(t[1..]) == multiset(t) - multiset{t[0]} && Descending(t[1..])
  {
    assert t == [t[0]] + t[1..];
    forall v | v in multiset(t) ensures v <= t[0] {
      var j :| 0 <= j < |t| && t[j] == v;
    }
  }

  /** The monkey business of a list of activities: the product of the two
      largest, `None` where there are fewer than two or the product
      overflows a `usize`. */
  function Business(acts: seq<int>): (r: Option<nat>)
    requires forall i :: 0 <= i < |acts| ==> acts[i] >= 0
    ensures r.Some? <==> |acts| >= 2 && TopTwo(acts).0 * TopTwo(acts).1 <= U64_MAX
    ensures r.Some? ==> r.value == TopTwo(acts).0 * TopTwo(acts).1
  {
    if |acts| < 2 then None
    else
      var top := TopTwo(acts);
      var p := top.0 * top.1;
      if p > U64_MAX then None else Some(p)
  }

  /** `get_monkey_business`: the product of the two largest activities
      after `count` rounds. `None` where a round panics, where there are
      fewer than two monkeys, or where the product overflows a `usize`. */
  function GetMonkeyBusiness(ms: seq<Monkey>, count: nat): (r: Option<nat>)
    ensures r.Some? ==> |ms| >= 2 && Rounds(ms, count).Some?
    ensures r.Some? ==> r == Business(Activities(Rounds(ms, count).value))
  {
    match Rounds(ms, count)
    case None => None
    case Some(ms1) => Business(Activities(ms1))
  }

  /** The product of every monkey's divisor. */
  function DivisorProduct(ms: seq<Monkey>): nat
  {
    if |ms| == 0 then 1 else DivisorProduct(ms[..|ms| - 1]) * ms[|ms| - 1].divisor
  }

  /** Each divisor divides the product. */
  lemma {:induction false} DivisorProductMultiple(ms: seq<Monkey>, i: nat)
    requires i < |ms| && ms[i].divisor > 0
    ensures DivisorProduct(ms) % ms[i].divisor == 0
    decreases |ms|
  {
    var n := |ms| - 1;
    var d := ms[i].divisor;
    var p := DivisorProduct(ms[..n]);
    if i == n {
      ModUnique(p * d, p, 0, d);
    } else {
      DivisorProductMultiple(ms[..n], i);
      var q := p / d;
      assert p == q * d;
      assert p * ms[n].divisor == (q * ms[n].divisor) * d;
      ModUnique(p * ms[n].divisor, q * ms[n].divisor, 0, d);
    }
  }

  /** Reducing modulo a multiple of the divisor keeps the divisibility
      test's answer. */
  lemma ReduceKeepsTest(v: nat, md: nat, d: nat)
    requires d > 0 && md > 0 && md % d == 0
    ensures (v % md) % d == v % d
  {
    var k := md / d;
    ModUnique(md, k, 0, d);
    var q, r := v / md, v % md;
    assert v == q * md + r;
    assert v == (q * k) * d + r;
    var q2, r2 := r / d, r % d;
    assert r == q2 * d + r2;
    assert v == (q * k + q2) * d + r2;
    ModUnique(v, q * k + q2, r2, d);
  }

  /** The operations respect congruence: worry levels equal modulo `md`
      stay equal modulo `md`. */
  lemma EvalCongruent(op: Operation, x: nat, y: nat, md: nat)
    requires md > 0 && x % md == y % md
    ensures Eval(op, x) % md == Eval(op, y) % md
  {
    match op
    case Double =>
      AddMod(x, x, md);
      AddMod(y, y, md);
    case Square =>
      MulMod(x, x, md);
      MulMod(y, y, md);
    case AddConst(n) =>
      AddMod(x, n, md);
      AddMod(y, n, md);
    case MulConst(n) =>
      MulMod(x, n, md);
      MulMod(y, n, md);
    case Identity =>
  }

  /** Adding a multiple of `md` does not change the remainder. */
  lemma ShiftMod(a: nat, q: nat, md: nat)
    requires md > 0
    ensures (q * md + a) % md == a % md
  {
    var q2, r2 := a / md, a % md;
    assert q * md + a == (q + q2) * md + r2;
    ModUnique(q * md + a, q + q2, r2, md);
  }

  /** A sum's remainder depends only on the summands' remainders. */
  lemma AddMod(a: nat, b: nat, md: nat)
    requires md > 0
    ensures (a + b) % md == (a % md + b % md) % md
  {
    var qa, ra, qb, rb := a / md, a % md, b / md, b % md;
    SumSplit(a, qa, ra, b, qb, rb, md);
    ShiftMod(ra + rb, qa + qb, md);
  }

  /** A product's remainder depends only on the factors' remainders. */
  lemma MulMod(a: nat, b: nat, md: nat)
    requires md > 0
    ensures (a * b) % md == ((a % md) * (b % md)) % md
  {
    var qa, ra, qb, rb := a / md, a % md, b / md, b % md;
    var q := qa * qb * md + qa * rb + ra * qb;
    ProductSplit(a, qa, ra, b, qb, rb, md);
    ShiftMod(ra * rb, q, md);
  }

  /** The sum of `qa * md + ra` and `qb * md + rb` is a multiple of `md`
      plus `ra + rb`. */
  lemma SumSplit(a: nat, qa: nat, ra: nat, b: nat, qb: nat, rb: nat, md: nat)
    requires a == qa * md + ra && b == qb * md + rb
    ensures a + b == (qa + qb) * md + (ra + rb)
  {
  }

  /** The product of `qa * md + ra` and `qb * md + rb` is a multiple of
      `md` plus `ra * rb`. */
  lemma ProductSplit(a: nat, qa: nat, ra: nat, b: nat, qb: nat, rb: nat, md: nat)
    requires a == qa * md + ra && b == qb * md + rb
    ensures a * b == (qa * qb * md + qa * rb + ra * qb) * md + ra * rb
  {
  }

  /** With a common modulus that is a multiple of the divisor, a monkey
      throws an item to the monkey the unreduced worry level (without the
      division by three) would choose, and the worry level it throws is
      the unreduced one modulo the modulus: the reduction does not change
      where any item goes. */
  lemma ReducedThrowAgrees(m: Monkey, x: nat, y: nat)
    requires m.modulus.Some? && m.modulus.value > 0 && m.divisor > 0 && m.modulus.value % m.divisor == 0
    requires x % m.modulus.value == y % m.modulus.value
    requires Throw(m, x).Some?
    ensures Throw(m, x).value.0 == (if Eval(m.op, y) % m.divisor == 0 then m.a else m.b)
    ensures Throw(m, x).value.1 == Eval(m.op, y) % m.modulus.value
  {
    var md, d := m.modulus.value, m.divisor;
    var w := Throw(m, x).value.1;
    assert w == Eval(m.op, x) % md;
    EvalCongruent(m.op, x, y, md);
    assert w == Eval(m.op, y) % md;
    ReduceKeepsTest(Eval(m.op, y), md, d);
    assert w % d == Eval(m.op, y) % d;
  }

  /** Every monkey uses `md` as its common modulus. */
  function WithModulus(ms: seq<Monkey>, md: nat): (r: seq<Monkey>)
    ensures |r| == |ms| && forall i :: 0 <= i < |ms| ==> r[i] == ms[i].(modulus := Some(md))
  {
    seq(|ms|, i requires 0 <= i < |ms| => ms[i].(modulus := Some(md)))
  }

  /** Part one: twenty rounds, dividing by three. */
  function PartOne(ms: seq<Monkey>): Option<nat>
  {
    GetMonkeyBusiness(ms, 20)
  }

  /** Part two: ten thousand rounds modulo the product of the divisors,
      which must fit a `u64`. Every monkey's modulus is then a multiple of
      its own divisor. */
  function PartTwo(ms: seq<Monkey>): (r: Option<nat>)
    ensures r.Some? ==> DivisorProduct(ms) <= U64_MAX
  {
    var md := DivisorProduct(ms);
    if md > U64_MAX then None else GetMonkeyBusiness(WithModulus(ms, md), 10000)
  }

  /** In part two every monkey's modulus is a multiple of its divisor, so
      `ReducedThrowAgrees` applies to each of them. */
  lemma PartTwoModulusFits(ms: seq<Monkey>, i: nat)
    requires i < |ms| && ms[i].divisor > 0
    ensures WithModulus(ms, DivisorProduct(ms))[i].modulus.value % ms[i].divisor == 0
  {
    DivisorProductMultiple(ms, i);
  }

  // -------------------------------------------------------------- parsing

  /** `parse_trailing_number`: skip leading white space, require the
      prefix, and parse what follows as a `u64`. */
  function ParseTrailingNumber(s: string, prefix: string): (r: Option<nat>)
    ensures r.Some? ==> r.value <= U64_MAX
  {
    match StripPrefix(TrimStart(s), prefix)
    case None => None
    case Some(rest) => ParseU64(rest)
  }

  /** Leading white space is skipped up to the first other character. */
  lemma {:induction false} TrimStartSkips(ws: string, t: string)
    requires forall i :: 0 <= i < |ws| ==> IsWhitespace(ws[i])
    requires |t| > 0 && !IsWhitespace(t[0])
    ensures TrimStart(ws + t) == t
    decreases |ws|
  {
    if |ws| > 0 {
      assert (ws + t)[1..] == ws[1..] + t;
      TrimStartSkips(ws[1..], t);
    } else {
      assert ws + t == t;
    }
  }

  /** An indented line holding the prefix and a `u64` gives the number
      back. */
  lemma ParseTrailingRoundTrip(ws: string, prefix: string, n: nat)
    requires forall i :: 0 <= i < |ws| ==> IsWhitespace(ws[i])
    requires |prefix| > 0 && !IsWhitespace(prefix[0]) && n <= U64_MAX
    ensures ParseTrailingNumber(ws + prefix + NatToString(n), prefix) == Some(n)
  {
    var t := prefix + NatToString(n);
    assert ws + prefix + NatToString(n) == ws + t;
    TrimStartSkips(ws, t);
    assert t[..|prefix|] == prefix && t[|prefix|..] == NatToString(n);
    ParseIntToString(n, 0, U64_MAX);
    assert IntToString(n) == NatToString(n);
  }

  /** An indented line that does not start with the prefix gives nothing. */
  lemma ParseTrailingMissing(ws: string, prefix: string, other: string)
    requires forall i :: 0 <= i < |ws| ==> IsWhitespace(ws[i])
    requires |other| > 0 && !IsWhitespace(other[0]) && !(prefix <= other)
    ensures ParseTrailingNumber(ws + other, prefix).None?
  {
    TrimStartSkips(ws, other);
  }
}
