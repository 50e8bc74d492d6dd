/** Day 21: monkeys yelling numbers. Each monkey either yells a number or
    the result of an operation on two other monkeys' numbers; `root`
    compares two numbers, and `humn` is the number the player supplies. */
module MonkeyMath {
  import opened Util
  import opened Text

  datatype Op = Add | Subtract | Multiply | Divide

  datatype Expression = Expression(a: string, op: Op, b: string)

  datatype Entry = Number(n: int) | Expr(e: Expression)

  // ------------------------------------------------------------- parsing

  /** The operator symbol: anything other than `+`, `-` and `*` is taken
      for division. */
  function OpOf(sym: string): (op: Op)
    ensures op == Add <==> sym == "+"
    ensures op == Subtract <==> sym == "-"
    ensures op == Multiply <==> sym == "*"
    ensures op == Divide <==> sym !in {"+", "-", "*"}
  {
    if sym == "+" then Add
    else if sym == "-" then Subtract
    else if sym == "*" then Multiply
    else Divide
  }

  function Symbol(op: Op): string
  {
    match op
    case Add => "+"
    case Subtract => "-"
    case Multiply => "*"
    case Divide => "/"
  }

  /** `parse_line`: `"name: 5"` or `"name: a op b"`, split at single
      spaces. `None` where the source panics: no `:` after the name, a
      two-piece line whose number is not an `i64`, or fewer than four
      pieces otherwise. Pieces after the fourth are ignored. */
  function ParseLine(s: string): (r: Option<(string, Entry)>)
    ensures var items := SplitChar(s, ' ');
      r.Some? <==> (StripSuffix(items[0], ":").Some? &&
                    (if |items| == 2 then ParseI64(items[1]).Some? else |items| >= 4))
    ensures r.Some? ==> SplitChar(s, ' ')[0] == r.value.0 + ":"
    ensures r.Some? && r.value.1.Number? ==> InI64(r.value.1.n)
  {
    var items := SplitChar(s, ' ');
    match StripSuffix(items[0], ":")
    case None => None
    case Some(key) =>
      if |items| == 2 then
        match ParseI64(items[1])
        case None => None
        case Some(n) => Some((key, Number(n)))
      else if |items| < 4 then None
      else Some((key, Expr(Expression(items[1], OpOf(items[2]), items[3]))))
  }

  predicate NoSpace(s: string)
  {
    forall i :: 0 <= i < |s| ==> s[i] != ' '
  }

  /** A line as the puzzle input writes it. */
  function Render(key: string, e: Entry): string
  {
    match e
    case Number(n) => Join([key + ":", IntToString(n)], " ")
    case Expr(x) => Join([key + ":", x.a, Symbol(x.op), x.b], " ")
  }

  /** Parsing a rendered line gives back its name and entry, for names
      without spaces and numbers that fit an `i64`. */
  lemma ParseRender(key: string, e: Entry)
    requires NoSpace(key)
    requires e.Number? ==> InI64(e.n)
    requires e.Expr? ==> NoSpace(e.e.a) && NoSpace(e.e.b)
    ensures ParseLine(Render(key, e)) == Some((key, e))
  {
    var head := key + ":";
    assert head[..|head| - 1] == key;
    match e
    case Number(n) =>
      IntToStringChars(n);
      var parts := [head, IntToString(n)];
      SplitJoinChar(parts, ' ');
      ParseIntToString(n, I64_MIN, I64_MAX);
    case Expr(x) =>
      var parts := [head, x.a, Symbol(x.op), x.b];
      SplitJoinChar(parts, ' ');
      assert OpOf(Symbol(x.op)) == x.op;
  }

  // ----------------------------------------------------------- evaluation

  /** A ranking that witnesses the absence of cycles: every named monkey
      is ranked, and every monkey an operation names is ranked below the
      monkey doing the operation. Evaluation recurses down the ranks. */
  ghost predicate WellRanked(m: map<string, Entry>, rank: map<string, nat>)
  {
    forall k :: k in m ==>
      (k in rank &&
       (m[k].Expr? ==> m[k].e.a in rank && m[k].e.b in rank &&
                       rank[m[k].e.a] < rank[k] && rank[m[k].e.b] < rank[k]))
  }

  /** One operation on `i64` values: `None` where the source panics, on
      overflow or on division by zero. Division truncates toward zero. */
  function Apply(op: Op, a: int, b: int): (r: Option<int>)
    ensures r.Some? ==> InI64(r.value)
    ensures op == Divide ==> (r.None? <==> b == 0 || !InI64(TruncDiv(a, b)))
    ensures op == Divide && r.Some? ==>
      a == b * r.value + TruncRem(a, b) && Abs(TruncRem(a, b)) < Abs(b) &&
      (a >= 0 ==> TruncRem(a, b) >= 0) && (a < 0 ==> TruncRem(a, b) <= 0)
    ensures op == Add ==> (r.Some? <==> InI64(a + b)) && (r.Some? ==> r.value - b == a)
    ensures op == Subtract ==> (r.Some? <==> InI64(a - b)) && (r.Some? ==> r.value + b == a)
    ensures op == Multiply ==> (r.Some? <==> InI64(a * b)) && (r.Some? ==> r.value == a * b)
  {
    match op
    case Add => if InI64(a + b) then Some(a + b) else None
    case Subtract => if InI64(a - b) then Some(a - b) else None
    case Multiply => if InI64(a * b) then Some(a * b) else None
    case Divide =>
      if b == 0 then None
      else
        TruncDivRem(a, b);
        if a < 0 then
          assert TruncRem(a, b) <= 0 by {
            TruncRemNonpos(a, b);
          }
          if InI64(TruncDiv(a, b)) then Some(TruncDiv(a, b)) else None
        else if InI64(TruncDiv(a, b)) then Some(TruncDiv(a, b)) else None
  }

  /** A negative dividend leaves a remainder that is not positive. */
  lemma TruncRemNonpos(a: int, b: int)
    requires a < 0 && b != 0
    ensures TruncRem(a, b) <= 0
  {
    TruncDivRem(-a, b);
  }

  /** `get_expression_value`: a number is its value, an operation applies
      its operator to the values of the monkeys it names. `None` where the
      source panics: a missing monkey, overflow, or division by zero. */
  function Eval(m: map<string, Entry>, rank: map<string, nat>, key: string): (r: Option<int>)
    requires WellRanked(m, rank)
    ensures key !in m ==> r.None?
    ensures key in m && m[key].Number? ==> r == Some(m[key].n)
    ensures key in m && m[key].Expr? && r.Some? ==> InI64(r.value)
    decreases if key in rank then rank[key] else 0
  {
    if key !in m then None
    else match m[key]
      case Number(n) => Some(n)
      case Expr(e) =>
        match Eval(m, rank, e.a)
        case None => None
        case Some(a) =>
          match Eval(m, rank, e.b)
          case None => None
          case Some(b) => Apply(e.op, a, b)
  }

  /** Whether the value of `key` depends on the monkey `t`. */
  ghost predicate Reaches(m: map<string, Entry>, rank: map<string, nat>, key: string, t: string)
    requires WellRanked(m, rank)
    decreases if key in rank then rank[key] else 0
  {
    key == t ||
    (key in m && m[key].Expr? && (Reaches(m, rank, m[key].e.a, t) || Reaches(m, rank, m[key].e.b, t)))
  }

  /** Replacing a ranked monkey by a number keeps the ranking valid. */
  lemma OverrideRanked(m: map<string, Entry>, rank: map<string, nat>, t: string, n: int)
    requires WellRanked(m, rank) && t in rank
    ensures WellRanked(m[t := Number(n)], rank)
  {
  }

  /** Replacing monkey `t` by a number changes nothing for a monkey whose
      value does not depend on `t`. */
  lemma {:induction false} OverrideUnreached(m: map<string, Entry>, rank: map<string, nat>, key: string, t: string, n: int)
    requires WellRanked(m, rank) && t in rank && !Reaches(m, rank, key, t)
    ensures WellRanked(m[t := Number(n)], rank)
    ensures Eval(m[t := Number(n)], rank, key) == Eval(m, rank, key)
    decreases if key in rank then rank[key] else 0
  {
    OverrideRanked(m, rank, t, n);
    if key in m && m[key].Expr? {
      OverrideUnreached(m, rank, m[key].e.a, t, n);
      OverrideUnreached(m, rank, m[key].e.b, t, n);
    }
  }

  /** `check_root_equality`: with `humn` replaced by `input` in a copy of
      the monkeys, whether `root`'s two operands are equal, and their
      values. A `root` that is a number gives `(false, i64::MIN,
      i64::MAX)`. `None` where the source panics. */
  function CheckRootEquality(m: map<string, Entry>, rank: map<string, nat>, input: int): (r: Option<(bool, int, int)>)
    requires WellRanked(m, rank) && "humn" in rank
    ensures "root" !in m && "root" != "humn" ==> r.None?
    ensures "root" in m && m["root"].Number? ==> r == Some((false, I64_MIN, I64_MAX))
    ensures r.Some? ==> (r.value.0 <==> r.value.1 == r.value.2)
  {
    var m' := m["humn" := Number(input)];
    OverrideRanked(m, rank, "humn", input);
    if "root" !in m' then None
    else match m'["root"]
      case Number(_) => Some((false, I64_MIN, I64_MAX))
      case Expr(e) =>
        match (Eval(m', rank, e.a), Eval(m', rank, e.b))
        case (Some(a), Some(b)) => Some((a == b, a, b))
        case _ => None
  }

  /** The copy is what changes: an operand of `root` that does not depend
      on `humn` has the value it has in the monkeys as given, whatever the
      input. */
  lemma CheckRootConstantSide(m: map<string, Entry>, rank: map<string, nat>, input: int)
    requires WellRanked(m, rank) && "humn" in rank
    requires "root" in m && m["root"].Expr? && !Reaches(m, rank, m["root"].e.a, "humn")
    requires CheckRootEquality(m, rank, input).Some?
    ensures Eval(m, rank, m["root"].e.a).Some?
    ensures CheckRootEquality(m, rank, input).value.1 == Eval(m, rank, m["root"].e.a).value
  {
    OverrideUnreached(m, rank, m["root"].e.a, "humn", input);
    assert "root" != "humn";
  }
}
