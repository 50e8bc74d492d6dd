/** Day 5: supply stacks. Crates are moved between numbered stacks by
    instructions `move n from a to b`; the crane of part one moves them one
    at a time, the crane of part two moves a block of `n` at once. The
    answer is the crate on top of each stack. */
module SupplyStacks {
  import opened Util
  import opened Text

  /** Each stack lists its crates bottom first, so the top is the last. */
  type Stacks = seq<seq<char>>

  /** The starting stacks, written into the program. */
  const Initial: Stacks := [
    "DBJV", "PVBWRDF", "RGFLDCWQ", "WJPMLNDB", "HNBPCSQ",
    "RDBSNG", "ZBPMQFSH", "WLF", "SVFMR"]

  datatype Instruction = Instruction(count: int, from: int, to: int)

  /** `parse_instruction`: the second, fourth and sixth space-separated
      words as `i32`. The other words are not looked at. `None` when there
      are fewer than six words or a number does not parse. */
  function ParseInstruction(s: string): (r: Option<Instruction>)
    ensures r.Some? ==> |SplitChar(s, ' ')| >= 6
    ensures r.Some? ==> var w := SplitChar(s, ' ');
      ParseI32(w[1]) == Some(r.value.count) && ParseI32(w[3]) == Some(r.value.from) &&
      ParseI32(w[5]) == Some(r.value.to)
  {
    var w := SplitChar(s, ' ');
    if |w| < 6 then None
    else match (ParseI32(w[1]), ParseI32(w[3]), ParseI32(w[5]))
      case (Some(n), Some(a), Some(b)) => Some(Instruction(n, a, b))
      case _ => None
  }

  /** The words of `move n from a to b` are read back as the instruction. */
  lemma ParseInstructionOf(n: nat, a: nat, b: nat)
    requires n <= I32_MAX && a <= I32_MAX && b <= I32_MAX
    ensures ParseInstruction(RenderInstruction(Instruction(n, a, b))) == Some(Instruction(n, a, b))
  {
    var words := Words(Instruction(n, a, b));
    IntToStringChars(n);
    IntToStringChars(a);
    IntToStringChars(b);
    forall i, j | 0 <= i < |words| && 0 <= j < |words[i]| ensures words[i][j] != ' ' {
    }
    SplitJoinChar(words, ' ');
    ParseIntToString(n, I32_MIN, I32_MAX);
    ParseIntToString(a, I32_MIN, I32_MAX);
    ParseIntToString(b, I32_MIN, I32_MAX);
  }

  function Words(ins: Instruction): seq<string>
  {
    ["move", IntToString(ins.count), "from", IntToString(ins.from), "to", IntToString(ins.to)]
  }

  /** `move n from a to b`. */
  function RenderInstruction(ins: Instruction): string
  {
    Join(Words(ins), " ")
  }

  /** A stack number names a stack: `stacks[k as usize - 1]` panics
      otherwise. */
  predicate Names(stacks: Stacks, k: int)
  {
    1 <= k <= |stacks|
  }

  // ------------------------------------------------------------ part one

  /** One pop from `from` and one push onto `to`; `None` for a bad stack
      number or a pop from an empty stack. */
  function Step(stacks: Stacks, from: int, to: int): (r: Option<Stacks>)
    ensures r.Some? ==> |r.value| == |stacks|
  {
    if !Names(stacks, from) || |stacks[from - 1]| == 0 then None
    else
      var src := stacks[from - 1];
      var popped := stacks[from - 1 := src[..|src| - 1]];
      if !Names(popped, to) then None
      else Some(popped[to - 1 := popped[to - 1] + [src[|src| - 1]]])
  }

  /** The part one crane: `count` single steps (none when `count <= 0`). */
  function MoveOne(stacks: Stacks, count: int, from: int, to: int): (r: Option<Stacks>)
    ensures r.Some? ==> |r.value| == |stacks|
    decreases count
  {
    if count <= 0 then Some(stacks)
    else match Step(stacks, from, to)
      case None => None
      case Some(next) => MoveOne(next, count - 1, from, to)
  }

  function Reverse(s: seq<char>): (r: seq<char>)
    ensures |r| == |s|
  {
    if |s| == 0 then [] else [s[|s| - 1]] + Reverse(s[..|s| - 1])
  }

  lemma {:induction false} ReverseAt(s: seq<char>)
    ensures forall i :: 0 <= i < |s| ==> Reverse(s)[i] == s[|s| - 1 - i]
  {
    if |s| > 0 {
      ReverseAt(s[..|s| - 1]);
    }
  }

  /** The top `n` crates of a stack, bottom first. */
  function Top(s: seq<char>, n: nat): seq<char>
    requires n <= |s|
  {
    s[|s| - n..]
  }

  /** A stack without its top `n` crates. */
  function Below(s: seq<char>, n: nat): seq<char>
    requires n <= |s|
  {
    s[..|s| - n]
  }

  /** Taking one crate off the top leaves `count - 1` to take. */
  lemma TopStep(src: seq<char>, count: nat)
    requires 0 < count <= |src|
    ensures Below(src[..|src| - 1], count - 1) == Below(src, count)
    ensures Reverse(Top(src, count)) == [src[|src| - 1]] + Reverse(Top(src[..|src| - 1], count - 1))
  {
    var top := Top(src, count);
    assert Top(src[..|src| - 1], count - 1) == top[..count - 1];
    assert top[count - 1] == src[|src| - 1];
  }

  /** Moving no crates takes nothing off a stack. */
  lemma NoneMoved(s: seq<char>)
    ensures Below(s, 0) == s && Reverse(Top(s, 0)) == []
  {
    assert Top(s, 0) == [];
  }

  /** Overwriting the two entries two lists differ at makes them equal. */
  lemma UpdateAbsorb(stacks: Stacks, next: Stacks, a: nat, b: nat, x: seq<char>, y: seq<char>)
    requires a < |stacks| && b < |stacks| && |next| == |stacks|
    requires forall i :: 0 <= i < |stacks| && i != a && i != b ==> next[i] == stacks[i]
    ensures next[a := x][b := y] == stacks[a := x][b := y]
  {
    var l := next[a := x][b := y];
    var r := stacks[a := x][b := y];
    assert forall i :: 0 <= i < |stacks| ==> l[i] == r[i];
  }

  /** One step between two different stacks moves the top crate. */
  lemma StepMoves(stacks: Stacks, from: int, to: int) returns (next: Stacks)
    requires Names(stacks, from) && Names(stacks, to) && from != to && |stacks[from - 1]| > 0
    ensures Step(stacks, from, to) == Some(next)
    ensures |next| == |stacks|
    ensures next[from - 1] == stacks[from - 1][..|stacks[from - 1]| - 1]
    ensures next[to - 1] == stacks[to - 1] + [stacks[from - 1][|stacks[from - 1]| - 1]]
    ensures forall i :: 0 <= i < |stacks| && i != from - 1 && i != to - 1 ==> next[i] == stacks[i]
  {
    var src := stacks[from - 1];
    next := stacks[from - 1 := src[..|src| - 1]][to - 1 := stacks[to - 1] + [src[|src| - 1]]];
  }

  /** Overwriting the one entry two lists differ at makes them equal. */
  lemma UpdateAbsorb1(stacks: Stacks, next: Stacks, a: nat, x: seq<char>)
    requires a < |stacks| && |next| == |stacks|
    requires forall i :: 0 <= i < |stacks| && i != a ==> next[i] == stacks[i]
    ensures next[a := x] == stacks[a := x]
  {
    var l := next[a := x];
    var r := stacks[a := x];
    assert forall i :: 0 <= i < |stacks| ==> l[i] == r[i];
  }

  /** One crate moved and then `count - 1` more, described as a whole,
      is `count` crates moved. */
  lemma StepThenRest(stacks: Stacks, next: Stacks, count: nat, a: nat, b: nat)
    requires a < |stacks| && b < |stacks| && a != b && 0 < count <= |stacks[a]|
    requires |next| == |stacks|
    requires next[a] == stacks[a][..|stacks[a]| - 1]
    requires next[b] == stacks[b] + [stacks[a][|stacks[a]| - 1]]
    requires forall i :: 0 <= i < |stacks| && i != a && i != b ==> next[i] == stacks[i]
    ensures next[a := Below(next[a], count - 1)][b := next[b] + Reverse(Top(next[a], count - 1))] ==
      stacks[a := Below(stacks[a], count)][b := stacks[b] + Reverse(Top(stacks[a], count))]
  {
    var src := stacks[a];
    TopStep(src, count);
    var t := stacks[b] + Reverse(Top(src, count));
    assert next[b] + Reverse(Top(next[a], count - 1)) == t;
    UpdateAbsorb(stacks, next, a, b, Below(src, count), t);
  }

  /** Between two different stacks, the part one crane takes the top
      `count` crates off `from` and puts them on `to` in reverse order;
      every other stack keeps its crates. */
  lemma {:induction false} MoveOneMoves(stacks: Stacks, count: nat, from: int, to: int)
    requires Names(stacks, from) && Names(stacks, to) && from != to
    requires count <= |stacks[from - 1]|
    ensures MoveOne(stacks, count, from, to) == Some(stacks
      [from - 1 := Below(stacks[from - 1], count)]
      [to - 1 := stacks[to - 1] + Reverse(Top(stacks[from - 1], count))])
    decreases count
  {
    if count > 0 {
      var next := StepMoves(stacks, from, to);
      MoveOneMoves(next, count - 1, from, to);
      StepThenRest(stacks, next, count, from - 1, to - 1);
    } else {
      NoneMoved(stacks[from - 1]);
      assert stacks[to - 1] + [] == stacks[to - 1];
      assert stacks[from - 1 := stacks[from - 1]] == stacks;
      assert stacks[to - 1 := stacks[to - 1]] == stacks;
    }
  }

  /** Moving crates from a stack onto itself changes nothing. */
  lemma {:induction false} MoveOneSameStack(stacks: Stacks, count: nat, k: int)
    requires Names(stacks, k) && 0 < |stacks[k - 1]|
    ensures MoveOne(stacks, count, k, k) == Some(stacks)
    decreases count
  {
    if count > 0 {
      var s := stacks[k - 1];
      assert s[..|s| - 1] + [s[|s| - 1]] == s;
      var popped := stacks[k - 1 := s[..|s| - 1]];
      assert popped[k - 1 := s] == stacks;
      assert Step(stacks, k, k) == Some(stacks);
      MoveOneSameStack(stacks, count - 1, k);
    }
  }

  /** A move that needs more crates than `from` holds panics. */
  lemma {:induction false} MoveOneTooMany(stacks: Stacks, count: int, from: int, to: int)
    requires Names(stacks, from) && from != to
    requires count > |stacks[from - 1]|
    ensures MoveOne(stacks, count, from, to).None?
    decreases count
  {
    match Step(stacks, from, to)
    case None =>
    case Some(next) =>
      assert |next[from - 1]| == |stacks[from - 1]| - 1;
      MoveOneTooMany(next, count - 1, from, to);
  }

  // ------------------------------------------------------------ part two

  /** The first loop of the part two crane: `count` pops from `from`,
      appended to `held` in the order they come off. */
  function PopInto(stacks: Stacks, count: int, from: int, held: seq<char>): (r: Option<(Stacks, seq<char>)>)
    ensures r.Some? ==> |r.value.0| == |stacks|
    decreases count
  {
    if count <= 0 then Some((stacks, held))
    else if !Names(stacks, from) || |stacks[from - 1]| == 0 then None
    else
      var src := stacks[from - 1];
      PopInto(stacks[from - 1 := src[..|src| - 1]], count - 1, from, held + [src[|src| - 1]])
  }

  /** The second loop: `count` pops from `held`, each pushed onto `to`. */
  function PushFrom(stacks: Stacks, count: int, to: int, held: seq<char>): (r: Option<Stacks>)
    ensures r.Some? ==> |r.value| == |stacks|
    decreases count
  {
    if count <= 0 then Some(stacks)
    else if |held| == 0 || !Names(stacks, to) then None
    else
      PushFrom(stacks[to - 1 := stacks[to - 1] + [held[|held| - 1]]], count - 1, to, held[..|held| - 1])
  }

  /** The part two crane. */
  function MoveBlock(stacks: Stacks, count: int, from: int, to: int): (r: Option<Stacks>)
    ensures r.Some? ==> |r.value| == |stacks|
  {
    match PopInto(stacks, count, from, [])
    case None => None
    case Some((popped, held)) => PushFrom(popped, count, to, held)
  }

  /** One crate popped and then `count - 1` more, described as a whole,
      is `count` crates popped. */
  lemma PopThenRest(stacks: Stacks, next: Stacks, count: nat, a: nat, held: seq<char>)
    requires a < |stacks| && 0 < count <= |stacks[a]|
    requires next == stacks[a := stacks[a][..|stacks[a]| - 1]]
    ensures next[a := Below(next[a], count - 1)] == stacks[a := Below(stacks[a], count)]
    ensures held + [stacks[a][|stacks[a]| - 1]] + Reverse(Top(next[a], count - 1)) ==
      held + Reverse(Top(stacks[a], count))
  {
    var src := stacks[a];
    TopStep(src, count);
    UpdateAbsorb1(stacks, next, a, Below(src, count));
  }

  lemma {:induction false} PopIntoTakes(stacks: Stacks, count: nat, from: int, held: seq<char>)
    requires Names(stacks, from) && count <= |stacks[from - 1]|
    ensures PopInto(stacks, count, from, held) ==
      Some((stacks[from - 1 := Below(stacks[from - 1], count)], held + Reverse(Top(stacks[from - 1], count))))
    decreases count
  {
    if count > 0 {
      var src := stacks[from - 1];
      var next := stacks[from - 1 := src[..|src| - 1]];
      assert PopInto(stacks, count, from, held) == PopInto(next, count - 1, from, held + [src[|src| - 1]]);
      PopIntoTakes(next, count - 1, from, held + [src[|src| - 1]]);
      PopThenRest(stacks, next, count, from - 1, held);
    } else {
      NoneMoved(stacks[from - 1]);
      assert held + [] == held;
      assert stacks[from - 1 := stacks[from - 1]] == stacks;
    }
  }

  lemma {:induction false} PushFromPuts(stacks: Stacks, count: nat, to: int, held: seq<char>)
    requires Names(stacks, to) && count <= |held|
    ensures PushFrom(stacks, count, to, held) ==
      Some(stacks[to - 1 := stacks[to - 1] + Reverse(Top(held, count))])
    decreases count
  {
    if count > 0 {
      var c := held[|held| - 1];
      var next := stacks[to - 1 := stacks[to - 1] + [c]];
      assert PushFrom(stacks, count, to, held) == PushFrom(next, count - 1, to, held[..|held| - 1]);
      PushFromPuts(next, count - 1, to, held[..|held| - 1]);
      assert next[to - 1] == stacks[to - 1] + [c];
      TopStep(held, count);
      var t := stacks[to - 1] + Reverse(Top(held, count));
      assert next[to - 1] + Reverse(Top(held[..|held| - 1], count - 1)) == t;
      UpdateAbsorb1(stacks, next, to - 1, t);
    } else {
      NoneMoved(held);
      assert stacks[to - 1] + [] == stacks[to - 1];
      assert stacks[to - 1 := stacks[to - 1]] == stacks;
    }
  }

  lemma ReverseReverse(s: seq<char>)
    ensures Reverse(Reverse(s)) == s
  {
    ReverseAt(s);
    ReverseAt(Reverse(s));
  }

  /** Between two different stacks, the part two crane takes the top
      `count` crates off `from` and puts them on `to` in the same order. */
  lemma MoveBlockMoves(stacks: Stacks, count: nat, from: int, to: int)
    requires Names(stacks, from) && Names(stacks, to) && from != to
    requires count <= |stacks[from - 1]|
    ensures MoveBlock(stacks, count, from, to) == Some(stacks
      [from - 1 := Below(stacks[from - 1], count)]
      [to - 1 := stacks[to - 1] + Top(stacks[from - 1], count)])
  {
    var top := Top(stacks[from - 1], count);
    PopIntoTakes(stacks, count, from, []);
    assert [] + Reverse(top) == Reverse(top);
    var popped := stacks[from - 1 := Below(stacks[from - 1], count)];
    PushFromPuts(popped, count, to, Reverse(top));
    assert Top(Reverse(top), count) == Reverse(top);
    ReverseReverse(top);
  }

  /** Moving a block from a stack onto itself changes nothing. */
  lemma MoveBlockSameStack(stacks: Stacks, count: nat, k: int)
    requires Names(stacks, k) && count <= |stacks[k - 1]|
    ensures MoveBlock(stacks, count, k, k) == Some(stacks)
  {
    var src := stacks[k - 1];
    var top := Top(src, count);
    PopIntoTakes(stacks, count, k, []);
    assert [] + Reverse(top) == Reverse(top);
    var popped := stacks[k - 1 := Below(src, count)];
    PushFromPuts(popped, count, k, Reverse(top));
    assert Top(Reverse(top), count) == Reverse(top);
    ReverseReverse(top);
    assert Below(src, count) + top == src;
    assert popped[k - 1 := src] == stacks;
  }

  /** The first loop only succeeds when `from` holds enough crates. */
  lemma {:induction false} PopIntoNeeds(stacks: Stacks, count: int, from: int, held: seq<char>)
    requires count > 0 && PopInto(stacks, count, from, held).Some?
    ensures Names(stacks, from) && count <= |stacks[from - 1]|
    decreases count
  {
    if count > 1 {
      var src := stacks[from - 1];
      PopIntoNeeds(stacks[from - 1 := src[..|src| - 1]], count - 1, from, held + [src[|src| - 1]]);
    }
  }

  /** A successful part two move keeps every crate. */
  lemma MoveBlockKeepsCrates(stacks: Stacks, count: int, from: int, to: int)
    requires MoveBlock(stacks, count, from, to).Some?
    ensures Crates(MoveBlock(stacks, count, from, to).value) == Crates(stacks)
  {
    if count > 0 {
      PopIntoNeeds(stacks, count, from, []);
      var popped := PopInto(stacks, count, from, []).value.0;
      assert Names(popped, to);
      if from == to {
        MoveBlockSameStack(stacks, count, from);
      } else {
        MoveBlockMoves(stacks, count, from, to);
        MoveKeepsCrates(stacks, count, from - 1, to - 1, Top(stacks[from - 1], count));
      }
    }
  }

  // ------------------------------------------------------------ the process

  /** All crates, as a multiset. */
  function Crates(stacks: Stacks): multiset<char>
  {
    if |stacks| == 0 then multiset{} else Crates(stacks[..|stacks| - 1]) + multiset(stacks[|stacks| - 1])
  }

  lemma {:induction false} CratesAppend(a: Stacks, b: Stacks)
    ensures Crates(a + b) == Crates(a) + Crates(b)
    decreases |b|
  {
    if |b| == 0 {
      assert a + b == a;
    } else {
      assert (a + b)[..|a + b| - 1] == a + b[..|b| - 1];
      CratesAppend(a, b[..|b| - 1]);
    }
  }

  lemma CratesUpdate(stacks: Stacks, k: nat, s: seq<char>)
    requires k < |stacks|
    ensures Crates(stacks[k := s]) + multiset(stacks[k]) == Crates(stacks) + multiset(s)
  {
    var pre := stacks[..k];
    var post := stacks[k + 1..];
    assert stacks == pre + [stacks[k]] + post;
    assert stacks[k := s] == pre + [s] + post;
    CratesAppend(pre + [stacks[k]], post);
    CratesAppend(pre, [stacks[k]]);
    CratesAppend(pre + [s], post);
    CratesAppend(pre, [s]);
    assert Crates([s]) == multiset(s) by { assert [s][..0] == []; }
    assert Crates([stacks[k]]) == multiset(stacks[k]) by { assert [stacks[k]][..0] == []; }
  }

  /** A successful step moves one crate and loses none. */
  lemma StepKeepsCrates(stacks: Stacks, from: int, to: int)
    requires Step(stacks, from, to).Some?
    ensures Crates(Step(stacks, from, to).value) == Crates(stacks)
  {
    var src := stacks[from - 1];
    var popped := stacks[from - 1 := src[..|src| - 1]];
    var result := popped[to - 1 := popped[to - 1] + [src[|src| - 1]]];
    assert Step(stacks, from, to) == Some(result);
    PopPushKeepsCrates(stacks, from - 1, to - 1, popped, result);
  }

  lemma PopPushKeepsCrates(stacks: Stacks, a: nat, b: nat, popped: Stacks, result: Stacks)
    requires a < |stacks| && b < |stacks| && |stacks[a]| > 0
    requires popped == stacks[a := stacks[a][..|stacks[a]| - 1]]
    requires result == popped[b := popped[b] + [stacks[a][|stacks[a]| - 1]]]
    ensures Crates(result) == Crates(stacks)
  {
    var src := stacks[a];
    var c := src[|src| - 1];
    var rest := src[..|src| - 1];
    assert src == rest + [c];
    var dst := popped[b];
    CratesUpdate(stacks, a, rest);
    CratesUpdate(popped, b, dst + [c]);
    assert multiset(src) == multiset(rest) + multiset{c};
    assert multiset(dst + [c]) == multiset(dst) + multiset{c};
    forall q ensures Crates(result)[q] == Crates(stacks)[q] {
      assert (Crates(popped) + multiset(src))[q] == (Crates(stacks) + multiset(rest))[q];
      assert (Crates(result) + multiset(dst))[q] == (Crates(popped) + multiset(dst + [c]))[q];
    }
  }

  /** Taking the top `count` crates off stack `a` and putting the same
      crates on stack `b` (in any order) keeps every crate. */
  lemma MoveKeepsCrates(stacks: Stacks, count: nat, a: nat, b: nat, put: seq<char>)
    requires a < |stacks| && b < |stacks| && a != b && count <= |stacks[a]|
    requires multiset(put) == multiset(Top(stacks[a], count))
    ensures Crates(stacks[a := Below(stacks[a], count)][b := stacks[b] + put]) == Crates(stacks)
  {
    var src := stacks[a];
    var low := Below(src, count);
    assert src == low + Top(src, count);
    var taken := stacks[a := low];
    var result := taken[b := stacks[b] + put];
    CratesUpdate(stacks, a, low);
    CratesUpdate(taken, b, stacks[b] + put);
    forall q ensures Crates(result)[q] == Crates(stacks)[q] {
      assert (Crates(taken) + multiset(src))[q] == (Crates(stacks) + multiset(low))[q];
      assert (Crates(result) + multiset(stacks[b]))[q] == (Crates(taken) + multiset(stacks[b] + put))[q];
    }
  }

  /** The part one crane never creates or destroys a crate. */
  lemma {:induction false} MoveOneKeepsCrates(stacks: Stacks, count: int, from: int, to: int)
    requires MoveOne(stacks, count, from, to).Some?
    ensures Crates(MoveOne(stacks, count, from, to).value) == Crates(stacks)
    decreases count
  {
    if count > 0 {
      StepKeepsCrates(stacks, from, to);
      MoveOneKeepsCrates(Step(stacks, from, to).value, count - 1, from, to);
    }
  }

  /** Runs every instruction with one of the cranes; `None` as soon as an
      instruction panics. */
  function Run(stacks: Stacks, program: seq<Instruction>, block: bool): (r: Option<Stacks>)
    ensures r.Some? ==> |r.value| == |stacks|
    decreases |program|
  {
    if |program| == 0 then Some(stacks)
    else
      var ins := program[0];
      var moved := if block then MoveBlock(stacks, ins.count, ins.from, ins.to)
                   else MoveOne(stacks, ins.count, ins.from, ins.to);
      match moved
      case None => None
      case Some(next) => Run(next, program[1..], block)
  }

  /** Running either crane over a whole program keeps every crate. */
  lemma {:induction false} RunKeepsCrates(stacks: Stacks, program: seq<Instruction>, block: bool)
    requires Run(stacks, program, block).Some?
    ensures Crates(Run(stacks, program, block).value) == Crates(stacks)
    decreases |program|
  {
    if |program| > 0 {
      var ins := program[0];
      if block {
        MoveBlockKeepsCrates(stacks, ins.count, ins.from, ins.to);
        RunKeepsCrates(MoveBlock(stacks, ins.count, ins.from, ins.to).value, program[1..], block);
      } else {
        MoveOneKeepsCrates(stacks, ins.count, ins.from, ins.to);
        RunKeepsCrates(MoveOne(stacks, ins.count, ins.from, ins.to).value, program[1..], block);
      }
    }
  }

  /** The answer: the top crate of every stack, `None` when one is empty
      (`last().unwrap()`). */
  function Tops(stacks: Stacks): (r: Option<string>)
    ensures r.Some? <==> forall i :: 0 <= i < |stacks| ==> |stacks[i]| > 0
    ensures r.Some? ==> |r.value| == |stacks|
    ensures r.Some? ==> forall i :: 0 <= i < |stacks| ==> r.value[i] == stacks[i][|stacks[i]| - 1]
  {
    if forall i :: 0 <= i < |stacks| ==> |stacks[i]| > 0 then
      Some(seq(|stacks|, i requires 0 <= i < |stacks| => stacks[i][|stacks[i]| - 1]))
    else None
  }
}
