/** Day 13 packet parser: `get_next_packet_string` cuts the text of one
    bracketed list off the front of a string, `parse_inner` walks a string
    collecting packets (recursing into each nested list and skipping the
    text it used), and `parse_packet` unwraps a single result. Parsing
    what the `Debug` rendering prints gives the packet back. */
module PacketParse {
  import opened Util
  import opened Text
  import opened Packets

  // ------------------------------------------------ get_next_packet_string

  /** How one character moves the bracket depth. */
  function DepthStep(c: char): int
  {
    if c == '[' then 1 else if c == ']' then -1 else 0
  }

  /** The depth counter after reading the first `j` characters of `s`,
      starting from 1. */
  function Depth(s: string, j: nat): int
    requires j <= |s|
  {
    if j == 0 then 1 else Depth(s, j - 1) + DepthStep(s[j - 1])
  }

  /** The loop of `get_next_packet_string` at character `i` with depth
      counter `n`: the characters are collected until a `]` brings the
      counter to 0, or the string ends. */
  function NextFrom(s: string, i: nat, n: int): (r: string)
    requires i <= |s|
    ensures |r| <= |s|
    decreases |s| - i
  {
    if i == |s| then s
    else
      var m := n + DepthStep(s[i]);
      if s[i] == ']' && m == 0 then s[..i + 1]
      else NextFrom(s, i + 1, m)
  }

  /** `get_next_packet_string`. */
  function NextPacketString(s: string): (r: string)
    ensures |r| <= |s|
  {
    NextFrom(s, 0, 1)
  }

  /** The loop collects a prefix of its input. */
  lemma {:induction false} NextFromPrefix(s: string, i: nat, n: int)
    requires i <= |s|
    ensures NextFrom(s, i, n) == s[..|NextFrom(s, i, n)|]
    decreases |s| - i
  {
    if i == |s| {
      assert s[..|s|] == s;
    } else if !(s[i] == ']' && n + DepthStep(s[i]) == 0) {
      NextFromPrefix(s, i + 1, n + DepthStep(s[i]));
    }
  }

  /** The loop keeps its counter equal to the depth, and stops exactly at
      the first point where the depth is 0. */
  lemma {:induction false} NextFromSpec(s: string, i: nat, n: int)
    requires i <= |s| && n == Depth(s, i) && n >= 1
    requires forall j :: 0 < j <= i ==> Depth(s, j) >= 1
    ensures var r := NextFrom(s, i, n);
      (forall j :: 0 < j < |r| ==> Depth(s, j) >= 1) &&
      (r == s || (|r| > 0 && Depth(s, |r|) == 0 && r[|r| - 1] == ']'))
    decreases |s| - i
  {
    if i < |s| {
      var m := n + DepthStep(s[i]);
      if !(s[i] == ']' && m == 0) {
        NextFromSpec(s, i + 1, m);
      }
    }
  }

  /** `get_next_packet_string` returns the shortest prefix at which the
      depth, starting at 1, falls to 0 (ending with that `]`), or the
      whole string when the depth never falls to 0. */
  lemma NextPacketStringSpec(s: string)
    ensures var r := NextPacketString(s);
      r == s[..|r|] &&
      (forall j :: 0 < j < |r| ==> Depth(s, j) >= 1) &&
      (r == s || (|r| > 0 && Depth(s, |r|) == 0 && r[|r| - 1] == ']'))
  {
    NextFromSpec(s, 0, 1);
    NextFromPrefix(s, 0, 1);
  }

  // ------------------------------------------------------------ parse_inner

  /** The integers of a run of plain characters: the run is split at
      commas, each piece parsed as an `i32`, pieces that do not parse are
      dropped. */
  function Trailing(str: string): seq<Packet>
  {
    IntsOf(SplitChar(str, ','))
  }

  function IntsOf(pieces: seq<string>): seq<Packet>
  {
    if |pieces| == 0 then []
    else
      (match ParseI32(pieces[0]) case Some(v) => [Int(v)] case None => [])
      + IntsOf(pieces[1..])
  }

  /** The end of `parse_inner`: a pending run contributes its integers. */
  function Finish(count: nat, p: seq<Packet>, str: string): (nat, seq<Packet>)
  {
    (count, if |str| > 0 then p + Trailing(str) else p)
  }

  /** `parse_inner`: the number of characters it counts (which can exceed
      the length by one after a closing nested list) and the packets. */
  function ParseInner(s: string): (nat, seq<Packet>)
    decreases |s|, 1, 0, 0
  {
    ParseLoop(s, 0, [], [])
  }

  /** The `while let` loop of `parse_inner` at character `pos` (the loop's
      `count`), with packets `p` so far and the pending run `str`: `[`
      starts a nested list, `]` is ignored, `,` flushes the pending run,
      and any other character extends the run. */
  function ParseLoop(s: string, pos: nat, p: seq<Packet>, str: string): (nat, seq<Packet>)
    requires pos <= |s| && |str| <= pos
    decreases |s|, 0, |s| - pos, 1
  {
    if pos == |s| then Finish(pos, p, str)
    else
      var c := s[pos];
      if c == '[' then ParseNested(s, pos, p)
      else if c == ']' then ParseLoop(s, pos + 1, p, str)
      else if c == ',' then
        ParseLoop(s, pos + 1, if |str| > 0 then p + ParseInner(str).1 else p, [])
      else ParseLoop(s, pos + 1, p, str + [c])
  }

  /** The `[` arm of the loop: the rest of the string is cut by
      `get_next_packet_string`, parsed recursively into one list, and the
      characters it used plus one more are skipped. The pending run is
      dropped (after a nested list the source resets it). */
  function ParseNested(s: string, pos: nat, p: seq<Packet>): (nat, seq<Packet>)
    requires pos < |s|
    decreases |s|, 0, |s| - pos, 0
  {
    var nested := NextPacketString(s[pos + 1..]);
    var inner := ParseInner(nested);
    var next := pos + 1 + inner.0 + 1;
    if next >= |s| then Finish(next, p + [List(inner.1)], [])
    else ParseLoop(s, next, p + [List(inner.1)], [])
  }

  /** `parse_packet`: a single parsed packet is returned as it is, several
      are wrapped in a list; `None` where the source panics on an empty
      result. */
  function ParsePacket(s: string): (r: Option<Packet>)
    ensures r.Some? <==> |ParseInner(s).1| > 0
  {
    var p := ParseInner(s).1;
    if |p| > 1 then Some(List(p))
    else if |p| == 1 then Some(p[0])
    else None
  }

  /** A single parsed packet comes back unwrapped; two or more come back
      as the list of them, in order. */
  lemma ParsePacketWraps(s: string)
    ensures |ParseInner(s).1| == 1 ==> ParsePacket(s) == Some(ParseInner(s).1[0])
    ensures |ParseInner(s).1| > 1 ==> ParsePacket(s) == Some(List(ParseInner(s).1))
  {
  }

  // ------------------------------------------------------------ round trip

  /** No bracket and no comma. */
  predicate Plain(w: string)
  {
    forall i :: 0 <= i < |w| ==> w[i] != '[' && w[i] != ']' && w[i] != ','
  }

  lemma IntPlain(x: int)
    ensures |IntToString(x)| > 0 && Plain(IntToString(x))
  {
    IntToStringChars(x);
  }

  /** A plain run of digits comma-free parses to the one integer it
      renders. */
  lemma TrailingInt(x: int)
    requires InI32(x)
    ensures Trailing(IntToString(x)) == [Int(x)]
  {
    var w := IntToString(x);
    IntPlain(x);
    SplitCharAbsent(w, ',');
    ParseIntToString(x, I32_MIN, I32_MAX);
    assert ParseI32(w) == Some(x);
    assert IntsOf([w][1..]) == [];
    assert IntsOf([w]) == [Int(x)];
  }

  /** The bracket balance of the first `j` characters of `w`. */
  function Bal(w: string, j: nat): int
    requires j <= |w|
  {
    if j == 0 then 0 else Bal(w, j - 1) + DepthStep(w[j - 1])
  }

  /** Every prefix has at least as many `[` as `]`, and the whole has as
      many of each. */
  ghost predicate Balanced(w: string)
  {
    Bal(w, |w|) == 0 && forall j :: 0 <= j <= |w| ==> Bal(w, j) >= 0
  }

  /** The balance of a concatenation. */
  lemma {:induction false} BalConcat(a: string, b: string, j: nat)
    requires j <= |a| + |b|
    ensures Bal(a + b, j) == if j <= |a| then Bal(a, j) else Bal(a, |a|) + Bal(b, j - |a|)
  {
    if j > 0 {
      BalConcat(a, b, j - 1);
      if j <= |a| {
        assert (a + b)[j - 1] == a[j - 1];
      } else {
        assert (a + b)[j - 1] == b[j - 1 - |a|];
      }
    }
  }

  lemma BalancedConcat(a: string, b: string)
    requires Balanced(a) && Balanced(b)
    ensures Balanced(a + b)
  {
    forall j | 0 <= j <= |a + b| ensures Bal(a + b, j) >= 0 {
      BalConcat(a, b, j);
    }
    BalConcat(a, b, |a + b|);
  }

  lemma {:induction false} PlainBal(w: string, j: nat)
    requires Plain(w) && j <= |w|
    ensures Bal(w, j) == 0
  {
    if j > 0 {
      PlainBal(w, j - 1);
    }
  }

  lemma PlainBalanced(w: string)
    requires Plain(w)
    ensures Balanced(w)
  {
    forall j | 0 <= j <= |w| ensures Bal(w, j) == 0 {
      PlainBal(w, j);
    }
  }

  lemma CommaBalanced()
    ensures Balanced(",")
  {
    assert Bal(",", 1) == Bal(",", 0) + DepthStep(',');
  }

  /** Brackets around a balanced text keep it balanced. */
  lemma BalancedWrap(b: string)
    requires Balanced(b)
    ensures Balanced("[" + b + "]")
  {
    var o := "[" + b;
    forall j | 0 <= j <= |o| ensures Bal(o, j) == if j == 0 then 0 else 1 + Bal(b, j - 1) {
      BalConcat("[", b, j);
    }
    forall j | 0 <= j <= |o + "]"| ensures Bal(o + "]", j) >= 0 {
      BalConcat(o, "]", j);
    }
    BalConcat(o, "]", |o| + 1);
  }

  /** Every rendering is balanced. */
  lemma {:induction false} ShowBalanced(p: Packet)
    ensures Balanced(Show(p))
    decreases Size(p), 1
  {
    match p
    case Int(x) =>
      IntPlain(x);
      PlainBalanced(Show(p));
    case List(xs) =>
      ShowAllBalanced(xs);
      BalancedWrap(ShowAll(xs));
  }

  lemma {:induction false} ShowAllBalanced(xs: seq<Packet>)
    ensures Balanced(ShowAll(xs))
    decreases SizeAll(xs), 2
  {
    if |xs| == 0 {
    } else if |xs| == 1 {
      ShowBalanced(xs[0]);
    } else {
      ShowBalanced(xs[0]);
      ShowAllBalanced(xs[1..]);
      CommaBalanced();
      BalancedConcat(Show(xs[0]), ",");
      BalancedConcat(Show(xs[0]) + ",", ShowAll(xs[1..]));
    }
  }

  /** Reading the first `j` characters of a text whose prefixes never have
      more `]` than `[` moves the counter by their balance. */
  lemma {:induction false} NextSkipsPrefix(s: string, i: nat, n: int, w: string, j: nat)
    requires i + |w| <= |s| && s[i..i + |w|] == w && n >= 1 && j <= |w|
    requires forall k :: 0 <= k <= |w| ==> Bal(w, k) >= 0
    ensures NextFrom(s, i, n) == NextFrom(s, i + j, n + Bal(w, j))
  {
    if j > 0 {
      NextSkipsPrefix(s, i, n, w, j - 1);
      assert s[i + j - 1] == w[j - 1];
      assert Bal(w, j) >= 0;
    }
  }

  /** A balanced text leaves the counter as it was. */
  lemma NextSkipsBalanced(s: string, i: nat, n: int, w: string)
    requires i + |w| <= |s| && s[i..i + |w|] == w && n >= 1 && Balanced(w)
    ensures NextFrom(s, i, n) == NextFrom(s, i + |w|, n)
  {
    NextSkipsPrefix(s, i, n, w, |w|);
  }

  /** The text of a nested list followed by anything is cut just after
      the list's closing bracket. */
  lemma NextPacketOfShowAll(xs: seq<Packet>, rest: string)
    ensures NextPacketString(ShowAll(xs) + "]" + rest) == ShowAll(xs) + "]"
  {
    var s := ShowAll(xs) + "]" + rest;
    var k := |ShowAll(xs)|;
    assert s[0..k] == ShowAll(xs);
    ShowAllBalanced(xs);
    NextSkipsBalanced(s, 0, 1, ShowAll(xs));
    assert s[k] == ']';
    assert s[..k + 1] == ShowAll(xs) + "]";
  }

  /** Plain characters only extend the pending run. */
  lemma {:induction false} ParseSkipsPlain(s: string, pos: nat, p: seq<Packet>, str: string, w: string)
    requires pos + |w| <= |s| && s[pos..pos + |w|] == w && Plain(w) && |str| <= pos
    ensures ParseLoop(s, pos, p, str) == ParseLoop(s, pos + |w|, p, str + w)
    decreases |w|
  {
    if |w| > 0 {
      assert s[pos] == w[0];
      assert s[pos + 1..pos + 1 + |w[1..]|] == w[1..];
      ParseSkipsPlain(s, pos + 1, p, str + [w[0]], w[1..]);
      assert str + [w[0]] + w[1..] == str + w;
    } else {
      assert str + w == str;
    }
  }

  /** A rendered integer parses to itself, counting all its characters. */
  lemma ParseInnerInt(x: int)
    requires InI32(x)
    ensures ParseInner(IntToString(x)) == (|IntToString(x)|, [Int(x)])
  {
    var w := IntToString(x);
    IntPlain(x);
    assert w[0..|w|] == w;
    ParseSkipsPlain(w, 0, [], [], w);
    assert [] + w == w;
    TrailingInt(x);
    assert ParseLoop(w, |w|, [], w) == Finish(|w|, [], w) == (|w|, [] + [Int(x)]);
    assert [] + [Int(x)] == [Int(x)];
  }

  ghost predicate WellTypedAll(xs: seq<Packet>)
  {
    forall i :: 0 <= i < |xs| ==> WellTyped(xs[i])
  }

  /** The rendering of a one-element list is that element's. */
  lemma ShowAllOne(xs: seq<Packet>)
    requires |xs| == 1
    ensures ShowAll(xs) + "]" == Show(xs[0]) + "]"
  {
  }

  /** The rendering of a longer list is its first element, a comma, and
      the rendering of the others. */
  lemma ShowAllMore(xs: seq<Packet>)
    requires |xs| > 1
    ensures ShowAll(xs) + "]" == Show(xs[0]) + ([','] + (ShowAll(xs[1..]) + "]"))
  {
    assert ShowAll(xs) == Show(xs[0]) + "," + ShowAll(xs[1..]);
    Assoc4(Show(xs[0]), [','], ShowAll(xs[1..]), "]");
  }

  /** The elements of a rendered list followed by its closing bracket, at
      the end of the string, are parsed in order and counted exactly. */
  lemma {:induction false} ParseItems(s: string, pos: nat, p: seq<Packet>, xs: seq<Packet>)
    requires WellTypedAll(xs)
    requires pos <= |s| && s[pos..] == ShowAll(xs) + "]"
    ensures ParseLoop(s, pos, p, []) == (|s|, p + xs)
    decreases SizeAll(xs), 1
  {
    if |xs| == 0 {
      SuffixHead(s, pos, ']', []);
      assert p + xs == p;
    } else {
      WellTypedSplit(xs);
      if |xs| == 1 {
        ShowAllOne(xs);
        ParseLast(s, pos, p, xs[0]);
        assert xs == [xs[0]];
      } else {
        ParseItemsMore(s, pos, p, xs);
      }
    }
  }

  /** `ParseItems` with at least two elements: the first is parsed, then
      the comma after it is passed, then the others. */
  lemma {:induction false} ParseItemsMore(s: string, pos: nat, p: seq<Packet>, xs: seq<Packet>)
    requires |xs| > 1 && WellTypedAll(xs)
    requires pos <= |s| && s[pos..] == ShowAll(xs) + "]"
    ensures ParseLoop(s, pos, p, []) == (|s|, p + xs)
    decreases SizeAll(xs), 0
  {
    var tail := ShowAll(xs[1..]) + "]";
    WellTypedSplit(xs);
    ShowAllMore(xs);
    var next := pos + |Show(xs[0])| + 1;
    ParseFirst(s, pos, p, xs[0], tail);
    ParseItems(s, next, p + [xs[0]], xs[1..]);
    assert p + [xs[0]] + xs[1..] == p + xs;
  }

  /** The first of several elements, integer or list, followed by its
      comma. */
  lemma {:induction false} ParseFirst(s: string, pos: nat, p: seq<Packet>, x: Packet, tail: string)
    requires WellTyped(x)
    requires pos <= |s| && s[pos..] == Show(x) + ([','] + tail)
    ensures pos + |Show(x)| + 1 <= |s| && s[pos + |Show(x)| + 1..] == tail
    ensures ParseLoop(s, pos, p, []) == ParseLoop(s, pos + |Show(x)| + 1, p + [x], [])
    decreases Size(x), 3
  {
    if x.Int? {
      ShowInt(x.n);
      PlainComma(s, pos, p, Show(x), tail);
    } else {
      ParseList(x.items);
      ParseListThen(s, pos, p, x.items, tail);
    }
  }

  /** The last element, integer or list, followed by the closing bracket
      that ends the string. */
  lemma {:induction false} ParseLast(s: string, pos: nat, p: seq<Packet>, x: Packet)
    requires WellTyped(x)
    requires pos <= |s| && s[pos..] == Show(x) + "]"
    ensures ParseLoop(s, pos, p, []) == (|s|, p + [x])
    decreases Size(x), 0
  {
    if x.Int? {
      ParseLastInt(s, pos, p, x.n);
    } else {
      ParseList(x.items);
      ParseListLast(s, pos, p, x.items);
    }
  }

  /** An integer that is the last element. */
  lemma ParseLastInt(s: string, pos: nat, p: seq<Packet>, x: int)
    requires InI32(x)
    requires pos <= |s| && s[pos..] == Show(Int(x)) + "]"
    ensures ParseLoop(s, pos, p, []) == (|s|, p + [Int(x)])
  {
    ShowInt(x);
    PlainLast(s, pos, p, Show(Int(x)));
  }

  /** The elements of a nested list, and the elements after the first,
      are well typed when the whole list is. */
  lemma WellTypedSplit(xs: seq<Packet>)
    requires |xs| > 0 && WellTypedAll(xs)
    ensures xs[0].List? ==> WellTypedAll(xs[0].items)
    ensures WellTyped(xs[0]) && WellTypedAll(xs[1..])
  {
    assert WellTyped(xs[0]);
  }

  /** A nested list that is the last element of the enclosing list. */
  lemma ParseListLast(s: string, pos: nat, p: seq<Packet>, ys: seq<Packet>)
    requires pos <= |s| && s[pos..] == Show(List(ys)) + "]"
    requires ParseInner(ShowAll(ys) + "]") == (|ShowAll(ys)| + 1, ys)
    ensures ParseLoop(s, pos, p, []) == (|s|, p + [List(ys)])
  {
    ShowListThen(ys, "]");
    NextPacketOfShowAll(ys, "]");
    OpenSkip(s, pos, p, ShowAll(ys), "]", ys);
  }

  /** A nested list followed by a comma and more elements. */
  lemma ParseListThen(s: string, pos: nat, p: seq<Packet>, ys: seq<Packet>, tail: string)
    requires pos <= |s| && s[pos..] == Show(List(ys)) + ([','] + tail)
    requires ParseInner(ShowAll(ys) + "]") == (|ShowAll(ys)| + 1, ys)
    ensures pos + |Show(List(ys))| + 1 <= |s| && s[pos + |Show(List(ys))| + 1..] == tail
    ensures ParseLoop(s, pos, p, []) == ParseLoop(s, pos + |Show(List(ys))| + 1, p + [List(ys)], [])
  {
    var rest := [','] + tail;
    ShowListThen(ys, rest);
    NextPacketOfShowAll(ys, rest);
    OpenSkipThen(s, pos, p, ShowAll(ys), tail, ys);
  }

  /** `OpenSkip` when a comma and more text follow the nested list. */
  lemma OpenSkipThen(s: string, pos: nat, p: seq<Packet>, body: string, tail: string, ys: seq<Packet>)
    requires pos <= |s| && s[pos..] == "[" + (body + ("]" + ([','] + tail)))
    requires NextPacketString(body + "]" + ([','] + tail)) == body + "]"
    requires ParseInner(body + "]") == (|body| + 1, ys)
    requires body + "]" + ([','] + tail) == body + ("]" + ([','] + tail))
    ensures pos + |body| + 3 <= |s| && s[pos + |body| + 3..] == tail
    ensures ParseLoop(s, pos, p, []) == ParseLoop(s, pos + |body| + 3, p + [List(ys)], [])
  {
    OpenSkip(s, pos, p, body, [','] + tail, ys);
    SuffixHead(s, pos, '[', body + ("]" + ([','] + tail)));
    SuffixSplit(s, pos + 1, body, "]" + ([','] + tail));
    SuffixHead(s, pos + 1 + |body|, ']', [','] + tail);
    SuffixHead(s, pos + 2 + |body|, ',', tail);
  }

  /** A rendered list followed by more text, regrouped. */
  lemma ShowListThen(ys: seq<Packet>, rest: string)
    ensures Show(List(ys)) + rest == "[" + (ShowAll(ys) + ("]" + rest))
    ensures ShowAll(ys) + "]" + rest == ShowAll(ys) + ("]" + rest)
  {
    Assoc4("[", ShowAll(ys), "]", rest);
    Assoc3(ShowAll(ys), "]", rest);
  }

  /** One step of the loop on a closing bracket. */
  lemma LoopClose(s: string, pos: nat, p: seq<Packet>, str: string)
    requires pos < |s| && s[pos] == ']' && |str| <= pos
    ensures ParseLoop(s, pos, p, str) == ParseLoop(s, pos + 1, p, str)
  {
  }

  /** One step of the loop on a comma: the pending run is flushed. */
  lemma LoopComma(s: string, pos: nat, p: seq<Packet>, str: string)
    requires pos < |s| && s[pos] == ',' && |str| <= pos
    ensures ParseLoop(s, pos, p, str)
      == ParseLoop(s, pos + 1, if |str| > 0 then p + ParseInner(str).1 else p, [])
  {
  }

  /** The loop at the end of the string. */
  lemma LoopEnd(s: string, p: seq<Packet>, str: string)
    requires |str| <= |s|
    ensures ParseLoop(s, |s|, p, str) == Finish(|s|, p, str)
  {
  }

  /** A plain run followed by the last closing bracket ends the loop with
      the run's integers appended. */
  lemma PlainLast(s: string, pos: nat, p: seq<Packet>, w: string)
    requires |w| > 0 && Plain(w)
    requires pos <= |s| && s[pos..] == w + "]"
    ensures ParseLoop(s, pos, p, []) == (|s|, p + Trailing(w))
  {
    var after := pos + |w|;
    SuffixSplit(s, pos, w, "]");
    assert s[after] == s[after..][0];
    ParseSkipsPlain(s, pos, p, [], w);
    assert [] + w == w;
    LoopClose(s, after, p, w);
    LoopEnd(s, p, w);
  }

  /** A plain run followed by a comma is parsed and flushed. */
  lemma PlainComma(s: string, pos: nat, p: seq<Packet>, w: string, rest: string)
    requires |w| > 0 && Plain(w)
    requires pos <= |s| && s[pos..] == w + ([','] + rest)
    ensures pos + |w| + 1 <= |s| && s[pos + |w| + 1..] == rest
    ensures ParseLoop(s, pos, p, []) == ParseLoop(s, pos + |w| + 1, p + ParseInner(w).1, [])
  {
    var after := pos + |w|;
    SuffixSplit(s, pos, w, [','] + rest);
    SuffixHead(s, after, ',', rest);
    ParseSkipsPlain(s, pos, p, [], w);
    assert [] + w == w;
    LoopComma(s, after, p, w);
  }

  /** An opening bracket whose nested text is cut and parsed as given
      adds one list and skips past the character after the nested text. */
  lemma OpenSkip(s: string, pos: nat, p: seq<Packet>, body: string, rest: string, ys: seq<Packet>)
    requires pos <= |s| && s[pos..] == "[" + (body + ("]" + rest))
    requires NextPacketString(body + "]" + rest) == body + "]"
    requires ParseInner(body + "]") == (|body| + 1, ys)
    requires body + "]" + rest == body + ("]" + rest)
    ensures pos + |body| + 2 + |rest| == |s|
    ensures ParseLoop(s, pos, p, []) == (if |rest| <= 1 then Finish(pos + |body| + 3, p + [List(ys)], [])
      else ParseLoop(s, pos + |body| + 3, p + [List(ys)], []))
  {
    SuffixHead(s, pos, '[', body + ("]" + rest));
  }

  /** What the parser learns from one rendered integer. */
  lemma ShowInt(x: int)
    requires InI32(x)
    ensures |Show(Int(x))| > 0 && Plain(Show(Int(x)))
    ensures Trailing(Show(Int(x))) == [Int(x)]
    ensures ParseInner(Show(Int(x))).1 == [Int(x)]
  {
    IntPlain(x);
    TrailingInt(x);
    ParseInnerInt(x);
  }

  /** The text of a list's elements and its closing bracket parses to the
      elements, counting every character. */
  lemma ParseList(ys: seq<Packet>)
    requires WellTypedAll(ys)
    ensures ParseInner(ShowAll(ys) + "]") == (|ShowAll(ys)| + 1, ys)
    decreases SizeAll(ys), 2
  {
    var s := ShowAll(ys) + "]";
    assert s[0..] == s;
    ParseItems(s, 0, [], ys);
    assert [] + ys == ys;
  }

  /** Round trip: parsing the `Debug` rendering of a packet whose integers
      fit in `i32` gives the packet back. */
  lemma ParseShow(p: Packet)
    requires WellTyped(p)
    ensures ParsePacket(Show(p)) == Some(p)
  {
    match p
    case Int(x) =>
      ParseInnerInt(x);
    case List(xs) =>
      var s := Show(p);
      var body := ShowAll(xs);
      assert s[0..] == s == "[" + body + "]";
      Assoc3("[", body, "]");
      assert "]" + "" == "]" && body + "]" + "" == body + "]";
      NextPacketOfShowAll(xs, "");
      ParseList(xs);
      OpenSkip(s, 0, [], body, "", xs);
  }
}
