/** String helpers with the behaviour of the Rust standard library calls the
    puzzle solvers use: `str::split`, `str::parse::<integer>()`,
    `strip_prefix`, `trim_start`, and the decimal rendering of integers. */
module Text {
  import opened Util

  predicate IsDigit(c: char) { '0' <= c <= '9' }

  predicate AllDigits(s: string)
  {
    forall i :: 0 <= i < |s| ==> IsDigit(s[i])
  }

  function DigitValue(c: char): nat
    requires IsDigit(c)
  {
    (c as int) - ('0' as int)
  }

  function DigitChar(d: nat): char
    requires d < 10
  {
    (('0' as int) + d) as char
  }

  /** Value of a run of decimal digits, most significant digit first. */
  function DigitsValue(s: string): nat
    requires AllDigits(s)
  {
    if |s| == 0 then 0 else DigitsValue(s[..|s| - 1]) * 10 + DigitValue(s[|s| - 1])
  }

  /** `s.parse::<T>()` for a Rust integer type `T` whose values are
      `lo..=hi`: an optional sign (`-` only for signed types), then one or
      more ASCII digits, and a value in range; anything else is an error. */
  function ParseInt(s: string, lo: int, hi: int): (r: Option<int>)
    ensures r.Some? ==> lo <= r.value <= hi
    ensures r.Some? ==> |s| > 0
  {
    var neg := |s| > 0 && s[0] == '-' && lo < 0;
    var body := if |s| > 0 && (s[0] == '+' || neg) then s[1..] else s;
    if |body| == 0 || !AllDigits(body) then None
    else
      var v := if neg then -(DigitsValue(body) as int) else DigitsValue(body);
      if lo <= v <= hi then Some(v) else None
  }

  function ParseI32(s: string): Option<int> { ParseInt(s, I32_MIN, I32_MAX) }
  function ParseI64(s: string): Option<int> { ParseInt(s, I64_MIN, I64_MAX) }
  function ParseU64(s: string): Option<int> { ParseInt(s, 0, U64_MAX) }

  /** Decimal rendering of a natural number (Rust's `Display`). */
  function NatToString(n: nat): (s: string)
    ensures |s| > 0 && AllDigits(s)
    ensures DigitsValue(s) == n
    decreases n
  {
    if n < 10 then [DigitChar(n)]
    else
      var prefix := NatToString(n / 10);
      var s := prefix + [DigitChar(n % 10)];
      assert s[..|s| - 1] == prefix;
      s
  }

  /** Decimal rendering of an integer, with a leading `-` when negative. */
  function IntToString(x: int): string
  {
    if x < 0 then "-" + NatToString(-x) else NatToString(x)
  }

  /** Parsing what `IntToString` renders gives the value back, for every
      value of the target type. */
  lemma ParseIntToString(x: int, lo: int, hi: int)
    requires lo <= x <= hi
    ensures ParseInt(IntToString(x), lo, hi) == Some(x)
  {
    var s := IntToString(x);
    if x < 0 {
      assert s[1..] == NatToString(-x);
    } else {
      assert IsDigit(s[0]);
    }
  }

  /** `haystack` holds `sep` starting at index `k`. */
  predicate MatchAt(haystack: string, sep: string, k: int)
  {
    0 <= k && k + |sep| <= |haystack| && haystack[k..k + |sep|] == sep
  }

  ghost predicate Contains(haystack: string, sep: string)
  {
    exists k :: MatchAt(haystack, sep, k)
  }

  /** The first index `>= i` at which `sep` occurs. */
  function FindFrom(s: string, sep: string, i: nat): (r: Option<nat>)
    requires |sep| > 0
    ensures r.Some? ==> i <= r.value && MatchAt(s, sep, r.value)
    ensures r.Some? ==> forall k :: i <= k < r.value ==> !MatchAt(s, sep, k)
    ensures r.None? ==> forall k :: i <= k ==> !MatchAt(s, sep, k)
    decreases |s| - i
  {
    if i + |sep| > |s| then None
    else if s[i..i + |sep|] == sep then Some(i)
    else FindFrom(s, sep, i + 1)
  }

  /** Joins pieces with a separator between consecutive pieces. */
  function Join(parts: seq<string>, sep: string): string
  {
    if |parts| == 0 then ""
    else if |parts| == 1 then parts[0]
    else parts[0] + sep + Join(parts[1..], sep)
  }

  /** `s.split(sep)`: the pieces between the leftmost non-overlapping
      occurrences of `sep`. There is always at least one piece, no piece
      holds `sep`, and joining the pieces with `sep` gives `s` back. */
  function Split(s: string, sep: string): (r: seq<string>)
    requires |sep| > 0
    ensures |r| >= 1
    ensures Join(r, sep) == s
    ensures forall i :: 0 <= i < |r| ==> !Contains(r[i], sep)
    decreases |s|
  {
    match FindFrom(s, sep, 0)
    case None => [s]
    case Some(k) =>
      var head := s[..k];
      var rest := Split(s[k + |sep|..], sep);
      assert !Contains(head, sep) by {
        forall j | MatchAt(head, sep, j) ensures j < k && MatchAt(s, sep, j) {
          assert s[j..j + |sep|] == head[j..j + |sep|];
        }
      }
      assert s == head + sep + s[k + |sep|..];
      [head] + rest
  }

  /** `s.split(c)` for a single-character separator. */
  function SplitChar(s: string, c: char): seq<string>
  {
    Split(s, [c])
  }

  /** `Split` cuts at the first occurrence of the separator. */
  lemma SplitFirst(s: string, sep: string, k: nat)
    requires |sep| > 0 && MatchAt(s, sep, k)
    requires forall j :: 0 <= j < k ==> !MatchAt(s, sep, j)
    ensures Split(s, sep) == [s[..k]] + Split(s[k + |sep|..], sep)
  {
    var f := FindFrom(s, sep, 0);
    assert f.Some?;
    assert f.value == k;
  }

  /** Splitting pieces joined by a character none of them holds gives the
      pieces back. */
  lemma {:induction false} SplitJoinChar(parts: seq<string>, c: char)
    requires |parts| >= 1
    requires forall i, j :: 0 <= i < |parts| && 0 <= j < |parts[i]| ==> parts[i][j] != c
    ensures SplitChar(Join(parts, [c]), c) == parts
  {
    if |parts| == 1 {
      SplitCharAbsent(parts[0], c);
    } else {
      var p := parts[0];
      var rest := Join(parts[1..], [c]);
      var s := Join(parts, [c]);
      assert s == p + [c] + rest;
      forall j | 0 <= j < |p| ensures !MatchAt(s, [c], j) {
        assert s[j..j + 1][0] == s[j] == p[j];
      }
      assert s[|p|..|p| + 1] == [c];
      SplitFirst(s, [c], |p|);
      assert s[..|p|] == p;
      assert s[|p| + 1..] == rest;
      SplitJoinChar(parts[1..], c);
    }
  }

  /** A string without the separator splits into itself alone. */
  lemma SplitCharAbsent(s: string, c: char)
    requires forall i :: 0 <= i < |s| ==> s[i] != c
    ensures SplitChar(s, c) == [s]
  {
    forall k | 0 <= k ensures !MatchAt(s, [c], k) {
      if k + 1 <= |s| {
        assert s[k..k + 1][0] == s[k];
      }
    }
  }

  /** A decimal rendering is non-empty and made of digits and `-` only. */
  lemma IntToStringChars(x: int)
    ensures |IntToString(x)| > 0
    ensures forall i :: 0 <= i < |IntToString(x)| ==> IsDigit(IntToString(x)[i]) || IntToString(x)[i] == '-'
  {
  }

  /** `s.strip_prefix(p)`. */
  function StripPrefix(s: string, p: string): (r: Option<string>)
    ensures r.Some? <==> |p| <= |s| && s[..|p|] == p
    ensures r.Some? ==> s == p + r.value
  {
    if |p| <= |s| && s[..|p|] == p then Some(s[|p|..]) else None
  }

  /** `s.strip_suffix(p)`. */
  function StripSuffix(s: string, p: string): (r: Option<string>)
    ensures r.Some? <==> |p| <= |s| && s[|s| - |p|..] == p
    ensures r.Some? ==> s == r.value + p
  {
    if |p| <= |s| && s[|s| - |p|..] == p then Some(s[..|s| - |p|]) else None
  }

  /** Unicode `White_Space`, which Rust's `trim_start` removes. */
  predicate IsWhitespace(c: char)
  {
    ('\U{0009}' <= c <= '\U{000D}') || c == ' ' || c == '\U{0085}' || c == '\U{00A0}'
    || c == '\U{1680}' || ('\U{2000}' <= c <= '\U{200A}') || c == '\U{2028}'
    || c == '\U{2029}' || c == '\U{202F}' || c == '\U{205F}' || c == '\U{3000}'
  }

  /** `s.trim_start()`. */
  function TrimStart(s: string): (r: string)
    ensures |r| <= |s| && r == s[|s| - |r|..]
    ensures |r| > 0 ==> !IsWhitespace(r[0])
    ensures forall i :: 0 <= i < |s| - |r| ==> IsWhitespace(s[i])
  {
    if |s| > 0 && IsWhitespace(s[0]) then TrimStart(s[1..]) else s
  }

  // ------------------------------------------------------- slicing facts

  lemma Assoc3(a: string, b: string, c: string)
    ensures a + b + c == a + (b + c)
  {
  }

  lemma Assoc4(a: string, b: string, c: string, d: string)
    ensures a + b + c + d == a + (b + (c + d))
  {
    var l := a + b + c + d;
    var r := a + (b + (c + d));
    forall k | 0 <= k < |l| ensures l[k] == r[k] {
      if |a| <= k {
        assert r[k] == (b + (c + d))[k - |a|];
        if |a| + |b| <= k {
          assert (b + (c + d))[k - |a|] == (c + d)[k - |a| - |b|];
        }
      }
    }
  }

  /** A suffix that is a concatenation holds each part at its offset. */
  lemma SuffixSplit(s: string, pos: nat, a: string, b: string)
    requires pos <= |s| && s[pos..] == a + b
    ensures pos + |a| <= |s| && s[pos..pos + |a|] == a && s[pos + |a|..] == b
  {
    assert s[pos..pos + |a|] == s[pos..][..|a|];
    assert s[pos + |a|..] == s[pos..][|a|..];
  }

  /** A suffix that starts with a character has it at its first index. */
  lemma SuffixHead(s: string, pos: nat, c: char, b: string)
    requires pos <= |s| && s[pos..] == [c] + b
    ensures pos < |s| && s[pos] == c && s[pos + 1..] == b
  {
    assert s[pos] == s[pos..][0];
    assert s[pos + 1..] == s[pos..][1..];
  }
}
