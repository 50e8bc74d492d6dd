/** Small shared definitions: an optional value, integer helpers that
    reproduce the integer semantics of Rust and C++, and sequence sums. */
module Util {

  /** Rust's `Option` / a nullable result. */
  datatype Option<+T> = None | Some(value: T)

  /** The three-way result of Rust's `Ord::cmp`. */
  datatype Ordering = Less | Equal | Greater {
    /** The ordering seen from the other side (`Ordering::reverse`). */
    function Reverse(): Ordering {
      match this
      case Less => Greater
      case Equal => Equal
      case Greater => Less
    }
  }

  /** `x.cmp(&y)` on integers. */
  function IntCmp(x: int, y: int): (r: Ordering)
    ensures r == Less <==> x < y
    ensures r == Equal <==> x == y
    ensures r == Greater <==> x > y
  {
    if x < y then Less else if x == y then Equal else Greater
  }

  const I32_MIN: int := -0x8000_0000
  const I32_MAX: int := 0x7fff_ffff
  const I64_MIN: int := -0x8000_0000_0000_0000
  const I64_MAX: int := 0x7fff_ffff_ffff_ffff
  const U64_MAX: int := 0xffff_ffff_ffff_ffff

  predicate InI32(x: int) { I32_MIN <= x <= I32_MAX }
  predicate InI64(x: int) { I64_MIN <= x <= I64_MAX }

  function Abs(x: int): nat
  {
    if x < 0 then -x else x
  }

  /** `i32::signum`. */
  function Sign(x: int): int
  {
    if x < 0 then -1 else if x == 0 then 0 else 1
  }

  function Max(a: int, b: int): int
  {
    if a < b then b else a
  }

  function Min(a: int, b: int): int
  {
    if a < b then a else b
  }

  /** Integer division rounding toward zero, as Rust's `/` and C++'s `/`
      (Dafny's own `/` is Euclidean). */
  function TruncDiv(a: int, b: int): int
    requires b != 0
  {
    if a >= 0 then (if b > 0 then a / b else -(a / -b))
    else (if b > 0 then -((-a) / b) else (-a) / (-b))
  }

  /** The remainder that goes with `TruncDiv`: Rust's and C++'s `%`. */
  function TruncRem(a: int, b: int): int
    requires b != 0
  {
    a - b * TruncDiv(a, b)
  }

  /** Truncating division and remainder recombine to the dividend, the
      remainder is smaller than the divisor and takes the dividend's sign. */
  lemma TruncDivRem(a: int, b: int)
    requires b != 0
    ensures a == b * TruncDiv(a, b) + TruncRem(a, b)
    ensures Abs(TruncRem(a, b)) < Abs(b)
    ensures a >= 0 ==> TruncRem(a, b) >= 0
    ensures a <= 0 ==> TruncRem(a, b) <= 0
  {
    var n, d := Abs(a), Abs(b);
    if a >= 0 && b > 0 {
      DivOfNat(n, d, TruncDiv(a, b), TruncRem(a, b));
    } else if a >= 0 {
      DivOfNat(n, d, -TruncDiv(a, b), TruncRem(a, b));
    } else if b > 0 {
      DivOfNat(n, d, -TruncDiv(a, b), -TruncRem(a, b));
    } else {
      DivOfNat(n, d, TruncDiv(a, b), -TruncRem(a, b));
    }
  }

  /** Helper for `TruncDivRem`: Euclidean division of naturals. */
  lemma DivOfNat(n: int, d: int, q: int, r: int)
    requires n >= 0 && d > 0 && q == n / d && r == n - d * q
    ensures 0 <= r < d
  {
  }

  lemma MulAtLeast(a: int, n: int)
    requires a >= 1 && n > 0
    ensures a * n >= n
  {
  }

  /** Euclidean division is determined by its defining equation. */
  lemma ModUnique(x: int, q: int, r: int, n: int)
    requires n > 0 && 0 <= r < n && x == q * n + r
    ensures x % n == r && x / n == q
  {
    var q2, r2 := x / n, x % n;
    assert x == q2 * n + r2;
    assert (q - q2) * n == r2 - r;
    if q > q2 {
      MulAtLeast(q - q2, n);
    } else if q < q2 {
      MulAtLeast(q2 - q, n);
    }
  }

  /** Stepping an index `a < n` once modulo `n` and then `k` more times is
      stepping it `k + 1` times. */
  lemma ModSucc(a: nat, k: nat, n: nat)
    requires n > 0 && a < n
    ensures ((a + 1) % n + k) % n == (a + k + 1) % n
  {
    if a + 1 == n {
      var q, r := k / n, k % n;
      assert k == q * n + r;
      assert n + k == (q + 1) * n + r;
      ModUnique(n + k, q + 1, r, n);
      ModUnique(a + 1, 1, 0, n);
    } else {
      ModUnique(a + 1, 0, a + 1, n);
    }
  }

  function Sum(s: seq<int>): int
  {
    if |s| == 0 then 0 else Sum(s[..|s| - 1]) + s[|s| - 1]
  }

  lemma {:induction false} SumAppend(s: seq<int>, t: seq<int>)
    ensures Sum(s + t) == Sum(s) + Sum(t)
    decreases |t|
  {
    if |t| == 0 {
      assert s + t == s;
    } else {
      assert (s + t)[..|s + t| - 1] == s + t[..|t| - 1];
      SumAppend(s, t[..|t| - 1]);
    }
  }

  /** Replacing one element changes the sum by the difference. */
  lemma {:induction false} SumUpdate(s: seq<int>, i: nat, v: int)
    requires i < |s|
    ensures Sum(s[i := v]) == Sum(s) - s[i] + v
    decreases |s|
  {
    var n := |s| - 1;
    if i < n {
      assert s[i := v][..n] == s[..n][i := v];
      SumUpdate(s[..n], i, v);
    } else {
      assert s[i := v][..n] == s[..n];
    }
  }

  /** A sum of non-negative values is non-negative. */
  lemma {:induction false} SumNonneg(s: seq<int>)
    requires forall i :: 0 <= i < |s| ==> s[i] >= 0
    ensures Sum(s) >= 0
    decreases |s|
  {
    if |s| > 0 {
      SumNonneg(s[..|s| - 1]);
    }
  }

  /** A left fold `acc + x` starting at 0 in Rust's `i32` with overflow
      checks on (a debug build panics on overflow): `None` for the panic. */
  function CheckedSumI32(s: seq<int>): (r: Option<int>)
    ensures r.Some? ==> r.value == Sum(s)
  {
    if |s| == 0 then Some(0)
    else match CheckedSumI32(s[..|s| - 1])
      case None => None
      case Some(t) => if InI32(t + s[|s| - 1]) then Some(t + s[|s| - 1]) else None
  }

  /** The checked fold succeeds exactly when every running total is an
      `i32`. */
  lemma {:induction false} CheckedSumI32Defined(s: seq<int>)
    ensures CheckedSumI32(s).Some? <==> forall k :: 0 < k <= |s| ==> InI32(Sum(s[..k]))
    decreases |s|
  {
    if |s| > 0 {
      var init := s[..|s| - 1];
      CheckedSumI32Defined(init);
      assert s[..|s|] == s;
      forall k | 0 < k < |s| ensures s[..k] == init[..k] { }
    }
  }

  /** Number of `true` entries. */
  function CountTrue(s: seq<bool>): nat
  {
    if |s| == 0 then 0 else CountTrue(s[..|s| - 1]) + (if s[|s| - 1] then 1 else 0)
  }

  lemma {:induction false} CountTrueBound(s: seq<bool>)
    ensures CountTrue(s) <= |s|
    decreases |s|
  {
    if |s| > 0 {
      CountTrueBound(s[..|s| - 1]);
    }
  }
}
