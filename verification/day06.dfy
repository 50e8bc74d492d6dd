/** Day 6: tuning trouble. A start-of-packet marker is a run of `size`
    characters that are all different; the answer is the number of
    characters read when the first marker ends. The scanner keeps the
    longest run of different characters that ends at the current
    position in a queue, with a set of its members for lookup. */
module FrameScanning {
  import opened Util

  /** No character appears twice. */
  predicate Distinct(s: string)
  {
    forall i, j :: 0 <= i < j < |s| ==> s[i] != s[j]
  }

  /** No character appears twice among positions `lo` to `hi - 1`. */
  predicate DistinctIn(buffer: string, lo: nat, hi: nat)
    requires lo <= hi <= |buffer|
  {
    forall i, j :: lo <= i < j < hi ==> buffer[i] != buffer[j]
  }

  /** The `size` characters that end after the first `n` characters of
      `buffer` are all different: a marker ends at position `n`. */
  predicate IsMarker(buffer: string, size: nat, n: nat)
  {
    size <= n <= |buffer| && DistinctIn(buffer, n - size, n)
  }

  /** A marker is a stretch of the text without a repeated character. */
  lemma IsMarkerMeaning(buffer: string, size: nat, n: nat)
    requires size <= n <= |buffer|
    ensures IsMarker(buffer, size, n) <==> Distinct(buffer[n - size..n])
  {
    var lo := n - size;
    var s := buffer[lo..n];
    if IsMarker(buffer, size, n) {
      forall a, b | 0 <= a < b < |s| ensures s[a] != s[b] {
        assert s[a] == buffer[lo + a] && s[b] == buffer[lo + b];
      }
    }
    if Distinct(s) {
      forall i, j | lo <= i < j < n ensures buffer[i] != buffer[j] {
        assert buffer[i] == s[i - lo] && buffer[j] == s[j - lo];
      }
    }
  }

  /** `FrameScanner`: the queue `window`, the set `members` and the
      capacity `max`. */
  datatype Scanner = Scanner(window: string, members: set<char>, max: nat)
  {
    /** The set holds exactly the characters of the queue. */
    predicate Consistent()
    {
      forall x :: x in members <==> x in window
    }
  }

  /** `FrameScanner::new`. */
  function New(size: nat): (s: Scanner)
    ensures s.Consistent() && |s.window| == 0 && s.max == size
  {
    Scanner([], {}, size)
  }

  /** `reset`: empty queue and set, same capacity. */
  function Reset(s: Scanner): (t: Scanner)
    ensures t == New(s.max)
  {
    Scanner([], {}, s.max)
  }

  /** `flush_until`: pop from the front (dropping each character from the
      set) until `c` has been popped or the queue is empty. */
  function FlushUntil(s: Scanner, c: char): (t: Scanner)
    ensures t.max == s.max
    ensures |t.window| <= |s.window| && t.window == s.window[|s.window| - |t.window|..]
    decreases |s.window|
  {
    if |s.window| == 0 then s
    else
      var x := s.window[0];
      var next := Scanner(s.window[1..], s.members - {x}, s.max);
      if x == c then next else FlushUntil(next, c)
  }

  /** On a consistent queue without repeats that holds `c` at index `j`,
      flushing leaves exactly what followed `c`, and the set still
      matches. */
  lemma {:induction false} FlushUntilDrops(s: Scanner, c: char, j: nat)
    requires s.Consistent() && Distinct(s.window)
    requires j < |s.window| && s.window[j] == c
    ensures FlushUntil(s, c).window == s.window[j + 1..]
    ensures FlushUntil(s, c).Consistent()
    decreases |s.window|
  {
    var x := s.window[0];
    var next := Scanner(s.window[1..], s.members - {x}, s.max);
    assert s.window == [x] + next.window;
    assert next.Consistent() by {
      forall y ensures y in next.members <==> y in next.window {
        if y in next.window {
          var i :| 0 <= i < |next.window| && next.window[i] == y;
          assert s.window[i + 1] == y;
        }
      }
    }
    if x != c {
      assert next.window[j - 1] == c;
      FlushUntilDrops(next, c, j - 1);
      assert next.window[j - 1 + 1..] == s.window[j + 1..];
    }
  }

  /** `insert`: at capacity it pops the front instead of pushing (the
      queue is never full when `scan` calls it, unless the capacity is 0,
      where popping the empty queue panics: `None`); otherwise it pushes
      `c`. Returns the new queue length. */
  function Insert(s: Scanner, c: char): (r: Option<(Scanner, nat)>)
    ensures r.Some? ==> r.value.1 == |r.value.0.window| && r.value.0.max == s.max
    ensures |s.window| != s.max ==> r == Some((Scanner(s.window + [c], s.members + {c}, s.max), |s.window| + 1))
    ensures r.None? <==> |s.window| == s.max == 0
    ensures |s.window| == s.max > 0 ==> r.Some? && r.value.0.window == s.window[1..]
  {
    if |s.window| == s.max then
      if |s.window| == 0 then None
      else Some((Scanner(s.window[1..], s.members - {s.window[0]}, s.max), |s.window| - 1))
    else
      Some((Scanner(s.window + [c], s.members + {c}, s.max), |s.window| + 1))
  }

  datatype Outcome = Found(position: nat) | Exhausted | Panic

  /** `w` is the longest run of different characters that ends after the
      first `k` characters of `buffer`: it starts at `k - |w|`, and one
      character more would bring a repeat. */
  predicate RunAt(w: string, buffer: string, k: nat)
  {
    |w| <= k <= |buffer| && w == buffer[k - |w|..k] && DistinctIn(buffer, k - |w|, k) &&
    (|w| == k || !DistinctIn(buffer, k - |w| - 1, k))
  }

  /** The scanner at position `k` holds that run, which is shorter than a
      marker, and its set matches. */
  predicate Tracks(t: Scanner, buffer: string, k: nat)
  {
    t.Consistent() && RunAt(t.window, buffer, k) && |t.window| < t.max
  }

  /** A stretch ending at `k` is free of repeats exactly when it is no
      longer than the longest such run. */
  lemma SuffixDistinct(w: string, buffer: string, k: nat, m: nat)
    requires RunAt(w, buffer, k)
    ensures m <= k && DistinctIn(buffer, k - m, k) <==> m <= |w|
  {
    if m <= |w| {
    } else if m <= k {
      var i, j :| k - |w| - 1 <= i < j < k && buffer[i] == buffer[j];
      assert k - m <= i;
    }
  }

  /** With a run no longer than `size`, a marker ends at `k` exactly when
      the run has reached `size`. */
  lemma MarkerWhenFull(w: string, buffer: string, k: nat, size: nat)
    requires RunAt(w, buffer, k) && |w| <= size
    ensures |w| == size <==> IsMarker(buffer, size, k)
  {
    SuffixDistinct(w, buffer, k, size);
  }

  /** The run, read back as a queue, has no repeats. */
  lemma RunDistinct(w: string, buffer: string, k: nat)
    requires RunAt(w, buffer, k)
    ensures Distinct(w)
  {
    var lo := k - |w|;
    forall a, b | 0 <= a < b < |w| ensures w[a] != w[b] {
      assert w[a] == buffer[lo + a] && w[b] == buffer[lo + b];
    }
  }

  /** The queue after flushing for `c`. */
  function Flushed(t: Scanner, c: char): (f: Scanner)
    ensures f.max == t.max && |f.window| <= |t.window|
  {
    if c in t.members then FlushUntil(t, c) else t
  }

  /** One character of `scan`: flush if `c` is already held, then insert. */
  function Feed(t: Scanner, c: char): (r: Option<(Scanner, nat)>)
    ensures |Flushed(t, c).window| < t.max ==> r == Some((Next(t, c), |Next(t, c).window|))
  {
    Insert(Flushed(t, c), c)
  }

  /** The queue after flushing for `c` and pushing it. */
  function Next(t: Scanner, c: char): (u: Scanner)
    ensures u.max == t.max && |u.window| <= |t.window| + 1
  {
    var f := Flushed(t, c);
    Scanner(f.window + [c], f.members + {c}, f.max)
  }

  /** The run after dropping the earlier copy of `c` and everything before
      it, then appending `c`, is again the longest. */
  lemma AdvanceFlush(w: string, buffer: string, k: nat, j: nat)
    requires RunAt(w, buffer, k) && k < |buffer|
    requires j < |w| && w[j] == buffer[k]
    ensures RunAt(w[j + 1..] + [buffer[k]], buffer, k + 1)
  {
    var lo := k - |w|;
    var v := w[j + 1..] + [buffer[k]];
    assert w[j + 1..] == buffer[lo + j + 1..k];
    assert v == buffer[lo + j + 1..k + 1];
    assert buffer[lo + j] == buffer[k];
    forall a, b | lo + j + 1 <= a < b < k + 1 ensures buffer[a] != buffer[b] {
      if b == k {
        assert buffer[a] != buffer[lo + j];
      }
    }
  }

  /** A character not in the run extends it by one. */
  lemma AdvancePush(w: string, buffer: string, k: nat)
    requires RunAt(w, buffer, k) && k < |buffer|
    requires buffer[k] !in w
    ensures RunAt(w + [buffer[k]], buffer, k + 1)
  {
    var lo := k - |w|;
    var v := w + [buffer[k]];
    assert v == buffer[lo..k + 1];
    forall a, b | lo <= a < b < k + 1 ensures buffer[a] != buffer[b] {
      if b == k {
        assert buffer[a] == w[a - lo];
      }
    }
    if |w| < k {
      var a, b :| lo - 1 <= a < b < k && buffer[a] == buffer[b];
    }
  }

  lemma ConsistentPush(f: Scanner, c: char)
    requires f.Consistent()
    ensures Scanner(f.window + [c], f.members + {c}, f.max).Consistent()
  {
    var w := f.window + [c];
    forall y ensures y in f.members + {c} <==> y in w {
      if y in f.window {
        var i :| 0 <= i < |f.window| && f.window[i] == y;
        assert w[i] == y;
      }
      if y in w && y != c {
        var i :| 0 <= i < |w| && w[i] == y;
        assert f.window[i] == y;
      }
    }
  }

  /** One character read: the queue holds the longest run ending one
      further on, and its set still matches. */
  lemma Advance(t: Scanner, buffer: string, k: nat)
    requires Tracks(t, buffer, k) && k < |buffer|
    ensures Next(t, buffer[k]).Consistent()
    ensures RunAt(Next(t, buffer[k]).window, buffer, k + 1)
  {
    var c := buffer[k];
    var f := Flushed(t, c);
    if c in t.members {
      var j :| 0 <= j < |t.window| && t.window[j] == c;
      RunDistinct(t.window, buffer, k);
      FlushUntilDrops(t, c, j);
      AdvanceFlush(t.window, buffer, k, j);
    } else {
      AdvancePush(t.window, buffer, k);
    }
    ConsistentPush(f, c);
  }

  /** One iteration of `scan`: the queue reaches the capacity exactly
      when a marker ends here. */
  lemma StepMarker(t: Scanner, buffer: string, k: nat)
    requires Tracks(t, buffer, k) && k < |buffer|
    ensures |Next(t, buffer[k]).window| == t.max <==> IsMarker(buffer, t.max, k + 1)
  {
    Advance(t, buffer, k);
    MarkerWhenFull(Next(t, buffer[k]).window, buffer, k + 1, t.max);
  }

  /** Otherwise the scanner tracks the text one character further on. */
  lemma StepTracks(t: Scanner, buffer: string, k: nat)
    requires Tracks(t, buffer, k) && k < |buffer|
    requires |Next(t, buffer[k]).window| != t.max
    ensures Tracks(Next(t, buffer[k]), buffer, k + 1)
  {
    Advance(t, buffer, k);
  }

  /** No marker ends before position `k`. */
  predicate NoMarkerBefore(buffer: string, size: nat, k: nat)
  {
    forall n: nat :: n < k ==> !IsMarker(buffer, size, n)
  }

  /** One iteration of `scan` on a tracking scanner: it does not panic,
      stops exactly at the first marker, and otherwise keeps tracking. */
  lemma Step(t: Scanner, buffer: string, k: nat)
    requires Tracks(t, buffer, k) && NoMarkerBefore(buffer, t.max, k + 1) && k < |buffer|
    ensures Feed(t, buffer[k]) == Some((Next(t, buffer[k]), |Next(t, buffer[k]).window|))
    ensures |Next(t, buffer[k]).window| == t.max <==> IsMarker(buffer, t.max, k + 1)
    ensures |Next(t, buffer[k]).window| != t.max ==> Tracks(Next(t, buffer[k]), buffer, k + 1)
    ensures |Next(t, buffer[k]).window| != t.max ==> NoMarkerBefore(buffer, t.max, k + 2)
  {
    StepMarker(t, buffer, k);
    if |Next(t, buffer[k]).window| != t.max {
      StepTracks(t, buffer, k);
    }
  }

  /** `scan`: reads `buffer` a character at a time; `Found(n)` when the
      queue reaches the capacity after `n` characters. From a new scanner
      of positive capacity, the answer is the end of the first marker, and
      `Exhausted` means there is none. */
  method Scan(s: Scanner, buffer: string) returns (r: Outcome, t: Scanner)
    ensures s == New(s.max) && s.max > 0 && r.Found? ==> IsMarker(buffer, s.max, r.position)
    ensures s == New(s.max) && s.max > 0 && r.Found? ==> NoMarkerBefore(buffer, s.max, r.position)
    ensures s == New(s.max) && s.max > 0 && r.Exhausted? ==> NoMarkerBefore(buffer, s.max, |buffer| + 1)
    ensures s == New(s.max) && s.max > 0 ==> !r.Panic?
    ensures s.max == 0 && |buffer| > 0 && |s.window| == 0 ==> r == Panic
  {
    ghost var started := s == New(s.max) && s.max > 0;
    t := s;
    var k := 0;
    while k < |buffer|
      invariant 0 <= k <= |buffer| && t.max == s.max
      invariant started ==> Tracks(t, buffer, k)
      invariant started ==> NoMarkerBefore(buffer, s.max, k + 1)
      invariant s.max == 0 && |s.window| == 0 ==> t == s && k == 0
    {
      var c := buffer[k];
      ghost var before := t;
      var inserted := Feed(t, c);
      if inserted.None? {
        return Panic, t;
      }
      var size: nat;
      t, size := inserted.value.0, inserted.value.1;
      if started {
        Step(before, buffer, k);
      }
      if size == t.max {
        return Found(k + 1), t;
      }
      k := k + 1;
    }
    return Exhausted, t;
  }

  /** The first marker, found by trying every end position in turn: an
      independent definition of what `scan` computes. */
  function FirstMarker(buffer: string, size: nat, n: nat): (r: Option<nat>)
    requires n <= |buffer| + 1
    ensures r.Some? ==> IsMarker(buffer, size, r.value) && n <= r.value
    ensures r.Some? ==> forall m :: n <= m < r.value ==> !IsMarker(buffer, size, m)
    ensures r.None? ==> forall m :: n <= m ==> !IsMarker(buffer, size, m)
    decreases |buffer| + 1 - n
  {
    if n > |buffer| then None
    else if IsMarker(buffer, size, n) then Some(n)
    else FirstMarker(buffer, size, n + 1)
  }


  /** `find_start_of_frame` and `find_start_of_message`: a new scanner of
      capacity 4 or 14; the answer agrees with the search over end
      positions. */
  method FindStart(buffer: string, size: nat) returns (r: Outcome)
    requires size > 0
    ensures r.Found? <==> FirstMarker(buffer, size, 0).Some?
    ensures r.Found? ==> r.position == FirstMarker(buffer, size, 0).value
    ensures !r.Panic?
  {
    var t;
    r, t := Scan(New(size), buffer);
  }
}
