/** Day 15: sensors and their closest beacons on a grid, compared by
    taxicab distance. Each sensor rules out every cell at most as far from
    it as its beacon; the rows are scanned as runs of ruled-out cells. */
module BeaconZone {
  import opened Util

  type Pos = (int, int)

  // -------------------------------------------------------------- sensors

  /** `get_distance`: the taxicab distance. */
  function Distance(a: Pos, b: Pos): nat
  {
    Abs(a.0 - b.0) + Abs(a.1 - b.1)
  }

  /** The taxicab distance is a metric: symmetric, zero only between equal
      cells, and obeying the triangle inequality. */
  lemma DistanceMetric(a: Pos, b: Pos, c: Pos)
    ensures Distance(a, b) == Distance(b, a)
    ensures Distance(a, b) == 0 <==> a == b
    ensures Distance(a, c) <= Distance(a, b) + Distance(b, c)
  {
  }

  /** `SensorPoint`: the sensor, its closest beacon, and the distance
      between them. */
  datatype Sensor = Sensor(s: Pos, b: Pos, db: int)

  /** `from_vec`: the first four values are the sensor's and the beacon's
      coordinates; `None` for fewer than four. */
  function FromVec(v: seq<int>): (r: Option<Sensor>)
    ensures r.None? <==> |v| < 4
    ensures r.Some? ==> r.value.s == (v[0], v[1]) && r.value.b == (v[2], v[3])
    ensures r.Some? ==> r.value.db == Distance(r.value.s, r.value.b) && r.value.db >= 0
  {
    if |v| < 4 then None
    else
      var s, e := (v[0], v[1]), (v[2], v[3]);
      Some(Sensor(s, e, Distance(s, e)))
  }

  /** `intersect_at_row`: the run of cells of row `r` the sensor rules
      out, centred on its column; `None` when the row is out of reach. */
  function IntersectAtRow(p: Sensor, r: int): (res: Option<(int, int)>)
    ensures res.None? <==> Abs(p.s.1 - r) > p.db
    ensures res.Some? ==> res.value.0 <= res.value.1
  {
    var delta := Distance(p.s, (p.s.0, r));
    if delta > p.db then None else Some((p.s.0 - (p.db - delta), p.s.0 + (p.db - delta)))
  }

  /** The run holds exactly the cells of the row no further from the
      sensor than its beacon. */
  lemma IntersectCovers(p: Sensor, r: int, x: int)
    ensures (IntersectAtRow(p, r).Some? &&
             IntersectAtRow(p, r).value.0 <= x <= IntersectAtRow(p, r).value.1)
            <==> Distance(p.s, (x, r)) <= p.db
  {
  }

  // --------------------------------------------------------------- ranges

  /** The cells of a run list. */
  function Covered(rs: seq<(int, int)>): set<int>
  {
    if |rs| == 0 then {} else Interval(rs[0].0, rs[0].1) + Covered(rs[1..])
  }

  /** The cells from `lo` to `hi`, both included. */
  function Interval(lo: int, hi: int): (r: set<int>)
    ensures forall x :: x in r <==> lo <= x <= hi
    ensures |r| == if lo <= hi then hi - lo + 1 else 0
    decreases hi - lo
  {
    if lo > hi then {}
    else
      var init := Interval(lo, hi - 1);
      assert hi !in init;
      init + {hi}
  }

  /** A cell is covered exactly when one of the runs holds it. */
  lemma {:induction false} CoveredSpec(rs: seq<(int, int)>, x: int)
    ensures x in Covered(rs) <==> exists k :: 0 <= k < |rs| && rs[k].0 <= x <= rs[k].1
    decreases |rs|
  {
    if |rs| > 0 {
      CoveredSpec(rs[1..], x);
      if x in Covered(rs[1..]) {
        var k :| 0 <= k < |rs[1..]| && rs[1..][k].0 <= x <= rs[1..][k].1;
        assert rs[k + 1] == rs[1..][k];
      }
      if exists k :: 0 <= k < |rs| && rs[k].0 <= x <= rs[k].1 {
        var k :| 0 <= k < |rs| && rs[k].0 <= x <= rs[k].1;
        if k > 0 {
          assert rs[1..][k - 1] == rs[k];
        }
      }
    }
  }

  /** The covered cells do not depend on the order of the runs. */
  lemma {:induction false} CoveredPermutation(a: seq<(int, int)>, b: seq<(int, int)>)
    requires multiset(a) == multiset(b)
    ensures Covered(a) == Covered(b)
  {
    forall x ensures x in Covered(a) <==> x in Covered(b) {
      CoveredSpec(a, x);
      CoveredSpec(b, x);
      if x in Covered(a) {
        var k :| 0 <= k < |a| && a[k].0 <= x <= a[k].1;
        assert a[k] in multiset(b);
        var l :| 0 <= l < |b| && b[l] == a[k];
      }
      if x in Covered(b) {
        var k :| 0 <= k < |b| && b[k].0 <= x <= b[k].1;
        assert b[k] in multiset(a);
        var l :| 0 <= l < |a| && a[l] == b[k];
      }
    }
  }

  /** The runs of row `row`, one per sensor that reaches it, in sensor
      order. */
  function Ranges(ps: seq<Sensor>, row: int): (r: seq<(int, int)>)
    ensures forall k :: 0 <= k < |r| ==> r[k].0 <= r[k].1
  {
    if |ps| == 0 then []
    else
      var rest := Ranges(ps[1..], row);
      match IntersectAtRow(ps[0], row)
      case None => rest
      case Some(run) => [run] + rest
  }

  /** Some sensor rules out cell `(x, row)`. */
  predicate Sensed(ps: seq<Sensor>, x: int, row: int)
  {
    exists i :: 0 <= i < |ps| && Distance(ps[i].s, (x, row)) <= ps[i].db
  }

  /** The runs of a row cover exactly the cells some sensor rules out. */
  lemma {:induction false} RangesCover(ps: seq<Sensor>, row: int, x: int)
    ensures x in Covered(Ranges(ps, row)) <==> Sensed(ps, x, row)
    decreases |ps|
  {
    if |ps| > 0 {
      RangesCover(ps[1..], row, x);
      IntersectCovers(ps[0], row, x);
      if Sensed(ps[1..], x, row) {
        var i :| 0 <= i < |ps[1..]| && Distance(ps[1..][i].s, (x, row)) <= ps[1..][i].db;
        assert ps[i + 1] == ps[1..][i];
      }
      if Sensed(ps, x, row) {
        var i :| 0 <= i < |ps| && Distance(ps[i].s, (x, row)) <= ps[i].db;
        if i > 0 {
          assert ps[1..][i - 1] == ps[i];
        }
      }
    }
  }

  /** The columns of the beacons in row `row`. */
  function BeaconsInRow(ps: seq<Sensor>, row: int): set<int>
  {
    set i | 0 <= i < |ps| && ps[i].b.1 == row :: ps[i].b.0
  }

  /** Strictly increasing. */
  predicate Increasing(s: seq<int>)
  {
    forall i, j :: 0 <= i < j < |s| ==> s[i] < s[j]
  }

  /** The beacon columns from `lo` to `hi`, in increasing order, as the
      source collects and sorts them. */
  function BeaconsWithin(bs: set<int>, lo: int, hi: int): (r: seq<int>)
    ensures Increasing(r)
    ensures forall x :: x in r <==> x in bs && lo <= x <= hi
    decreases hi - lo
  {
    if lo > hi then []
    else
      var rest := BeaconsWithin(bs, lo + 1, hi);
      assert forall k :: 0 <= k < |rest| ==> lo < rest[k] by {
        forall k | 0 <= k < |rest| ensures lo < rest[k] {
          assert rest[k] in rest;
        }
      }
      if lo in bs then [lo] + rest else rest
  }

  /** Splitting the run from `p0` to `hi` at the increasing beacon columns
      `bs`: before each beacon the cells from `p0` up to it are kept when
      there are at least two of them, and the scan resumes after the
      beacon; what remains after the last beacon is kept when not
      empty. */
  function Split(p0: int, hi: int, bs: seq<int>): (r: seq<(int, int)>)
    ensures forall k :: 0 <= k < |r| ==> r[k].0 <= r[k].1
    decreases |bs|
  {
    if |bs| == 0 then (if p0 <= hi then [(p0, hi)] else [])
    else
      var b := bs[0];
      var rest := Split(b + 1, hi, bs[1..]);
      (if b - 1 > p0 then [(p0, b - 1)] else []) + rest
  }

  /** The cells the split keeps: those of the run that are not beacons,
      except a cell that would be a run of its own just before a beacon
      (the source keeps a left piece only when it ends after its
      start). */
  predicate Kept(p0: int, hi: int, bs: seq<int>, x: int)
  {
    p0 <= x <= hi && x !in bs && !((x + 1) in bs && (x == p0 || (x - 1) in bs))
  }

  /** The cells of the split before the first beacon `b` form one
      piece, kept when it ends after its start. */
  lemma SplitCons(p0: int, hi: int, bs: seq<int>)
    requires |bs| > 0
    ensures Covered(Split(p0, hi, bs)) ==
      (if bs[0] - 1 > p0 then Interval(p0, bs[0] - 1) else {}) + Covered(Split(bs[0] + 1, hi, bs[1..]))
  {
    var b := bs[0];
    var rest := Split(b + 1, hi, bs[1..]);
    if b - 1 > p0 {
      assert Split(p0, hi, bs) == [(p0, b - 1)] + rest;
      CoveredConcat([(p0, b - 1)], rest);
      CoveredOne((p0, b - 1));
    } else {
      assert Split(p0, hi, bs) == rest;
    }
  }

  lemma CoveredOne(a: (int, int))
    ensures Covered([a]) == Interval(a.0, a.1)
  {
    assert Covered([a]) == Interval(a.0, a.1) + Covered([a][1..]);
  }

  /** A cell before the first beacon is kept exactly when the piece before
      that beacon holds it. */
  lemma KeptBefore(p0: int, hi: int, bs: seq<int>, x: int)
    requires Increasing(bs) && |bs| > 0 && bs[0] <= hi && x < bs[0]
    ensures Kept(p0, hi, bs, x) <==> bs[0] - 1 > p0 && p0 <= x <= bs[0] - 1
  {
    assert x !in bs && (x - 1) !in bs by {
      forall k | 0 <= k < |bs| ensures bs[k] > x {
        if k > 0 {
          assert bs[0] < bs[k];
        }
      }
    }
    assert (x + 1) in bs <==> x + 1 == bs[0] by {
      forall k | 0 < k < |bs| ensures bs[k] > x + 1 {
        assert bs[0] < bs[k];
      }
    }
  }

  /** After the first beacon, the cells kept are those the rest of the
      split keeps. */
  lemma KeptAfter(p0: int, hi: int, bs: seq<int>, x: int)
    requires Increasing(bs) && |bs| > 0 && p0 <= bs[0] && x >= bs[0]
    ensures Kept(p0, hi, bs, x) <==> Kept(bs[0] + 1, hi, bs[1..], x)
  {
    assert bs == [bs[0]] + bs[1..];
  }

  /** The cells kept: those of the piece before the first beacon, and
      those kept after it. */
  lemma KeptCons(p0: int, hi: int, bs: seq<int>, x: int)
    requires Increasing(bs) && |bs| > 0 && p0 <= bs[0] <= hi
    ensures Kept(p0, hi, bs, x) <==>
      (bs[0] - 1 > p0 && p0 <= x <= bs[0] - 1) || Kept(bs[0] + 1, hi, bs[1..], x)
  {
    if x < bs[0] {
      KeptBefore(p0, hi, bs, x);
    } else {
      KeptAfter(p0, hi, bs, x);
    }
  }

  lemma SplitEmpty(p0: int, hi: int, x: int)
    ensures x in Covered(Split(p0, hi, [])) <==> Kept(p0, hi, [], x)
  {
    if p0 <= hi {
      CoveredOne((p0, hi));
    }
  }

  /** The split covers exactly the kept cells. */
  lemma {:induction false} SplitSpec(p0: int, hi: int, bs: seq<int>, x: int)
    requires Increasing(bs) && forall k :: 0 <= k < |bs| ==> p0 <= bs[k] <= hi
    ensures x in Covered(Split(p0, hi, bs)) <==> Kept(p0, hi, bs, x)
    decreases |bs|
  {
    if |bs| == 0 {
      SplitEmpty(p0, hi, x);
    } else {
      var b := bs[0];
      assert Increasing(bs[1..]);
      forall k | 0 <= k < |bs[1..]| ensures b + 1 <= bs[1..][k] <= hi {
        assert bs[1..][k] == bs[k + 1];
      }
      SplitSpec(b + 1, hi, bs[1..], x);
      SplitCons(p0, hi, bs);
      KeptCons(p0, hi, bs, x);
    }
  }

  /** The covered cells of two run lists together. */
  lemma {:induction false} CoveredConcat(a: seq<(int, int)>, b: seq<(int, int)>)
    ensures Covered(a + b) == Covered(a) + Covered(b)
    decreases |a|
  {
    if |a| > 0 {
      assert (a + b)[1..] == a[1..] + b;
      CoveredConcat(a[1..], b);
    } else {
      assert a + b == b;
    }
  }

  /** Every run split at the beacons inside it, in run order. */
  function Pieces(rs: seq<(int, int)>, beacons: set<int>): (r: seq<(int, int)>)
    ensures forall k :: 0 <= k < |r| ==> r[k].0 <= r[k].1
  {
    if |rs| == 0 then []
    else Split(rs[0].0, rs[0].1, BeaconsWithin(beacons, rs[0].0, rs[0].1)) + Pieces(rs[1..], beacons)
  }

  /** A cell survives the splitting exactly when one of the runs keeps it;
      in particular no surviving cell holds a beacon. */
  lemma {:induction false} PiecesSpec(rs: seq<(int, int)>, beacons: set<int>, x: int)
    ensures x in Covered(Pieces(rs, beacons)) <==>
      exists k :: 0 <= k < |rs| && Kept(rs[k].0, rs[k].1, BeaconsWithin(beacons, rs[k].0, rs[k].1), x)
    ensures x in Covered(Pieces(rs, beacons)) ==> x !in beacons
    decreases |rs|
  {
    if |rs| > 0 {
      var bs := BeaconsWithin(beacons, rs[0].0, rs[0].1);
      forall k | 0 <= k < |bs| ensures rs[0].0 <= bs[k] <= rs[0].1 {
        assert bs[k] in bs;
      }
      PiecesSpec(rs[1..], beacons, x);
      SplitSpec(rs[0].0, rs[0].1, bs, x);
      CoveredConcat(Split(rs[0].0, rs[0].1, bs), Pieces(rs[1..], beacons));
      if exists k :: 0 <= k < |rs[1..]| &&
          Kept(rs[1..][k].0, rs[1..][k].1, BeaconsWithin(beacons, rs[1..][k].0, rs[1..][k].1), x) {
        var k :| 0 <= k < |rs[1..]| &&
          Kept(rs[1..][k].0, rs[1..][k].1, BeaconsWithin(beacons, rs[1..][k].0, rs[1..][k].1), x);
        assert rs[k + 1] == rs[1..][k];
      }
      if exists k :: 0 <= k < |rs| && Kept(rs[k].0, rs[k].1, BeaconsWithin(beacons, rs[k].0, rs[k].1), x) {
        var k :| 0 <= k < |rs| && Kept(rs[k].0, rs[k].1, BeaconsWithin(beacons, rs[k].0, rs[k].1), x);
        if k > 0 {
          assert rs[1..][k - 1] == rs[k];
        }
      }
    }
  }

  // -------------------------------------------------------------- sorting

  /** The tuple order: by start, then by end. */
  predicate PairLe(a: (int, int), b: (int, int))
  {
    a.0 < b.0 || (a.0 == b.0 && a.1 <= b.1)
  }

  predicate SortedPairs(s: seq<(int, int)>)
  {
    forall i, j :: 0 <= i < j < |s| ==> PairLe(s[i], s[j])
  }

  /** Insert `x` before the first run it does not follow. */
  function InsertPair(x: (int, int), s: seq<(int, int)>): seq<(int, int)>
  {
    if |s| == 0 || PairLe(x, s[0]) then [x] + s else [s[0]] + InsertPair(x, s[1..])
  }

  lemma {:induction false} InsertPairPermutes(x: (int, int), s: seq<(int, int)>)
    ensures multiset(InsertPair(x, s)) == multiset(s) + multiset{x}
    ensures |InsertPair(x, s)| == |s| + 1
  {
    if |s| > 0 && !PairLe(x, s[0]) {
      InsertPairPermutes(x, s[1..]);
      assert s == [s[0]] + s[1..];
    }
  }

  lemma {:induction false} InsertPairSorted(x: (int, int), s: seq<(int, int)>)
    requires SortedPairs(s)
    ensures SortedPairs(InsertPair(x, s))
  {
    if |s| > 0 && !PairLe(x, s[0]) {
      var t := InsertPair(x, s[1..]);
      assert SortedPairs(s[1..]);
      InsertPairSorted(x, s[1..]);
      InsertPairPermutes(x, s[1..]);
      forall j | 0 <= j < |t| ensures PairLe(s[0], t[j]) {
        assert t[j] in multiset(s[1..]) + multiset{x};
        if t[j] != x {
          assert t[j] in s[1..];
        }
      }
    }
  }

  /** `sort` on the runs. */
  function SortPairs(s: seq<(int, int)>): (r: seq<(int, int)>)
    ensures multiset(r) == multiset(s) && |r| == |s|
    ensures SortedPairs(r)
  {
    if |s| == 0 then []
    else
      var init := SortPairs(s[..|s| - 1]);
      InsertPairPermutes(s[|s| - 1], init);
      InsertPairSorted(s[|s| - 1], init);
      assert s == s[..|s| - 1] + [s[|s| - 1]];
      InsertPair(s[|s| - 1], init)
  }

  /** `get_spaces_covered_in_row`: the runs of the row split at its
      beacons, sorted. They come back sorted and non-empty, cover exactly
      the cells some run keeps, and never a beacon's cell. */
  function GetSpacesCoveredInRow(ps: seq<Sensor>, row: int): (r: seq<(int, int)>)
    ensures SortedPairs(r)
    ensures forall k :: 0 <= k < |r| ==> r[k].0 <= r[k].1
    ensures Covered(r) == Covered(Pieces(Ranges(ps, row), BeaconsInRow(ps, row)))
  {
    var pieces := Pieces(Ranges(ps, row), BeaconsInRow(ps, row));
    var r := SortPairs(pieces);
    CoveredPermutation(r, pieces);
    forall k | 0 <= k < |r| ensures r[k].0 <= r[k].1 {
      assert r[k] in multiset(pieces);
    }
    r
  }

  /** A covered cell of the row is ruled out by some sensor and is not a
      beacon; a ruled-out cell that is not a beacon is covered unless it
      is a one-cell piece left of a beacon. */
  lemma SpacesSpec(ps: seq<Sensor>, row: int, x: int)
    ensures x in Covered(GetSpacesCoveredInRow(ps, row)) ==> Sensed(ps, x, row) && x !in BeaconsInRow(ps, row)
    ensures x in Covered(GetSpacesCoveredInRow(ps, row)) <==>
      exists k :: 0 <= k < |Ranges(ps, row)| &&
        Kept(Ranges(ps, row)[k].0, Ranges(ps, row)[k].1,
             BeaconsWithin(BeaconsInRow(ps, row), Ranges(ps, row)[k].0, Ranges(ps, row)[k].1), x)
  {
    var rs := Ranges(ps, row);
    var bs := BeaconsInRow(ps, row);
    PiecesSpec(rs, bs, x);
    RangesCover(ps, row, x);
    CoveredSpec(rs, x);
  }

  // ------------------------------------------------------------- part one

  /** `part_one`, as written: runs sorted by start are counted from the
      first cell after the furthest counted end, but only when that cell
      lies strictly before the run's end. */
  function CountAsWritten(rs: seq<(int, int)>, count: int, min: int): int
  {
    if |rs| == 0 then count
    else
      var r := rs[0];
      var m := if r.0 > min then r.0 else min + 1;
      if m < r.1 then CountAsWritten(rs[1..], count + r.1 - m + 1, r.1)
      else CountAsWritten(rs[1..], count, min)
  }

  /** `part_one` corrected: the run is counted whenever its first new
      cell lies inside it, its last cell included. */
  function CountCorrected(rs: seq<(int, int)>, count: int, min: int): (r: int)
    ensures r >= count
  {
    if |rs| == 0 then count
    else
      var r := rs[0];
      var m := FirstNew(r.0, min);
      if m <= r.1 then CountCorrected(rs[1..], count + r.1 - m + 1, r.1)
      else CountCorrected(rs[1..], count, min)
  }

  /** The first cell of a run not yet counted. */
  function FirstNew(lo: int, min: int): int
  {
    if lo > min then lo else min + 1
  }

  lemma CoveredCons(rs: seq<(int, int)>)
    requires |rs| > 0
    ensures Covered(rs) == Interval(rs[0].0, rs[0].1) + Covered(rs[1..])
  {
  }

  /** Each run starts no earlier than the one before it. */
  predicate StartsChain(rs: seq<(int, int)>)
  {
    |rs| <= 1 || (rs[0].0 <= rs[1].0 && StartsChain(rs[1..]))
  }

  lemma {:induction false} SortedStartsChain(rs: seq<(int, int)>)
    requires SortedPairs(rs)
    ensures StartsChain(rs)
    decreases |rs|
  {
    if |rs| > 1 {
      assert PairLe(rs[0], rs[1]);
      assert SortedPairs(rs[1..]);
      SortedStartsChain(rs[1..]);
    }
  }

  /** Covering the first run moves its cells into `seen`. */
  lemma CoveredAfter(seen: set<int>, rs: seq<(int, int)>, seen2: set<int>)
    requires |rs| > 0 && seen + Interval(rs[0].0, rs[0].1) == seen2
    ensures seen + Covered(rs) == seen2 + Covered(rs[1..])
    ensures |seen + Covered(rs)| == |seen2 + Covered(rs[1..])|
  {
    CoveredCons(rs);
  }

  /** One unfolding of the corrected count, the first run adding
      `added` cells. */
  lemma CountCorrectedCons(rs: seq<(int, int)>, count: int, min: int, added: int)
    requires |rs| > 0
    requires added == if FirstNew(rs[0].0, min) <= rs[0].1 then rs[0].1 - FirstNew(rs[0].0, min) + 1 else 0
    ensures CountCorrected(rs, count, min) == CountCorrected(rs[1..], count + added, MinAfter(min, rs[0].0, rs[0].1))
  {
  }

  /** No cell seen lies after `min`. */
  predicate Below(seen: set<int>, min: int)
  {
    forall x :: x in seen ==> x <= min
  }

  /** Every cell from `lo` to `min` has been seen. */
  predicate FilledFrom(seen: set<int>, lo: int, min: int)
  {
    forall x :: lo <= x <= min ==> x in seen
  }

  /** The cells seen after counting the run from `lo` to `hi`. */
  function SeenAfter(seen: set<int>, min: int, lo: int, hi: int): set<int>
  {
    seen + Interval(FirstNew(lo, min), hi)
  }

  /** The furthest end seen after counting the run from `lo` to `hi`. */
  function MinAfter(min: int, lo: int, hi: int): int
  {
    if FirstNew(lo, min) <= hi then hi else min
  }

  /** One step of the corrected count: the run from `lo` to `hi` adds
      the cells from its first new cell on, none of them seen before, and
      a next run starting at `next`, no earlier, again finds the cells
      from its start to the new furthest end seen. */
  lemma CountStep(seen: set<int>, min: int, lo: int, hi: int, next: int)
    requires Below(seen, min) && FilledFrom(seen, lo, min) && lo <= next
    ensures seen + Interval(lo, hi) == SeenAfter(seen, min, lo, hi)
    ensures |SeenAfter(seen, min, lo, hi)| ==
      |seen| + (if FirstNew(lo, min) <= hi then hi - FirstNew(lo, min) + 1 else 0)
    ensures Below(SeenAfter(seen, min, lo, hi), MinAfter(min, lo, hi))
    ensures FilledFrom(SeenAfter(seen, min, lo, hi), next, MinAfter(min, lo, hi))
  {
    assert seen * Interval(FirstNew(lo, min), hi) == {};
  }

  /** One run of the corrected count: what it adds, and the state it
      leaves for the rest. */
  lemma CountCoversStep(rs: seq<(int, int)>, seen: set<int>, count: int, min: int)
    requires StartsChain(rs) && count == |seen| && Below(seen, min)
    requires |rs| > 0 && FilledFrom(seen, rs[0].0, min)
    ensures StartsChain(rs[1..])
    ensures Below(SeenAfter(seen, min, rs[0].0, rs[0].1), MinAfter(min, rs[0].0, rs[0].1))
    ensures |rs[1..]| > 0 ==>
      FilledFrom(SeenAfter(seen, min, rs[0].0, rs[0].1), rs[1..][0].0, MinAfter(min, rs[0].0, rs[0].1))
    ensures CountCorrected(rs, count, min) ==
      CountCorrected(rs[1..], |SeenAfter(seen, min, rs[0].0, rs[0].1)|, MinAfter(min, rs[0].0, rs[0].1))
    ensures |seen + Covered(rs)| == |SeenAfter(seen, min, rs[0].0, rs[0].1) + Covered(rs[1..])|
  {
    var r := rs[0];
    var next := if |rs| > 1 then rs[1].0 else r.0;
    CountStep(seen, min, r.0, r.1, next);
    CountCorrectedCons(rs, count, min, |SeenAfter(seen, min, r.0, r.1)| - count);
    CoveredAfter(seen, rs, SeenAfter(seen, min, r.0, r.1));
  }

  /** The corrected count, started from the cells `seen` (all at or
      before `min`, the cells from the next run's start to `min`
      included), is the number of cells the runs and `seen` cover. */
  lemma {:induction false} CountCorrectedCovers(rs: seq<(int, int)>, seen: set<int>, count: int, min: int)
    requires StartsChain(rs) && count == |seen| && Below(seen, min)
    requires |rs| > 0 ==> FilledFrom(seen, rs[0].0, min)
    ensures CountCorrected(rs, count, min) == |seen + Covered(rs)|
    decreases |rs|
  {
    if |rs| == 0 {
      assert Covered(rs) == {};
      assert seen + {} == seen;
    } else {
      CountCoversStep(rs, seen, count, min);
      var seen2 := SeenAfter(seen, min, rs[0].0, rs[0].1);
      CountCorrectedCovers(rs[1..], seen2, |seen2|, MinAfter(min, rs[0].0, rs[0].1));
    }
  }

  /** The corrected count of sorted runs, from the source's starting
      state, is the number of distinct cells they cover. */
  lemma CountCorrectedSpec(rs: seq<(int, int)>)
    requires SortedPairs(rs) && forall k :: 0 <= k < |rs| ==> rs[k].0 > I32_MIN
    ensures CountCorrected(rs, 0, I32_MIN) == |Covered(rs)|
  {
    assert {} + Covered(rs) == Covered(rs);
    SortedStartsChain(rs);
    CountCorrectedCovers(rs, {}, 0, I32_MIN);
  }

  /** Two sorted runs where the second ends one cell past the first: the
      source's count misses that cell, the corrected count has it. */
  lemma CountAsWrittenMissesCell()
    ensures CountAsWritten([(0, 5), (3, 6)], 0, I32_MIN) == 6
    ensures CountCorrected([(0, 5), (3, 6)], 0, I32_MIN) == 7
    ensures |Covered([(0, 5), (3, 6)])| == 7
  {
    CountCorrectedSpec([(0, 5), (3, 6)]);
  }

  /** `part_one` as the source computes it. */
  function PartOneAsWritten(ps: seq<Sensor>, row: int): (r: int)
    ensures 0 <= r <= |Covered(GetSpacesCoveredInRow(ps, row))|
  {
    var rs := GetSpacesCoveredInRow(ps, row);
    CountAsWrittenCounts(rs, 0, I32_MIN);
    CountedCovered(rs, I32_MIN);
    SubsetCard(Counted(rs, I32_MIN), Covered(rs));
    CountAsWritten(rs, 0, I32_MIN)
  }

  /** The cells the source's count adds for the runs `rs`, the furthest
      cell counted so far being `min`. */
  function Counted(rs: seq<(int, int)>, min: int): set<int>
  {
    if |rs| == 0 then {}
    else
      var r := rs[0];
      var m := if r.0 > min then r.0 else min + 1;
      if m < r.1 then Interval(m, r.1) + Counted(rs[1..], r.1) else Counted(rs[1..], min)
  }

  /** The source's count adds, to `count`, as many as the cells it
      counts, every one of them beyond `min`. */
  lemma {:induction false} CountAsWrittenCounts(rs: seq<(int, int)>, count: int, min: int)
    ensures CountAsWritten(rs, count, min) == count + |Counted(rs, min)|
    ensures forall x :: x in Counted(rs, min) ==> x > min
    decreases |rs|
  {
    CountedAbove(rs, min);
    if |rs| > 0 {
      var r := rs[0];
      var m := if r.0 > min then r.0 else min + 1;
      if m < r.1 {
        var added := r.1 - m + 1;
        CountAsWrittenCons(rs, count, min, added);
        CountAsWrittenCounts(rs[1..], count + added, r.1);
        CountedRun(rs, min, m);
      } else {
        CountAsWrittenCounts(rs[1..], count, min);
      }
    }
  }

  /** Every cell the source counts lies beyond `min`. */
  lemma {:induction false} CountedAbove(rs: seq<(int, int)>, min: int)
    ensures forall x :: x in Counted(rs, min) ==> x > min
    decreases |rs|
  {
    if |rs| > 0 {
      var r := rs[0];
      var m := if r.0 > min then r.0 else min + 1;
      if m < r.1 {
        CountedAbove(rs[1..], r.1);
      } else {
        CountedAbove(rs[1..], min);
      }
    }
  }

  /** A run the source's count adds: its cells from `m` on, ahead of the
      cells counted after it. */
  lemma CountedRun(rs: seq<(int, int)>, min: int, m: int)
    requires |rs| > 0 && m == (if rs[0].0 > min then rs[0].0 else min + 1) && m < rs[0].1
    ensures Counted(rs, min) == Interval(m, rs[0].1) + Counted(rs[1..], rs[0].1)
    ensures |Counted(rs, min)| == rs[0].1 - m + 1 + |Counted(rs[1..], rs[0].1)|
  {
    var here, rest := Interval(m, rs[0].1), Counted(rs[1..], rs[0].1);
    CountedAbove(rs[1..], rs[0].1);
    assert here * rest == {};
  }

  /** Every cell the source counts lies in a run. */
  lemma {:induction false} CountedCovered(rs: seq<(int, int)>, min: int)
    ensures Counted(rs, min) <= Covered(rs)
    decreases |rs|
  {
    if |rs| > 0 {
      var r := rs[0];
      var m := if r.0 > min then r.0 else min + 1;
      CoveredCons(rs);
      if m < r.1 {
        CountedCovered(rs[1..], r.1);
        IntervalWithin(m, r.0, r.1);
      } else {
        CountedCovered(rs[1..], min);
      }
    }
  }

  /** One unfolding of the source's count on a run it counts, adding
      `added` cells. */
  lemma CountAsWrittenCons(rs: seq<(int, int)>, count: int, min: int, added: int)
    requires |rs| > 0 && (if rs[0].0 > min then rs[0].0 else min + 1) < rs[0].1
    requires added == rs[0].1 - (if rs[0].0 > min then rs[0].0 else min + 1) + 1
    ensures CountAsWritten(rs, count, min) == CountAsWritten(rs[1..], count + added, rs[0].1)
  {
  }

  lemma IntervalWithin(m: int, lo: int, hi: int)
    requires lo <= m
    ensures Interval(m, hi) <= Interval(lo, hi)
  {
  }

  lemma SubsetCard<T>(a: set<T>, b: set<T>)
    requires a <= b
    ensures |a| <= |b|
  {
    assert b == a + (b - a);
  }

  /** Part one with the corrected count: the number of cells of the row
      the runs cover. */
  function PartOne(ps: seq<Sensor>, row: int): (r: int)
    ensures (forall k :: 0 <= k < |GetSpacesCoveredInRow(ps, row)| ==> GetSpacesCoveredInRow(ps, row)[k].0 > I32_MIN)
      ==> r == |Covered(GetSpacesCoveredInRow(ps, row))|
  {
    var rs := GetSpacesCoveredInRow(ps, row);
    if forall k :: 0 <= k < |rs| ==> rs[k].0 > I32_MIN then
      CountCorrectedSpec(rs);
      CountCorrected(rs, 0, I32_MIN)
    else CountCorrected(rs, 0, I32_MIN)
  }

  // ------------------------------------------------------------- part two

  /** The first column from `i` up to but not including `end` whose cell
      in row `y` is not a beacon. */
  function FirstFree(i: int, end: int, beacons: set<Pos>, y: int): (r: Option<int>)
    ensures r.Some? ==> i <= r.value < end && (r.value, y) !in beacons
    ensures r.None? ==> forall x :: i <= x < end ==> (x, y) in beacons
    decreases end - i
  {
    if i >= end then None
    else if (i, y) !in beacons then Some(i)
    else FirstFree(i + 1, end, beacons, y)
  }

  /** The scan of a row's sorted runs after the first: `right` is the
      furthest end so far; a gap of at least one cell before the next
      run is searched for a cell without a beacon. */
  function GapScan(rest: seq<(int, int)>, right: int, beacons: set<Pos>, y: int): (r: Option<int>)
    requires SortedPairs(rest) && forall k :: 0 <= k < |rest| ==> rest[k].0 <= rest[k].1
    ensures r.Some? ==> right < r.value && (r.value, y) !in beacons && r.value !in Covered(rest)
    decreases |rest|
  {
    if |rest| == 0 then None
    else
      var next := rest[0];
      var found := if next.0 - right >= 2 then FirstFree(right + 1, next.0, beacons, y) else None;
      if found.Some? then
        forall k | 0 <= k < |rest| ensures !(rest[k].0 <= found.value <= rest[k].1) {
          assert PairLe(rest[0], rest[k]) || k == 0;
        }
        CoveredSpec(rest, found.value);
        found
      else
        var right2 := if next.0 < right then (if next.1 > right then next.1 else right) else next.1;
        var r := GapScan(rest[1..], right2, beacons, y);
        if r.Some? then
          CoveredSpec(rest[1..], r.value);
          CoveredSpec(rest, r.value);
          assert forall k :: 1 <= k < |rest| ==> rest[k] == rest[1..][k - 1];
          r
        else r
  }

  /** One row of `part_two`, as written: `None` where the row has no runs
      (the source unwraps), otherwise the gap found, if any. A gap before
      the first run is never reported: the loop meant for it runs from
      the first run's start up to `min`, which is empty whenever the
      run starts after `min`. */
  function RowAsWritten(rs: seq<(int, int)>, beacons: set<Pos>, y: int, min: int): (r: Option<Option<int>>)
    requires SortedPairs(rs) && forall k :: 0 <= k < |rs| ==> rs[k].0 <= rs[k].1
    ensures r.None? <==> |rs| == 0
    ensures r.Some? && r.value.Some? ==> (r.value.value, y) !in beacons && r.value.value !in Covered(rs)
  {
    if |rs| == 0 then None
    else
      var found := GapScan(rs[1..], rs[0].1, beacons, y);
      if found.Some? then
        assert rs == [rs[0]] + rs[1..];
        assert Covered(rs) == Interval(rs[0].0, rs[0].1) + Covered(rs[1..]);
        Some(found)
      else Some(found)
  }

  /** One row of part two, corrected: a free cell from `min` up to the
      first run's start is reported first. */
  function Row(rs: seq<(int, int)>, beacons: set<Pos>, y: int, min: int): (r: Option<Option<int>>)
    requires SortedPairs(rs) && forall k :: 0 <= k < |rs| ==> rs[k].0 <= rs[k].1
    ensures r.None? <==> |rs| == 0
    ensures r.Some? && r.value.Some? ==> (r.value.value, y) !in beacons && r.value.value !in Covered(rs)
    ensures |rs| > 0 && rs[0].0 > min && (min, y) !in beacons ==> r == Some(Some(min))
  {
    if |rs| == 0 then None
    else
      var edge := if rs[0].0 > min then FirstFree(min, rs[0].0, beacons, y) else None;
      if edge.Some? then
        CoveredSpec(rs, edge.value);
        forall k | 0 <= k < |rs| ensures rs[k].0 > edge.value {
          assert PairLe(rs[0], rs[k]) || k == 0;
        }
        Some(edge)
      else RowAsWritten(rs, beacons, y, min)
  }

  /** A row whose only run starts one cell after `min`: the source's row
      scan reports nothing, although cell `min` is free; the corrected
      scan reports it. */
  lemma RowAsWrittenMissesEdge()
    ensures RowAsWritten([(1, 5)], {}, 0, 0) == Some(None)
    ensures 0 !in Covered([(1, 5)])
    ensures Row([(1, 5)], {}, 0, 0) == Some(Some(0))
  {
  }

  /** All beacons. */
  function Beacons(ps: seq<Sensor>): set<Pos>
  {
    set i | 0 <= i < |ps| :: ps[i].b
  }

  /** `part_two` from row `y` on, with the row scan `fixed` or as
      written: the first free cell found, `(0, 0)` when no row has one,
      `None` where a row has no runs. */
  function PartTwoFrom(ps: seq<Sensor>, y: int, min: int, max: int, fixed: bool): (r: Option<Pos>)
    ensures r.Some? ==> (r.value == (0, 0) ||
      (y <= r.value.1 <= max && r.value !in Beacons(ps) &&
       r.value.0 !in Covered(GetSpacesCoveredInRow(ps, r.value.1))))
    decreases max - y
  {
    if y > max then Some((0, 0))
    else
      var rs := GetSpacesCoveredInRow(ps, y);
      var row := if fixed then Row(rs, Beacons(ps), y, min) else RowAsWritten(rs, Beacons(ps), y, min);
      match row
      case None => None
      case Some(Some(x)) => Some((x, y))
      case Some(None) => PartTwoFrom(ps, y + 1, min, max, fixed)
  }

  /** `part_two` as the source computes it. */
  function PartTwoAsWritten(ps: seq<Sensor>, min: int, max: int): (r: Option<Pos>)
    ensures r.Some? ==> (r.value == (0, 0) ||
      (min <= r.value.1 <= max && r.value !in Beacons(ps) &&
       r.value.0 !in Covered(GetSpacesCoveredInRow(ps, r.value.1))))
  {
    PartTwoFrom(ps, min, min, max, false)
  }

  /** Part two with the corrected row scan. */
  function PartTwo(ps: seq<Sensor>, min: int, max: int): (r: Option<Pos>)
    ensures r.Some? ==> (r.value == (0, 0) ||
      (min <= r.value.1 <= max && r.value !in Beacons(ps) &&
       r.value.0 !in Covered(GetSpacesCoveredInRow(ps, r.value.1))))
  {
    PartTwoFrom(ps, min, min, max, true)
  }
}
