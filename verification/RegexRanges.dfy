/** Class emission and class matching agree. */
module RegexRanges {
  import opened Words
  import opened RegexTerm
  import opened RegexCode
  import opened RegexMatcher
  import opened RegexMachine

  /** The upper bound as it is stored. */
  function StoredHigh(high: int, wide: bool): int {
    if !wide && high == UINT32_MAX - 1 then 0xffff else high
  }

  lemma {:induction false} RangePairsAt(points: seq<int>, wide: bool)
    requires |points| % 2 == 0
    ensures |RangePairs(points, wide)| == |points| / 2
    ensures forall i :: 0 <= i < |points| / 2 ==>
      RangePairs(points, wide)[i] == (points[2 * i], StoredHigh(points[2 * i + 1] - 1, wide))
    decreases |points|
  {
    if points != [] {
      RangePairsAt(points[2..], wide);
      var tail := RangePairs(points[2..], wide);
      forall i | 0 <= i < |points| / 2
        ensures RangePairs(points, wide)[i] == (points[2 * i], StoredHigh(points[2 * i + 1] - 1, wide))
      {
        if i > 0 {
          assert tail[i - 1] == (points[2..][2 * (i - 1)], StoredHigh(points[2..][2 * (i - 1) + 1] - 1, wide));
          assert RangePairs(points, wide)[i] == tail[i - 1];
        }
      }
    }
  }

  /** The pair of points around a member. */
  lemma PairOf(points: seq<nat>, x: int) returns (i: nat)
    requires |points| % 2 == 0 && InPoints(points, x)
    ensures 2 * i + 1 < |points| && points[2 * i] <= x < points[2 * i + 1]
  {
    var k :| 0 <= k < |points| - 1 && k % 2 == 0 && points[k] <= x < points[k + 1];
    i := k / 2;
  }

  lemma InPair(points: seq<nat>, x: int, i: nat)
    requires 2 * i + 1 < |points| && points[2 * i] <= x < points[2 * i + 1]
    ensures InPoints(points, x)
  {
    var k := 2 * i;
    assert k % 2 == 0 && points[k] <= x < points[k + 1];
  }

  /** The stored ranges of the 32-bit form denote the set. */
  lemma WideRangesExact(points: seq<nat>, x: int)
    requires CanonicalPoints(points)
    ensures InRanges(RangePairs(points, true), x) <==> InPoints(points, x)
  {
    RangePairsAt(points, true);
    var r := RangePairs(points, true);
    hide InPoints, RangePairs;
    if InPoints(points, x) {
      var i := PairOf(points, x);
      assert r[i].0 <= x <= r[i].1;
    }
    if InRanges(r, x) {
      var i :| 0 <= i < |r| && r[i].0 <= x <= r[i].1;
      InPair(points, x, i);
    }
  }

  /** `r` is `points` in the 16-bit form: all but the last pair are stored unchanged; the last
      one is stored unchanged or, if it reaches to infinity, with 0xffff as its upper bound. */
  predicate NarrowForm(points: seq<int>, r: seq<(int, int)>) {
    var n := |r|;
    n > 0 && |points| == 2 * n &&
    (forall i :: 0 <= i < n - 1 ==> r[i] == (points[2 * i], points[2 * i + 1] - 1)) &&
    r[n - 1] == (points[2 * n - 2], if points[2 * n - 1] == UINT32_MAX then 0xffff else points[2 * n - 1] - 1)
  }

  lemma NarrowPairs(points: seq<nat>)
    requires CanonicalPoints(points) && points != []
    requires HighPoint(points) <= 0xffff
    ensures NarrowForm(points, RangePairs(points, false))
  {
    RangePairsAt(points, false);
    var n := |points| / 2;
    forall i | 0 <= i < n - 1
      ensures RangePairs(points, false)[i] == (points[2 * i], points[2 * i + 1] - 1)
    {
      assert points[2 * i + 1] < points[2 * n - 1];
    }
  }

  /** The bound that decides between the two forms: the last one that is not infinity. */
  function HighPoint(points: seq<int>): int
    requires |points| >= 2
  {
    var last := points[|points| - 1];
    if last == UINT32_MAX then points[|points| - 2] else last
  }

  lemma NarrowRangesExact(points: seq<nat>, x: int)
    requires CanonicalPoints(points) && points != [] && 0 <= x < UINT32_MAX
    requires HighPoint(points) <= 0xffff
    ensures var r := RangePairs(points, false);
            InPoints(points, x) <==>
            (x >= r[0].0 && ((x >= 0xffff && r[|r| - 1].1 == 0xffff) || InRanges(r, x)))
  {
    NarrowPairs(points);
    hide RangePairs;
    if InPoints(points, x) {
      NarrowAccepts(points, RangePairs(points, false), x);
    } else {
      NarrowRejects(points, RangePairs(points, false), x);
    }
  }

  lemma NarrowAccepts(points: seq<nat>, r: seq<(int, int)>, x: int)
    requires CanonicalPoints(points) && NarrowForm(points, r) && InPoints(points, x)
    ensures x >= r[0].0 && ((x >= 0xffff && r[|r| - 1].1 == 0xffff) || InRanges(r, x))
  {
    var i := PairOf(points, x);
    assert points[0] <= points[2 * i];
    assert r[0].0 == points[0] && r[i].0 == points[2 * i];
    if i < |r| - 1 {
      assert r[i].0 <= x <= r[i].1;
    }
  }

  lemma NarrowRejects(points: seq<nat>, r: seq<(int, int)>, x: int)
    requires CanonicalPoints(points) && NarrowForm(points, r) && !InPoints(points, x) && 0 <= x < UINT32_MAX
    requires HighPoint(points) <= 0xffff
    ensures !(x >= 0xffff && r[|r| - 1].1 == 0xffff) && !InRanges(r, x)
  {
    var n := |r|;
    forall i | 0 <= i < n
      ensures !(points[2 * i] <= x < points[2 * i + 1])
    {
      if points[2 * i] <= x < points[2 * i + 1] { InPair(points, x, i); }
    }
    hide InPoints;
    assert !(points[2 * (n - 1)] <= x < points[2 * (n - 1) + 1]);
    forall i | 0 <= i < n
      ensures !(r[i].0 <= x <= r[i].1)
    {
      assert !(points[2 * i] <= x < points[2 * i + 1]);
    }
  }

  /** The instruction emitted for a class accepts exactly the characters of the class
      (re_emit_range against REOP_range, REOP_range32 and the always-false char32). */
  lemma RangeInstrExact(f: Flags, points: seq<nat>, c: int)
    requires CanonicalPoints(points) && 0 <= Canon(f, c) <= 0x10FFFF
    ensures InstrAccepts(f, RangeInstr(points), c) <==> InPoints(points, Canon(f, c))
  {
    if points != [] {
      RangePairsAt(points, true);
      RangePairsAt(points, false);
      if HighPoint(points) <= 0xffff {
        NarrowRangesExact(points, Canon(f, c));
      } else {
        WideRangesExact(points, Canon(f, c));
      }
    }
  }

  lemma TestInstrExact(f: Flags, x: CharTest, c: int)
    requires ValidFlags(f) && ValidTest(x) && 0 <= c <= 0x10FFFF
    ensures IsCharOp(TestInstr(f, x))
    ensures InstrAccepts(f, TestInstr(f, x), c) <==> TestAccepts(f, x, c)
  {
    assert 0 <= f.canonicalize(c) <= 0x10FFFF;
    match x
    case Exactly(e) =>
    case Points(pts) => RangeInstrExact(f, pts, c);
    case Dot =>
  }
}
