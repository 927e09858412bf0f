/** cr_sort_and_remove_overlap and cr_regexp_canonicalize: the set of the case folded members of
    a set. */
module CharFold {
  import opened Words
  import opened CharPoints
  import opened CharRanges
  import opened CharCase
  import opened SortOrder
  import opened SortQuick

  // --- unsorted intervals ---

  type Interval = (nat, nat)

  predicate InIntervals(ps: seq<Interval>, c: nat) {
    exists k :: 0 <= k < |ps| && ps[k].0 <= c < ps[k].1
  }

  predicate NoneEmpty(ps: seq<Interval>) {
    forall k :: 0 <= k < |ps| ==> ps[k].0 < ps[k].1
  }

  /** The points of a list of intervals, as a CharRange holds them. */
  function Flat(ps: seq<Interval>): (s: seq<nat>)
    ensures |s| == 2 * |ps|
    ensures forall k :: 0 <= k < |ps| ==> s[2 * k] == ps[k].0 && s[2 * k + 1] == ps[k].1
  {
    if ps == [] then [] else Flat(ps[..|ps| - 1]) + [ps[|ps| - 1].0, ps[|ps| - 1].1]
  }

  lemma FlatAppend(ps: seq<Interval>, p: Interval)
    ensures Flat(ps + [p]) == Flat(ps) + [p.0, p.1]
  {
    assert (ps + [p])[..|ps|] == ps;
  }

  /** point_cmp: by the start of the intervals. */
  function PointCmp(p: Interval, q: Interval): int {
    if p.0 > q.0 then 1 else if p.0 < q.0 then -1 else 0
  }

  lemma PointCmpTotal()
    ensures TotalPreorder(PointCmp)
  {
  }

  predicate ByStart(ps: seq<Interval>) {
    forall i, j :: 0 <= i < j < |ps| ==> ps[i].0 <= ps[j].0
  }

  /** The points, seen as pairs. */
  method PairsOf(points: seq<nat>, ghost ps: seq<Interval>) returns (a: array<Interval>)
    requires points == Flat(ps)
    ensures fresh(a) && a[..] == ps
  {
    var n := |points| / 2;
    a := new Interval[n](i requires 0 <= i < n => (points[2 * i], points[2 * i + 1]));
  }

  /** The pairs, as points again. */
  method PointsOf(a: array<Interval>) returns (points: seq<nat>)
    ensures points == Flat(a[..])
  {
    hide Flat;
    points := [];
    var i := 0;
    assert a[..0] == [];
    NoPoints();
    while i < a.Length
      invariant 0 <= i <= a.Length && points == Flat(a[..i])
    {
      FlatAppend(a[..i], a[i]);
      assert a[..i] + [a[i]] == a[..i + 1];
      points := points + [a[i].0, a[i].1];
      i := i + 1;
    }
    assert a[..i] == a[..];
  }

  /** The call of rqsort, on pairs of points. */
  method SortPoints(cr: CharRange, ghost ps: seq<Interval>) returns (ghost qs: seq<Interval>)
    requires cr.points == Flat(ps)
    modifies cr
    ensures cr.points == Flat(qs) && ByStart(qs) && multiset(qs) == multiset(ps)
  {
    PointCmpTotal();
    hide TotalPreorder, Flat;
    var a := PairsOf(cr.points, ps);
    RqSort(a, PointCmp);
    qs := a[..];
    cr.points := PointsOf(a);
  }

  lemma NoPoints()
    ensures Flat([]) == []
  {
  }

  lemma SameIntervals(ps: seq<Interval>, qs: seq<Interval>)
    requires multiset(ps) == multiset(qs)
    ensures forall c: nat :: InIntervals(ps, c) <==> InIntervals(qs, c)
    ensures NoneEmpty(ps) ==> NoneEmpty(qs)
  {
    forall c: nat
      ensures InIntervals(ps, c) <==> InIntervals(qs, c)
    {
      IntervalMoves(ps, qs, c);
      IntervalMoves(qs, ps, c);
    }
    forall k | 0 <= k < |qs|
      ensures NoneEmpty(ps) ==> qs[k].0 < qs[k].1
    {
      assert qs[k] in multiset(ps);
    }
  }

  lemma IntervalMoves(ps: seq<Interval>, qs: seq<Interval>, c: nat)
    requires multiset(ps) == multiset(qs)
    ensures InIntervals(ps, c) ==> InIntervals(qs, c)
  {
    if InIntervals(ps, c) {
      var k :| 0 <= k < |ps| && ps[k].0 <= c < ps[k].1;
      assert ps[k] in multiset(qs);
      var l :| 0 <= l < |qs| && qs[l] == ps[k];
    }
  }

  // --- cr_sort_and_remove_overlap ---

  /** The intervals before i, joined where they overlap or touch: `out`, and the last one. */
  ghost predicate Joined(qs: seq<Interval>, i: nat, out: seq<nat>, start: nat, end: nat) {
    0 < i <= |qs| && Canonical(out) && start < end && (out != [] ==> out[|out| - 1] < start) && start <= qs[i - 1].0 &&
    SameSet(out, start, end, qs[..i])
  }

  ghost predicate SameSet(out: seq<nat>, start: nat, end: nat, qs: seq<Interval>) {
    forall c: nat :: Contains(out, c) || start <= c < end <==> InIntervals(qs, c)
  }

  lemma IntervalsNext(qs: seq<Interval>, i: nat, c: nat)
    requires i < |qs|
    ensures InIntervals(qs[..i + 1], c) <==> InIntervals(qs[..i], c) || qs[i].0 <= c < qs[i].1
  {
    assert qs[..i + 1] == qs[..i] + [qs[i]];
    if InIntervals(qs[..i], c) {
      var k :| 0 <= k < |qs[..i]| && qs[..i][k].0 <= c < qs[..i][k].1;
      assert qs[..i + 1][k] == qs[..i][k];
    }
    if qs[i].0 <= c < qs[i].1 { assert qs[..i + 1][i] == qs[i]; }
  }

  /** Another interval that does not leave a gap. */
  lemma JoinOne(qs: seq<Interval>, i: nat, out: seq<nat>, start: nat, end: nat)
    requires ByStart(qs) && NoneEmpty(qs) && i < |qs| && Joined(qs, i, out, start, end) && qs[i].0 <= end
    ensures Joined(qs, i + 1, out, start, if qs[i].1 <= end then end else qs[i].1)
  {
    hide *;
    JoinedParts(qs, i, out, start, end);
    var end1 := if qs[i].1 <= end then end else qs[i].1;
    SameSetNext(qs, i, out, start, end, end1);
    JoinedIs(qs, i + 1, out, start, end1);
  }

  lemma SameSetNext(qs: seq<Interval>, i: nat, out: seq<nat>, start: nat, end: nat, end1: nat)
    requires i < |qs| && SameSet(out, start, end, qs[..i]) && start <= qs[i].0 <= end
    requires end1 == if qs[i].1 <= end then end else qs[i].1
    ensures SameSet(out, start, end1, qs[..i + 1])
  {
    forall c: nat
      ensures Contains(out, c) || start <= c < end1 <==> InIntervals(qs[..i + 1], c)
    {
      SameSetAt(out, start, end, qs[..i], c);
      hide *;
      IntervalsNext(qs, i, c);
    }
    SameSetIs(out, start, end1, qs[..i + 1]);
  }

  lemma SameSetAt(out: seq<nat>, start: nat, end: nat, qs: seq<Interval>, c: nat)
    requires SameSet(out, start, end, qs)
    ensures Contains(out, c) || start <= c < end <==> InIntervals(qs, c)
  {
  }

  lemma SameSetIs(out: seq<nat>, start: nat, end: nat, qs: seq<Interval>)
    requires forall c: nat :: Contains(out, c) || start <= c < end <==> InIntervals(qs, c)
    ensures SameSet(out, start, end, qs)
  {
  }

  lemma JoinedParts(qs: seq<Interval>, i: nat, out: seq<nat>, start: nat, end: nat)
    requires ByStart(qs) && NoneEmpty(qs) && i < |qs| && Joined(qs, i, out, start, end)
    ensures 0 < i && Canonical(out) && start < end && (out != [] ==> out[|out| - 1] < start) && start <= qs[i].0 < qs[i].1
    ensures SameSet(out, start, end, qs[..i])
  {
    hide SameSet;
    assert qs[i - 1].0 <= qs[i].0;
  }

  lemma JoinedIs(qs: seq<Interval>, i: nat, out: seq<nat>, start: nat, end: nat)
    requires 0 < i <= |qs| && Canonical(out) && start < end && (out != [] ==> out[|out| - 1] < start) && start <= qs[i - 1].0
    requires SameSet(out, start, end, qs[..i])
    ensures Joined(qs, i, out, start, end)
  {
  }

  /** The next interval after a gap. */
  lemma JoinNew(qs: seq<Interval>, i: nat, out: seq<nat>, start: nat, end: nat)
    requires NoneEmpty(qs) && i < |qs| && Joined(qs, i, out, start, end) && qs[i].0 > end
    ensures Joined(qs, i + 1, out + [start, end], qs[i].0, qs[i].1)
  {
    var out1 := out + [start, end];
    forall c: nat
      ensures Contains(out1, c) || qs[i].0 <= c < qs[i].1 <==> InIntervals(qs[..i + 1], c)
    {
      IntervalsNext(qs, i, c);
      ContainsMore(out, start, end, c);
      hide Contains, InIntervals;
    }
    hide Contains, InIntervals;
  }

  lemma JoinFirst(qs: seq<Interval>)
    requires qs != [] && NoneEmpty(qs)
    ensures Joined(qs, 1, [], qs[0].0, qs[0].1)
  {
    forall c: nat
      ensures Contains([], c) || qs[0].0 <= c < qs[0].1 <==> InIntervals(qs[..1], c)
    {
      IntervalsNext(qs, 0, c);
    }
  }

  lemma JoinLast(qs: seq<Interval>, out: seq<nat>, start: nat, end: nat)
    requires Joined(qs, |qs|, out, start, end)
    ensures Canonical(out + [start, end])
    ensures forall c: nat :: Contains(out + [start, end], c) <==> InIntervals(qs, c)
  {
    assert qs[..|qs|] == qs;
    var t := out + [start, end];
    forall c: nat
      ensures Contains(t, c) <==> InIntervals(qs, c)
    {
      ContainsMore(out, start, end, c);
      hide Contains, InIntervals;
    }
    hide Contains, InIntervals;
  }

  /** The intervals from number k on are still in their places. */
  ghost predicate Rest(points: seq<nat>, qs: seq<Interval>, k: nat) {
    |points| == 2 * |qs| && forall l :: k <= l < |qs| ==> points[2 * l] == qs[l].0 && points[2 * l + 1] == qs[l].1
  }

  ghost predicate AllJoined(qs: seq<Interval>, out: seq<nat>) {
    Canonical(out) && forall c: nat :: Contains(out, c) <==> InIntervals(qs, c)
  }

  /** The intervals before points[i] have been joined to points[..j]. */
  ghost predicate Compacting(points: seq<nat>, qs: seq<Interval>, i: nat, j: nat) {
    i % 2 == 0 && j <= i <= |points| && Rest(points, qs, i / 2) && (i == 0 ==> j == 0) &&
    (0 < i < |points| ==> Gap(qs, i / 2, points[..j])) && (i == |points| ==> AllJoined(qs, points[..j]))
  }

  lemma FirstOfRun(points: seq<nat>, qs: seq<Interval>, i: nat, j: nat)
    requires NoneEmpty(qs) && Compacting(points, qs, i, j) && i < |points|
    ensures i + 1 < |points| && Rest(points, qs, (i + 2) / 2) && (i + 2) % 2 == 0
    ensures Joined(qs, (i + 2) / 2, points[..j], points[i], points[i + 1])
  {
    hide Joined, NoneEmpty, Gap, AllJoined;
    assert points[i] == qs[i / 2].0 && points[i + 1] == qs[i / 2].1;
    if i == 0 {
      JoinFirst(qs);
    } else {
      JoinAfterGap(qs, i / 2, points[..j]);
    }
  }

  lemma RunJoined(points: seq<nat>, qs: seq<Interval>, i: nat, j: nat, start: nat, end: nat)
    requires i % 2 == 0 && j + 2 <= i <= |points| && Rest(points, qs, i / 2)
    requires Joined(qs, i / 2, points[..j], start, end) && (i < |points| ==> qs[i / 2].0 > end)
    ensures Compacting(points[j := start][j + 1 := end], qs, i, j + 2)
  {
    hide Joined, Gap, Contains, Strict, InIntervals;
    var points1 := points[j := start][j + 1 := end];
    assert points1[..j + 2] == points[..j] + [start, end];
    if i == |points| {
      JoinLast(qs, points[..j], start, end);
    } else {
      GapFound(qs, i / 2, points[..j], start, end);
    }
  }

  lemma NothingJoined(points: seq<nat>, qs: seq<Interval>)
    requires points == Flat(qs)
    ensures Compacting(points, qs, 0, 0)
  {
    if qs == [] { NothingInside(qs); }
  }

  /** The inner loop of cr_sort_and_remove_overlap: the intervals that touch the current one. */
  method JoinFollowing(points: seq<nat>, i0: nat, end0: nat, ghost qs: seq<Interval>, ghost out: seq<nat>, ghost start: nat)
    returns (i: nat, end: nat)
    requires ByStart(qs) && NoneEmpty(qs) && i0 % 2 == 0 && 0 < i0 <= |points| && Rest(points, qs, i0 / 2)
    requires Joined(qs, i0 / 2, out, start, end0)
    ensures i % 2 == 0 && i0 <= i <= |points| && Joined(qs, i / 2, out, start, end) && (i < |points| ==> qs[i / 2].0 > end)
    ensures Rest(points, qs, i / 2)
  {
    hide Joined, NoneEmpty, ByStart;
    i, end := i0, end0;
    while i < |points|
      invariant i % 2 == 0 && i0 <= i <= |points| && Joined(qs, i / 2, out, start, end)
    {
      var start1, end1 := points[i], points[i + 1];
      assert start1 == qs[i / 2].0 && end1 == qs[i / 2].1;
      if start1 > end {
        return;
      }
      JoinOne(qs, i / 2, out, start, end);
      if !(end1 <= end) {
        end := end1;
      }
      i := i + 2;
    }
  }

  /** cr_sort_and_remove_overlap: in place, the intervals `ps` that the points stand for are sorted
      and joined. */
  method CrSortAndRemoveOverlap(cr: CharRange, ghost ps: seq<Interval>)
    requires cr.points == Flat(ps) && NoneEmpty(ps)
    modifies cr
    ensures Canonical(cr.points) && forall c: nat :: Contains(cr.points, c) <==> InIntervals(ps, c)
  {
    hide Contains, InIntervals, Joined, Strict, NoneEmpty, Flat, Compacting, Rest;
    ghost var qs := SortPoints(cr, ps);
    SameIntervals(ps, qs);
    NothingJoined(cr.points, qs);
    var len := |cr.points|;
    var j, i: nat := 0, 0;
    while i < len
      invariant j <= i <= len == |cr.points| && Compacting(cr.points, qs, i, j)
    {
      FirstOfRun(cr.points, qs, i, j);
      ghost var out := cr.points[..j];
      var start, end := cr.points[i], cr.points[i + 1];
      i, end := JoinFollowing(cr.points, i + 2, end, qs, out, start);
      RunJoined(cr.points, qs, i, j, start, end);
      cr.points := cr.points[j := start][j + 1 := end];
      j := j + 2;
    }
    JoinedAll(cr.points, qs, j);
    cr.points := cr.points[..j];
  }

  lemma JoinedAll(points: seq<nat>, qs: seq<Interval>, j: nat)
    requires Compacting(points, qs, |points|, j)
    ensures AllJoined(qs, points[..j])
  {
  }

  /** All intervals before i are in `points`, and the next one starts after a gap. */
  ghost predicate Gap(qs: seq<Interval>, i: nat, points: seq<nat>) {
    exists out: seq<nat>, start: nat, end: nat :: i < |qs| && Joined(qs, i, out, start, end) && qs[i].0 > end && points == out + [start, end]
  }

  lemma GapFound(qs: seq<Interval>, i: nat, out: seq<nat>, start: nat, end: nat)
    requires i < |qs| && Joined(qs, i, out, start, end) && qs[i].0 > end
    ensures Gap(qs, i, out + [start, end])
  {
  }

  lemma JoinAfterGap(qs: seq<Interval>, i: nat, points: seq<nat>)
    requires NoneEmpty(qs) && i < |qs| && Gap(qs, i, points)
    ensures Joined(qs, i + 1, points, qs[i].0, qs[i].1)
  {
    hide Joined;
    var out: seq<nat>, start: nat, end: nat :| Joined(qs, i, out, start, end) && qs[i].0 > end && points == out + [start, end];
    JoinNew(qs, i, out, start, end);
  }

  lemma NothingInside(qs: seq<Interval>)
    requires qs == []
    ensures Canonical([]) && forall c: nat :: Contains([], c) <==> InIntervals(qs, c)
  {
  }

  // --- cr_regexp_canonicalize ---

  /** Of the members of s, these have been folded: those in the intervals before i, and those
      of the interval from `start` on that are below c. */
  predicate Seen(s: seq<nat>, i: nat, start: nat, c: nat, x: nat)
    requires i <= |s|
  {
    Contains(s[..i], x) || start <= x < c
  }

  /** The intervals put out, and the current one, are the folded forms of what has been seen. */
  ghost predicate FoldedSoFar(t: CaseTable, s: seq<nat>, i: nat, start: nat, c: nat, isUnicode: bool, ps: seq<Interval>, dStart: int, dEnd: int)
    requires WellFormed(t) && i <= |s|
  {
    NoneEmpty(ps) && -1 <= dStart < dEnd + (if dStart == -1 then 1 else 0) && dEnd <= 0x110000 &&
    forall d: nat :: PutOut(ps, dStart, dEnd, d) <==> IsFolded(t, s, i, start, c, isUnicode, d)
  }

  predicate PutOut(ps: seq<Interval>, dStart: int, dEnd: int, d: nat) {
    InIntervals(ps, d) || (dStart != -1 && dStart <= d < dEnd)
  }

  ghost predicate IsFolded(t: CaseTable, s: seq<nat>, i: nat, start: nat, c: nat, isUnicode: bool, d: int)
    requires WellFormed(t) && i <= |s|
  {
    exists x: nat :: Seen(s, i, start, c, x) && Canonicalized(t, x, isUnicode) == d
  }

  lemma FoldedNext(t: CaseTable, s: seq<nat>, i: nat, start: nat, c: nat, isUnicode: bool, d: int)
    requires WellFormed(t) && i <= |s| && start <= c
    ensures IsFolded(t, s, i, start, c + 1, isUnicode, d) <==> IsFolded(t, s, i, start, c, isUnicode, d) || Canonicalized(t, c, isUnicode) == d
  {
    hide Canonicalized, WellFormed;
    forall x: nat
      ensures Seen(s, i, start, c + 1, x) <==> Seen(s, i, start, c, x) || x == c
    {
    }
    hide Seen;
  }

  /** One folded code point joins the current interval, or starts a new one. */
  method PutFolded(cr: CharRange, ghost ps0: seq<Interval>, dStart0: int, dEnd0: int, d: nat, ghost t: CaseTable, ghost s: seq<nat>, ghost i: nat,
        ghost start: nat, ghost c: nat, ghost isUnicode: bool)
    returns (ghost ps: seq<Interval>, dStart: int, dEnd: int)
    requires cr.points == Flat(ps0)
    requires WellFormed(t) && i <= |s| && start <= c && FoldedSoFar(t, s, i, start, c, isUnicode, ps0, dStart0, dEnd0)
    requires d == Canonicalized(t, c, isUnicode) && d < 0x110000
    modifies cr
    ensures cr.points == Flat(ps) && FoldedSoFar(t, s, i, start, c + 1, isUnicode, ps, dStart, dEnd) && dStart != -1
  {
    hide WellFormed, Canonicalized, IsFolded, InIntervals, Flat;
    ps, dStart, dEnd := ps0, dStart0, dEnd0;
    if dStart == -1 {
      dStart := d;
      dEnd := d + 1;
    } else if dEnd == d {
      dEnd := dEnd + 1;
    } else {
      IntervalAdded(ps, dStart, dEnd);
      FlatAppend(ps, (dStart, dEnd));
      ps := ps + [(dStart, dEnd)];
      cr.AddInterval(dStart, dEnd);
      dStart := d;
      dEnd := d + 1;
    }
    forall x: nat
      ensures PutOut(ps, dStart, dEnd, x) <==> PutOut(ps0, dStart0, dEnd0, x) || x == d
    {
    }
    FoldedMore(t, s, i, start, c, isUnicode, ps0, dStart0, dEnd0, ps, dStart, dEnd);
  }

  lemma FoldedMore(t: CaseTable, s: seq<nat>, i: nat, start: nat, c: nat, isUnicode: bool, ps0: seq<Interval>, dStart0: int, dEnd0: int,
      ps: seq<Interval>, dStart: int, dEnd: int)
    requires WellFormed(t) && i <= |s| && start <= c && FoldedSoFar(t, s, i, start, c, isUnicode, ps0, dStart0, dEnd0)
    requires NoneEmpty(ps) && -1 <= dStart < dEnd <= 0x110000
    requires forall x: nat :: PutOut(ps, dStart, dEnd, x) <==> PutOut(ps0, dStart0, dEnd0, x) || x == Canonicalized(t, c, isUnicode)
    ensures FoldedSoFar(t, s, i, start, c + 1, isUnicode, ps, dStart, dEnd)
  {
    hide WellFormed, Canonicalized, IsFolded, InIntervals, NoneEmpty;
    forall x: nat
      ensures PutOut(ps, dStart, dEnd, x) <==> IsFolded(t, s, i, start, c + 1, isUnicode, x)
    {
      FoldedNext(t, s, i, start, c, isUnicode, x);
      assert PutOut(ps, dStart, dEnd, x) <==> PutOut(ps0, dStart0, dEnd0, x) || x == Canonicalized(t, c, isUnicode);
    }
    hide PutOut;
  }

  lemma IntervalAdded(ps: seq<Interval>, a: nat, b: nat)
    requires a < b
    ensures forall c: nat :: InIntervals(ps + [(a, b)], c) <==> InIntervals(ps, c) || a <= c < b
    ensures NoneEmpty(ps) ==> NoneEmpty(ps + [(a, b)])
  {
    var qs := ps + [(a, b)];
    forall c: nat
      ensures InIntervals(qs, c) <==> InIntervals(ps, c) || a <= c < b
    {
      assert qs[..|ps| + 1] == qs && qs[..|ps|] == ps;
      IntervalsNext(qs, |ps|, c);
      hide InIntervals;
    }
  }

  /** Every member of s has an entry in the table. */
  ghost predicate AllHaveEntries(t: CaseTable, s: seq<nat>) {
    forall c: nat :: Contains(s, c) ==> HasEntry(t, c)
  }

  /** The table entries before idx lie below c. */
  predicate Passed(t: CaseTable, idx: nat, c: nat) {
    idx <= |t.entries| && forall k :: 0 <= k < idx ==> t.entries[k].code + t.entries[k].len <= c
  }

  /** Moves the cursor forward to the entry of c: the assertion of the source holds. */
  method FindForward(t: CaseTable, idx0: nat, c: nat) returns (idx: nat)
    requires WellFormed(t) && Passed(t, idx0, c) && HasEntry(t, c)
    ensures Passed(t, idx, c) && idx < |t.entries| && InEntry(t.entries[idx], c)
  {
    ghost var k :| 0 <= k < |t.entries| && InEntry(t.entries[k], c);
    idx := idx0;
    while !(idx < |t.entries| && InEntry(t.entries[idx], c))
      invariant Passed(t, idx, c) && idx <= k
      decreases k - idx
    {
      assert t.entries[idx].code + t.entries[idx].len <= t.entries[k].code;
      idx := idx + 1;
    }
  }

  /** The loops of cr_regexp_canonicalize over the members of `s` that the table affects. */
  method FoldMembers(cr: CharRange, t: CaseTable, s: seq<nat>, isUnicode: bool) returns (ghost ps: seq<Interval>)
    requires WellFormed(t) && Canonical(s) && AllHaveEntries(t, s) && cr.points == []
    modifies cr
    ensures cr.points == Flat(ps) && NoneEmpty(ps)
    ensures forall d: nat :: InIntervals(ps, d) <==> exists x: nat :: Contains(s, x) && Canonicalized(t, x, isUnicode) == d
  {
    hide WellFormed, Canonicalized, FoldedSoFar, Passed, HasEntry, InIntervals, Flat;
    ps := [];
    NoPoints();
    var dStart, dEnd := -1, -1;
    var idx: nat := 0;
    NothingFolded(t, s, isUnicode);
    var i: nat := 0;
    while i < |s|
      invariant i <= |s| && i % 2 == 0 && FoldedSoFar(t, s, i, 0, 0, isUnicode, ps, dStart, dEnd)
      invariant Passed(t, idx, if i < |s| then s[i] else 0x20000) || i == |s|
      invariant cr.points == Flat(ps)
      decreases |s| - i
    {
      var start, end := s[i], s[i + 1];
      var c: nat := start;
      StartInterval(t, s, i, start, isUnicode, ps, dStart, dEnd);
      while c < end
        invariant start <= c <= end && FoldedSoFar(t, s, i, start, c, isUnicode, ps, dStart, dEnd) && Passed(t, idx, c)
        invariant cr.points == Flat(ps)
      {
        assert s[i] <= c < s[i + 1];
        assert Contains(s, c);
        idx := FindForward(t, idx, c);
        CanonicalizedEntry(t, c, isUnicode, idx);
        FoldInRange(t, c, isUnicode, idx);
        var d := FoldEntry(t, t.entries[idx], c, isUnicode);
        ps, dStart, dEnd := PutFolded(cr, ps, dStart, dEnd, d, t, s, i, start, c, isUnicode);
        PassedFurther(t, idx, c, c + 1);
        c := c + 1;
      }
      EndInterval(t, s, i, start, end, isUnicode, ps, dStart, dEnd);
      i := i + 2;
      if i < |s| { PassedFurther(t, idx, c, s[i]); }
    }
    ghost var ps0 := ps;
    CurrentInterval(t, s, i, 0, 0, isUnicode, ps, dStart, dEnd);
    if dStart != -1 {
      FlatAppend(ps, (dStart, dEnd));
      ps := ps + [(dStart, dEnd)];
      cr.AddInterval(dStart, dEnd);
    }
    AllFolded(t, s, isUnicode, ps0, dStart, dEnd, ps);
  }

  lemma NothingFolded(t: CaseTable, s: seq<nat>, isUnicode: bool)
    requires WellFormed(t)
    ensures FoldedSoFar(t, s, 0, 0, 0, isUnicode, [], -1, -1) && Passed(t, 0, if s != [] then s[0] else 0x20000)
  {
    forall d: nat
      ensures !IsFolded(t, s, 0, 0, 0, isUnicode, d)
    {
    }
  }

  lemma StartInterval(t: CaseTable, s: seq<nat>, i: nat, start: nat, isUnicode: bool, ps: seq<Interval>, dStart: int, dEnd: int)
    requires WellFormed(t) && i <= |s| && FoldedSoFar(t, s, i, 0, 0, isUnicode, ps, dStart, dEnd)
    ensures FoldedSoFar(t, s, i, start, start, isUnicode, ps, dStart, dEnd)
  {
    hide WellFormed, Canonicalized;
    SameSeen(t, s, i, 0, 0, i, start, start, isUnicode);
    hide IsFolded;
  }

  lemma EndInterval(t: CaseTable, s: seq<nat>, i: nat, start: nat, end: nat, isUnicode: bool, ps: seq<Interval>, dStart: int, dEnd: int)
    requires WellFormed(t) && i + 1 < |s| && i % 2 == 0 && start == s[i] && end == s[i + 1]
    requires FoldedSoFar(t, s, i, start, end, isUnicode, ps, dStart, dEnd)
    ensures FoldedSoFar(t, s, i + 2, 0, 0, isUnicode, ps, dStart, dEnd)
  {
    hide WellFormed, Canonicalized;
    forall x: nat
      ensures Seen(s, i, start, end, x) <==> Seen(s, i + 2, 0, 0, x)
    {
      ContainsNext(s, i, x);
      hide Contains;
    }
    SameSeen(t, s, i, start, end, i + 2, 0, 0, isUnicode);
    hide IsFolded;
  }

  lemma SameSeen(t: CaseTable, s: seq<nat>, i: nat, start: nat, c: nat, i1: nat, start1: nat, c1: nat, isUnicode: bool)
    requires WellFormed(t) && i <= |s| && i1 <= |s| && forall x: nat :: Seen(s, i, start, c, x) <==> Seen(s, i1, start1, c1, x)
    ensures forall d: nat :: IsFolded(t, s, i, start, c, isUnicode, d) <==> IsFolded(t, s, i1, start1, c1, isUnicode, d)
  {
    hide WellFormed, Canonicalized, Seen;
  }

  lemma FoldInRange(t: CaseTable, c: nat, isUnicode: bool, k: nat)
    requires WellFormed(t) && k < |t.entries| && InEntry(t.entries[k], c)
    ensures ValidEntry(t, t.entries[k]) && 0 <= FoldEntry(t, t.entries[k], c, isUnicode) < 0x110000
  {
  }

  lemma CurrentInterval(t: CaseTable, s: seq<nat>, i: nat, start: nat, c: nat, isUnicode: bool, ps: seq<Interval>, dStart: int, dEnd: int)
    requires WellFormed(t) && i <= |s| && FoldedSoFar(t, s, i, start, c, isUnicode, ps, dStart, dEnd)
    ensures dStart >= -1 && (dStart != -1 ==> 0 <= dStart < dEnd)
  {
  }

  lemma PassedFurther(t: CaseTable, idx: nat, c: nat, c1: nat)
    requires Passed(t, idx, c) && c <= c1
    ensures Passed(t, idx, c1)
  {
  }

  lemma AllFolded(t: CaseTable, s: seq<nat>, isUnicode: bool, ps0: seq<Interval>, dStart: int, dEnd: int, ps: seq<Interval>)
    requires WellFormed(t) && FoldedSoFar(t, s, |s|, 0, 0, isUnicode, ps0, dStart, dEnd)
    requires dStart >= -1 && (dStart != -1 ==> dStart < dEnd) && ps == if dStart != -1 then ps0 + [(dStart, dEnd)] else ps0
    ensures NoneEmpty(ps)
    ensures forall d: nat :: InIntervals(ps, d) <==> exists x: nat :: Contains(s, x) && Canonicalized(t, x, isUnicode) == d
  {
    hide WellFormed, Canonicalized, Contains;
    if dStart != -1 { IntervalAdded(ps0, dStart, dEnd); }
    assert s[..|s|] == s;
    forall d: nat
      ensures InIntervals(ps, d) <==> exists x: nat :: Contains(s, x) && Canonicalized(t, x, isUnicode) == d
    {
      WholeSet(t, s, isUnicode, d);
      hide InIntervals, IsFolded;
    }
  }

  lemma WholeSet(t: CaseTable, s: seq<nat>, isUnicode: bool, d: int)
    requires WellFormed(t)
    ensures IsFolded(t, s, |s|, 0, 0, isUnicode, d) <==> exists x: nat :: Contains(s, x) && Canonicalized(t, x, isUnicode) == d
  {
    hide WellFormed, Canonicalized, Contains;
    assert s[..|s|] == s;
    forall x: nat
      ensures Seen(s, |s|, 0, 0, x) <==> Contains(s, x)
    {
    }
    hide Seen;
  }

  // --- the result ---

  function FoldMask(isUnicode: bool): CaseMask {
    CaseMask(!isUnicode, false, isUnicode)
  }

  /** Outside of the mask nothing is folded. */
  lemma MaskCovers(t: CaseTable, c: nat, isUnicode: bool)
    requires WellFormed(t) && !AffectedSomewhere(t, |t.entries|, c, FoldMask(isUnicode))
    ensures Canonicalized(t, c, isUnicode) == c
  {
    hide WellFormed, Canonicalized, Affected;
    if HasEntry(t, c) {
      var k :| 0 <= k < |t.entries| && InEntry(t.entries[k], c);
      assert !AffectedBy(t.entries[k], c, FoldMask(isUnicode));
      UnaffectedFold(t, c, isUnicode, k);
    } else {
      CanonicalizedOther(t, c, isUnicode);
    }
  }

  lemma MaskHasEntries(t: CaseTable, c: nat, m: CaseMask)
    requires AffectedSomewhere(t, |t.entries|, c, m)
    ensures HasEntry(t, c)
  {
  }

  /** The set of the folded members of s. */
  ghost predicate FoldedSet(t: CaseTable, s: seq<nat>, isUnicode: bool, d: nat)
    requires WellFormed(t)
  {
    exists x: nat :: Contains(s, x) && Canonicalized(t, x, isUnicode) == d
  }

  lemma FoldedUnion(t: CaseTable, s: seq<nat>, mask: seq<nat>, inter: seq<nat>, sub: seq<nat>, isUnicode: bool, d: nat)
    requires WellFormed(t)
    requires forall c: nat :: Contains(mask, c) <==> AffectedSomewhere(t, |t.entries|, c, FoldMask(isUnicode))
    requires forall c: nat :: Contains(inter, c) <==> Contains(mask, c) && Contains(s, c)
    requires forall c: nat :: Contains(sub, c) <==> !Contains(mask, c) && Contains(s, c)
    ensures FoldedSet(t, s, isUnicode, d) <==> FoldedSet(t, inter, isUnicode, d) || Contains(sub, d)
  {
    hide WellFormed, Canonicalized, Contains, AffectedSomewhere;
    if FoldedSet(t, s, isUnicode, d) {
      var x: nat :| Contains(s, x) && Canonicalized(t, x, isUnicode) == d;
      if !Contains(mask, x) { MaskCovers(t, x, isUnicode); }
    }
    if Contains(sub, d) { MaskCovers(t, d, isUnicode); }
  }

  /** cr_regexp_canonicalize: exactly the canonicalised members of the set, in canonical form. */
  method CrRegexpCanonicalize(cr: CharRange, t: CaseTable, isUnicode: bool)
    requires WellFormed(t) && Ranges(cr.points) && forall k :: 0 <= k < |cr.points| ==> cr.points[k] <= UINT32_MAX
    modifies cr
    ensures Canonical(cr.points) && forall k :: 0 <= k < |cr.points| ==> cr.points[k] <= UINT32_MAX
    ensures forall d: nat :: Contains(cr.points, d) <==> FoldedSet(t, old(cr.points), isUnicode, d)
  {
    hide WellFormed, Canonicalized, Contains, AffectedSomewhere, FoldedSet, InIntervals, Flat;
    ghost var s := cr.points;
    var mask := new CharRange();
    UnicodeCase1(mask, t, FoldMask(isUnicode));
    ghost var m := mask.points;
    var inter := new CharRange();
    inter.Apply(mask.points, cr.points, Inter);
    StrictRises(inter.points);
    WithinLimit(mask.points);
    mask.Invert();
    StrictRises(mask.points);
    var sub := new CharRange();
    sub.Apply(mask.points, cr.points, Inter);
    StrictRises(sub.points);
    InterHasEntries(t, m, inter.points, FoldMask(isUnicode));
    var result := new CharRange();
    ghost var ps := FoldMembers(result, t, inter.points, isUnicode);
    CrSortAndRemoveOverlap(result, ps);
    StrictRises(result.points);
    BelowLimit(s, UINT32_MAX);
    cr.points := [];
    cr.Apply(result.points, sub.points, Union);
    forall d: nat
      ensures Contains(cr.points, d) <==> FoldedSet(t, s, isUnicode, d)
    {
      FoldedUnion(t, s, m, inter.points, sub.points, isUnicode, d);
      FoldedIs(t, inter.points, isUnicode, d);
    }
    FoldedBelow(t, s, cr.points, isUnicode);
  }

  /** Folding does not leave the 32-bit range. */
  lemma FoldedBelow(t: CaseTable, s: seq<nat>, r: seq<nat>, isUnicode: bool)
    requires WellFormed(t) && Canonical(r) && forall k :: 0 <= k < |s| ==> s[k] <= UINT32_MAX
    requires forall d: nat :: Contains(r, d) ==> FoldedSet(t, s, isUnicode, d)
    ensures forall k :: 0 <= k < |r| ==> r[k] <= UINT32_MAX
  {
    BelowLimit(s, UINT32_MAX);
    if r != [] {
      var n := |r|;
      assert (n - 2) % 2 == 0 && r[n - 2] < r[n - 1];
      var last: nat := r[n - 1] - 1;
      assert Contains(r, last) by {
        assert r[n - 2] <= last < r[n - 1];
      }
      hide WellFormed, Contains, Canonicalized;
      var x: nat :| Contains(s, x) && Canonicalized(t, x, isUnicode) == last;
      CanonicalizedBelow(t, x, isUnicode);
      assert forall k :: 0 <= k < n - 1 ==> r[k] < r[n - 1];
    }
  }

  lemma CanonicalizedBelow(t: CaseTable, x: nat, isUnicode: bool)
    requires WellFormed(t) && x < UINT32_MAX
    ensures 0 <= Canonicalized(t, x, isUnicode) < UINT32_MAX
  {
    if HasEntry(t, x) {
      var k :| 0 <= k < |t.entries| && InEntry(t.entries[k], x);
      CanonicalizedEntry(t, x, isUnicode, k);
      hide Canonicalized;
    } else {
      CanonicalizedOther(t, x, isUnicode);
    }
  }

  lemma FoldedIs(t: CaseTable, s: seq<nat>, isUnicode: bool, d: nat)
    requires WellFormed(t)
    ensures FoldedSet(t, s, isUnicode, d) <==> exists x: nat :: Contains(s, x) && Canonicalized(t, x, isUnicode) == d
  {
    hide WellFormed, Canonicalized, Contains;
  }

  lemma WithinLimit(s: seq<nat>)
    requires Below(s, 0x20000)
    ensures Ranges(s) && forall k :: 0 <= k < |s| ==> s[k] <= UINT32_MAX
  {
  }

  lemma InterHasEntries(t: CaseTable, mask: seq<nat>, inter: seq<nat>, m: CaseMask)
    requires forall c: nat :: Contains(mask, c) <==> AffectedSomewhere(t, |t.entries|, c, m)
    requires forall c: nat :: Contains(inter, c) ==> Contains(mask, c)
    ensures AllHaveEntries(t, inter)
  {
    forall c: nat | Contains(inter, c)
      ensures HasEntry(t, c)
    {
      hide Contains;
      MaskHasEntries(t, c, m);
    }
  }
}
