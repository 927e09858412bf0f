/** rqsort: quicksort with a three-way partition, an explicit stack of 50 entries, heapsort
    when the partitions are too uneven, and insertion sort for short segments. */
module SortQuick {
  import opened SortOrder
  import opened SortHeap

  // --- med3 ---

  /** The index of the median of three elements. */
  method Med3<T(!new)>(arr: array<T>, a: nat, b: nat, c: nat, cmp: (T, T) -> int) returns (m: nat)
    requires TotalPreorder(cmp) && a < arr.Length && b < arr.Length && c < arr.Length
    ensures IsMedian(arr[..], m, a, b, c, cmp)
  {
    if cmp(arr[a], arr[b]) < 0 {
      m := if cmp(arr[b], arr[c]) < 0 then b else if cmp(arr[a], arr[c]) < 0 then c else a;
    } else {
      m := if cmp(arr[b], arr[c]) > 0 then b else if cmp(arr[a], arr[c]) < 0 then a else c;
    }
  }

  /** m is one of the three, and stands between the two others. */
  ghost predicate IsMedian<T(!new)>(s: seq<T>, m: nat, a: nat, b: nat, c: nat, cmp: (T, T) -> int)
    requires a < |s| && b < |s| && c < |s|
  {
    (m == a && Between(s[b], s[a], s[c], cmp)) || (m == b && Between(s[a], s[b], s[c], cmp)) ||
    (m == c && Between(s[a], s[c], s[b], cmp))
  }

  ghost predicate Between<T(!new)>(x: T, y: T, z: T, cmp: (T, T) -> int) {
    (cmp(x, y) <= 0 && cmp(y, z) <= 0) || (cmp(z, y) <= 0 && cmp(y, x) <= 0)
  }

  // --- the partition ---

  /** Elements from lo to hi compare with the pivot v as `sign` says: 0 equal, -1 smaller, 1 larger. */
  ghost predicate Zone<T>(s: seq<T>, lo: int, hi: int, v: T, sign: int, cmp: (T, T) -> int)
    requires 0 <= lo && hi <= |s|
  {
    forall k :: lo <= k < hi ==> (if sign == 0 then cmp(v, s[k]) == 0 else if sign < 0 then cmp(v, s[k]) > 0 else cmp(v, s[k]) < 0)
  }

  /** The state of the partition: equal, smaller, unknown, larger, equal. */
  ghost predicate Zones<T>(s: seq<T>, lo: int, lt: int, i: int, j: int, gt: int, hi: int, v: T, cmp: (T, T) -> int)
    requires 0 <= lo && hi <= |s|
  {
    lo < lt <= i <= j <= gt <= hi && s[lo] == v && Zone(s, lo, lt, v, 0, cmp) && Zone(s, lt, i, v, -1, cmp) &&
    Zone(s, j, gt, v, 1, cmp) && Zone(s, gt, hi, v, 0, cmp)
  }

  lemma EqualLeft<T>(s: seq<T>, lo: int, lt: int, i: int, j: int, gt: int, hi: int, v: T, cmp: (T, T) -> int)
    requires 0 <= lo && hi <= |s| && Zones(s, lo, lt, i, j, gt, hi, v, cmp) && i < j && cmp(v, s[i]) == 0
    ensures Zones(Exchanged(s, lt, i), lo, lt + 1, i + 1, j, gt, hi, v, cmp)
  {
  }

  lemma EqualRight<T>(s: seq<T>, lo: int, lt: int, i: int, j: int, gt: int, hi: int, v: T, cmp: (T, T) -> int)
    requires 0 <= lo && hi <= |s| && Zones(s, lo, lt, i, j + 1, gt, hi, v, cmp) && i <= j && cmp(v, s[j]) == 0
    ensures Zones(Exchanged(s, gt - 1, j), lo, lt, i, j, gt - 1, hi, v, cmp)
  {
  }

  lemma SmallerLeft<T>(s: seq<T>, lo: int, lt: int, i: int, j: int, gt: int, hi: int, v: T, cmp: (T, T) -> int)
    requires 0 <= lo && hi <= |s| && Zones(s, lo, lt, i, j, gt, hi, v, cmp) && i < j && cmp(v, s[i]) > 0
    ensures Zones(s, lo, lt, i + 1, j, gt, hi, v, cmp)
  {
  }

  lemma LargerRight<T>(s: seq<T>, lo: int, lt: int, i: int, j: int, gt: int, hi: int, v: T, cmp: (T, T) -> int)
    requires 0 <= lo && hi <= |s| && Zones(s, lo, lt, i, j + 1, gt, hi, v, cmp) && i <= j && cmp(v, s[j]) < 0
    ensures Zones(s, lo, lt, i, j, gt, hi, v, cmp)
  {
  }

  /** s[i] is larger and s[j] is smaller than the pivot. */
  lemma SwapSides<T>(s: seq<T>, lo: int, lt: int, i: int, j: int, gt: int, hi: int, v: T, cmp: (T, T) -> int)
    requires 0 <= lo && hi <= |s| && Zones(s, lo, lt, i, j + 1, gt, hi, v, cmp) && i < j && cmp(v, s[i]) < 0 && cmp(v, s[j]) > 0
    ensures Zones(Exchanged(s, i, j), lo, lt, i + 1, j, gt, hi, v, cmp)
  {
  }

  /** Scans from the left: `while (pi < pj && cmp >= 0)`. */
  method ScanLeft<T(!new)>(a: array<T>, lo: nat, lt0: nat, i0: nat, j: nat, gt: nat, hi: nat, cmp: (T, T) -> int, ghost v: T)
    returns (lt: nat, i: nat)
    requires hi <= a.Length && Zones(a[..], lo, lt0, i0, j, gt, hi, v, cmp)
    modifies a
    ensures Permuted(a[..], old(a[..]), lo, hi) && Zones(a[..], lo, lt, i, j, gt, hi, v, cmp)
    ensures i0 <= i && (i < j ==> cmp(v, a[i]) < 0)
  {
    hide Permuted, Exchanged, Zone;
    ghost var s0 := a[..];
    PermutedSelf(s0, lo, hi);
    lt, i := lt0, i0;
    while i < j && cmp(a[lo], a[i]) >= 0
      invariant i0 <= i && Permuted(a[..], s0, lo, hi) && Zones(a[..], lo, lt, i, j, gt, hi, v, cmp)
    {
      ghost var s := a[..];
      if cmp(a[lo], a[i]) == 0 {
        EqualLeft(s, lo, lt, i, j, gt, hi, v, cmp);
        Swap(a, lt, i, lo, hi);
        PermutedTrans(a[..], s, s0, lo, hi);
        lt := lt + 1;
      } else {
        SmallerLeft(s, lo, lt, i, j, gt, hi, v, cmp);
      }
      i := i + 1;
    }
  }

  /** Scans from the right: `while (pi < (pj -= size) && cmp <= 0)`; the element at j, if it is
      not the last candidate, is smaller than the pivot. */
  method ScanRight<T(!new)>(a: array<T>, lo: nat, lt: nat, i: nat, j0: nat, gt0: nat, hi: nat, cmp: (T, T) -> int, ghost v: T)
    returns (j: int, gt: nat)
    requires hi <= a.Length && Zones(a[..], lo, lt, i, j0, gt0, hi, v, cmp) && (i < j0 ==> cmp(v, a[i]) < 0)
    modifies a
    ensures Permuted(a[..], old(a[..]), lo, hi) && j < j0
    ensures if i < j then Zones(a[..], lo, lt, i, j + 1, gt, hi, v, cmp) && cmp(v, a[j]) > 0 && cmp(v, a[i]) < 0
      else Zones(a[..], lo, lt, i, i, gt, hi, v, cmp)
  {
    hide Permuted, Exchanged, Zone;
    ghost var s0 := a[..];
    PermutedSelf(s0, lo, hi);
    gt := gt0;
    j := j0 - 1;
    while i < j && cmp(a[lo], a[j]) <= 0
      invariant j < j0 && Permuted(a[..], s0, lo, hi) && i - 1 <= j && Zones(a[..], lo, lt, i, j + 1, gt, hi, v, cmp)
      invariant i <= j ==> cmp(v, a[i]) < 0
      decreases j
    {
      ghost var s := a[..];
      if cmp(a[lo], a[j]) == 0 {
        gt := gt - 1;
        EqualRight(s, lo, lt, i, j, gt + 1, hi, v, cmp);
        KeepsOther(s, gt, j, i);
        Swap(a, gt, j, lo, hi);
        PermutedTrans(a[..], s, s0, lo, hi);
      } else {
        LargerRight(s, lo, lt, i, j, gt, hi, v, cmp);
      }
      j := j - 1;
    }
    if i == j {
      LargerRight(a[..], lo, lt, i, j, gt, hi, v, cmp);
    }
  }

  lemma KeepsOther<T>(s: seq<T>, x: int, y: int, k: int)
    requires 0 <= k < x < |s| && k < y < |s|
    ensures Exchanged(s, x, y)[k] == s[k]
  {
  }

  /** t is s with n elements from x on and from y on exchanged. */
  ghost predicate BlocksExchanged<T>(t: seq<T>, s: seq<T>, x: int, y: int, n: int)
    requires 0 <= x && x + n <= y && y + n <= |s|
  {
    |t| == |s| && forall k :: 0 <= k < |s| ==>
      t[k] == s[if x <= k < x + n then k + (y - x) else if y <= k < y + n then k - (y - x) else k]
  }

  lemma NextExchanged<T>(t: seq<T>, s: seq<T>, x: int, y: int, n: int)
    requires 0 <= x && 0 <= n && x + n < y && y + n < |s| && BlocksExchanged(t, s, x, y, n)
    ensures BlocksExchanged(Exchanged(t, x + n, y + n), s, x, y, n + 1)
  {
  }

  /** swap_block: exchanges two ranges of n elements. */
  method SwapBlock<T>(a: array<T>, x: nat, y: nat, n: nat, ghost lo: int, ghost hi: int)
    requires 0 <= lo <= x && x + n <= y && y + n <= hi <= a.Length
    modifies a
    ensures Permuted(a[..], old(a[..]), lo, hi) && BlocksExchanged(a[..], old(a[..]), x, y, n)
  {
    ghost var s0 := a[..];
    PermutedSelf(s0, lo, hi);
    assert BlocksExchanged(a[..], s0, x, y, 0);
    hide Permuted, Exchanged, BlocksExchanged;
    var i := 0;
    while i < n
      invariant 0 <= i <= n && Permuted(a[..], s0, lo, hi) && BlocksExchanged(a[..], s0, x, y, i)
    {
      ghost var s := a[..];
      NextExchanged(s, s0, x, y, i);
      Swap(a, x + i, y + i, lo, hi);
      PermutedTrans(a[..], s, s0, lo, hi);
      i := i + 1;
    }
  }

  /** Zones after the block of equal elements has moved behind the block of others. */
  lemma BlockMoved<T>(s: seq<T>, t: seq<T>, lo: int, lt: int, i: int, span: int, v: T, sign: int, signBefore: int, cmp: (T, T) -> int)
    requires 0 <= lo <= lt <= i <= |s| == |t| && span == (if lt - lo <= i - lt then lt - lo else i - lt)
    requires Zone(s, lo, lt, v, signBefore, cmp) && Zone(s, lt, i, v, sign, cmp)
    requires BlocksExchanged(t, s, lo, i - span, span)
    ensures Zone(t, lo, lo + (i - lt), v, sign, cmp) && Zone(t, lo + (i - lt), i, v, signBefore, cmp)
    ensures forall k :: 0 <= k < |s| && (k < lo || k >= i) ==> t[k] == s[k]
  {
  }

  /** The elements between lo and hi are partitioned: those before x are smaller than those
      between x and y, which are all equal and smaller than those from y on. */
  ghost predicate Partitioned<T>(s: seq<T>, lo: int, x: int, y: int, hi: int, cmp: (T, T) -> int)
    requires 0 <= lo && hi <= |s|
  {
    lo <= x < y <= hi &&
    forall i, j :: lo <= i < j < hi && j >= x && i < y ==> cmp(s[i], s[j]) <= 0
  }

  lemma ZonesPartition<T(!new)>(s: seq<T>, lo: int, x: int, y: int, hi: int, v: T, cmp: (T, T) -> int)
    requires TotalPreorder(cmp) && 0 <= lo <= x < y <= hi <= |s|
    requires Zone(s, lo, x, v, -1, cmp) && Zone(s, x, y, v, 0, cmp) && Zone(s, y, hi, v, 1, cmp)
    ensures Partitioned(s, lo, x, y, hi, cmp)
  {
    forall i, j | lo <= i < j < hi && j >= x && i < y
      ensures cmp(s[i], s[j]) <= 0
    {
      Flip(cmp, s[i], v);
      Flip(cmp, v, s[j]);
      Trans(cmp, s[i], v, s[j]);
    }
  }

  /** Exchanges elements until each is on its side of the pivot. */
  method SplitZones<T(!new)>(a: array<T>, lo: nat, hi: nat, cmp: (T, T) -> int, ghost v: T) returns (lt: nat, i: nat, gt: nat)
    requires TotalPreorder(cmp) && lo < hi <= a.Length && a[lo] == v
    modifies a
    ensures Permuted(a[..], old(a[..]), lo, hi) && Zones(a[..], lo, lt, i, i, gt, hi, v, cmp)
  {
    hide Permuted, Exchanged;
    ghost var s0 := a[..];
    PermutedSelf(s0, lo, hi);
    Flip(cmp, v, v);
    hide TotalPreorder;
    lt, i, gt := lo + 1, lo + 1, hi;
    var j: int := hi;
    assert Zones(a[..], lo, lt, i, j, gt, hi, v, cmp);
    hide Zone;
    while true
      invariant Permuted(a[..], s0, lo, hi) && Zones(a[..], lo, lt, i, j, gt, hi, v, cmp)
      decreases j - i
    {
      ghost var s := a[..];
      lt, i := ScanLeft(a, lo, lt, i, j, gt, hi, cmp, v);
      PermutedTrans(a[..], s, s0, lo, hi);
      s := a[..];
      j, gt := ScanRight(a, lo, lt, i, j, gt, hi, cmp, v);
      PermutedTrans(a[..], s, s0, lo, hi);
      if i >= j {
        break;
      }
      s := a[..];
      SwapSides(s, lo, lt, i, j, gt, hi, v, cmp);
      Swap(a, i, j, lo, hi);
      PermutedTrans(a[..], s, s0, lo, hi);
      i := i + 1;
    }
  }

  /** Moves the equal elements to the middle. */
  method MoveEqual<T(!new)>(a: array<T>, lo: nat, lt: nat, i: nat, gt: nat, hi: nat, cmp: (T, T) -> int, ghost v: T) returns (x: nat, y: nat)
    requires TotalPreorder(cmp) && hi <= a.Length && Zones(a[..], lo, lt, i, i, gt, hi, v, cmp)
    modifies a
    ensures Permuted(a[..], old(a[..]), lo, hi) && Partitioned(a[..], lo, x, y, hi, cmp)
  {
    hide TotalPreorder, Permuted, Zone, BlocksExchanged;
    ghost var s0 := a[..];
    var span := if lt - lo > i - lt then i - lt else lt - lo;
    SwapBlock(a, lo, i - span, span, lo, hi);
    ghost var s1 := a[..];
    BlockMoved(s0, s1, lo, lt, i, span, v, -1, 0, cmp);
    x := lo + (i - lt);
    span := if hi - gt > gt - i then gt - i else hi - gt;
    SwapBlock(a, i, hi - span, span, lo, hi);
    ghost var s2 := a[..];
    SameZone(s0, s1, i, gt, v, 1, cmp);
    SameZone(s0, s1, gt, hi, v, 0, cmp);
    BlockMoved(s1, s2, i, gt, hi, span, v, 0, 1, cmp);
    y := hi - (gt - i);
    SameZone(s1, s2, lo, x, v, -1, cmp);
    SameZone(s1, s2, x, i, v, 0, cmp);
    JoinZones(s2, x, i, y, v, 0, cmp);
    ZonesPartition(s2, lo, x, y, hi, v, cmp);
    PermutedTrans(s2, s1, s0, lo, hi);
  }

  lemma SameZone<T>(s: seq<T>, t: seq<T>, lo: int, hi: int, v: T, sign: int, cmp: (T, T) -> int)
    requires 0 <= lo && hi <= |s| == |t| && Zone(s, lo, hi, v, sign, cmp) && forall k :: lo <= k < hi ==> t[k] == s[k]
    ensures Zone(t, lo, hi, v, sign, cmp)
  {
  }

  lemma JoinZones<T>(s: seq<T>, lo: int, m: int, hi: int, v: T, sign: int, cmp: (T, T) -> int)
    requires 0 <= lo <= m <= hi <= |s| && Zone(s, lo, m, v, sign, cmp) && Zone(s, m, hi, v, sign, cmp)
    ensures Zone(s, lo, hi, v, sign, cmp)
  {
  }

  /** One partition of rqsort, around the median of three elements. */
  method Partition<T(!new)>(a: array<T>, lo: nat, hi: nat, cmp: (T, T) -> int) returns (x: nat, y: nat)
    requires TotalPreorder(cmp) && hi - lo > 6 && hi <= a.Length
    modifies a
    ensures Permuted(a[..], old(a[..]), lo, hi) && Partitioned(a[..], lo, x, y, hi, cmp)
  {
    hide TotalPreorder, Permuted, Exchanged, Zones, Partitioned;
    ghost var s0 := a[..];
    var m4 := (hi - lo) / 4;
    var m := Med3(a, lo + m4, lo + 2 * m4, lo + 3 * m4, cmp);
    Swap(a, lo, m, lo, hi);
    ghost var s1 := a[..];
    var lt, i, gt := SplitZones(a, lo, hi, cmp, a[lo]);
    ghost var s2 := a[..];
    x, y := MoveEqual(a, lo, lt, i, gt, hi, cmp, s1[lo]);
    PermutedTrans(s2, s1, s0, lo, hi);
    PermutedTrans(a[..], s2, s0, lo, hi);
  }

  // --- the segments that are still to be sorted ---

  /** An entry of the stack. */
  datatype Frame = Frame(base: nat, count: nat, depth: nat)

  predicate Covers(f: Frame, i: int, j: int) {
    f.base <= i && j < f.base + f.count
  }

  /** Elements i and j stand in the same segment. */
  predicate Together(frames: seq<Frame>, i: int, j: int) {
    exists k :: 0 <= k < |frames| && Covers(frames[k], i, j)
  }

  /** Any two elements that are not in the same segment are in order. */
  ghost predicate Ordered<T>(s: seq<T>, frames: seq<Frame>, cmp: (T, T) -> int) {
    forall i, j :: 0 <= i < j < |s| ==> cmp(s[i], s[j]) <= 0 || Together(frames, i, j)
  }

  predicate Apart(f: Frame, g: Frame) {
    f.base + f.count <= g.base || g.base + g.count <= f.base
  }

  predicate Disjoint(frames: seq<Frame>, n: nat) {
    && (forall k :: 0 <= k < |frames| ==> frames[k].base + frames[k].count <= n)
    && (forall k, l :: 0 <= k < l < |frames| ==> Apart(frames[k], frames[l]))
  }

  /** Permuting a segment only affects pairs of its own elements. */
  lemma OutsideStays<T(!new)>(now: seq<T>, was: seq<T>, rest: seq<Frame>, f: Frame, i: int, j: int, cmp: (T, T) -> int)
    requires Permuted(now, was, f.base, f.base + f.count) && Ordered(was, rest + [f], cmp) && Disjoint(rest + [f], |was|)
    requires 0 <= i < j < |now| && !Covers(f, i, j)
    ensures cmp(now[i], now[j]) <= 0 || Together(rest, i, j)
  {
    var frames := rest + [f];
    var i1 := PermutedElement(now, was, f.base, f.base + f.count, i);
    var j1 := PermutedElement(now, was, f.base, f.base + f.count, j);
    if cmp(was[i1], was[j1]) > 0 {
      var k :| 0 <= k < |frames| && Covers(frames[k], i1, j1);
      assert frames[|rest|] == f;
      assert k < |rest| && frames[k] == rest[k];
      assert Apart(frames[k], frames[|rest|]);
      assert Covers(rest[k], i, j);
    }
  }

  /** A segment has been sorted. */
  lemma SegmentSorted<T(!new)>(now: seq<T>, was: seq<T>, rest: seq<Frame>, f: Frame, cmp: (T, T) -> int)
    requires Permuted(now, was, f.base, f.base + f.count) && Ordered(was, rest + [f], cmp) && Disjoint(rest + [f], |was|)
    requires Sorted(now, f.base, f.base + f.count, cmp)
    ensures Ordered(now, rest, cmp) && Disjoint(rest, |now|)
  {
    forall i, j | 0 <= i < j < |now|
      ensures cmp(now[i], now[j]) <= 0 || Together(rest, i, j)
    {
      if !Covers(f, i, j) { OutsideStays(now, was, rest, f, i, j, cmp); }
    }
    RestDisjoint(rest, f, |was|);
  }

  lemma RestDisjoint(rest: seq<Frame>, f: Frame, n: nat)
    requires Disjoint(rest + [f], n)
    ensures Disjoint(rest, n)
  {
    var frames := rest + [f];
    forall k | 0 <= k < |rest|
      ensures rest[k].base + rest[k].count <= n
    {
      assert frames[k] == rest[k];
    }
    forall k, l | 0 <= k < l < |rest|
      ensures Apart(rest[k], rest[l])
    {
      assert frames[k] == rest[k] && frames[l] == rest[l];
    }
  }

  /** A segment has been partitioned: it is replaced by its two sides. */
  lemma SegmentSplit<T(!new)>(now: seq<T>, was: seq<T>, rest: seq<Frame>, f: Frame, g: Frame, h: Frame, x: int, y: int, cmp: (T, T) -> int)
    requires Permuted(now, was, f.base, f.base + f.count) && Ordered(was, rest + [f], cmp) && Disjoint(rest + [f], |was|)
    requires Partitioned(now, f.base, x, y, f.base + f.count, cmp)
    requires (g.base == f.base && g.base + g.count == x && h.base == y && h.base + h.count == f.base + f.count) ||
      (h.base == f.base && h.base + h.count == x && g.base == y && g.base + g.count == f.base + f.count)
    ensures Ordered(now, rest + [g] + [h], cmp) && Disjoint(rest + [g] + [h], |now|)
  {
    var frames := rest + [g] + [h];
    forall i, j | 0 <= i < j < |now|
      ensures cmp(now[i], now[j]) <= 0 || Together(frames, i, j)
    {
      hide Permuted;
      if Covers(f, i, j) {
        if j < x || i >= y {
          var k := if Covers(g, i, j) then |rest| else |rest| + 1;
          assert Covers(frames[k], i, j);
        }
      } else {
        OutsideStays(now, was, rest, f, i, j, cmp);
        if Together(rest, i, j) {
          var k :| 0 <= k < |rest| && Covers(rest[k], i, j);
          assert Covers(frames[k], i, j);
        }
      }
    }
    SplitDisjoint(rest, f, g, h, |now|);
  }

  lemma SplitDisjoint(rest: seq<Frame>, f: Frame, g: Frame, h: Frame, n: nat)
    requires Disjoint(rest + [f], n) && Apart(g, h)
    requires f.base <= g.base && g.base + g.count <= f.base + f.count && f.base <= h.base && h.base + h.count <= f.base + f.count
    ensures Disjoint(rest + [g] + [h], n)
  {
    var frames, before := rest + [g] + [h], rest + [f];
    RestDisjoint(rest, f, n);
    assert before[|rest|] == f;
    forall k | 0 <= k < |frames|
      ensures frames[k].base + frames[k].count <= n
    {
      assert frames[k] == if k < |rest| then rest[k] else if k == |rest| then g else h;
    }
    forall k, l | 0 <= k < l < |frames|
      ensures Apart(frames[k], frames[l])
    {
      if k < |rest| <= l {
        assert before[k] == rest[k] && Apart(before[k], before[|rest|]);
      }
    }
  }

  // --- the stack ---

  /** Depths grow along the stack; entry k is at least k + 1 partitions deep, and none is
      deeper than d. */
  predicate Depths(frames: seq<Frame>, d: nat) {
    && (forall k :: 0 <= k < |frames| ==> k + 1 <= frames[k].depth <= d)
    && (forall k, l :: 0 <= k < l < |frames| ==> frames[k].depth < frames[l].depth)
  }

  /** As no segment is more than 50 partitions deep, 50 entries are enough. */
  lemma DepthsFit(frames: seq<Frame>, d: nat)
    requires Depths(frames, d)
    ensures |frames| <= d
  {
    if frames != [] { assert frames[|frames| - 1].depth >= |frames|; }
  }

  lemma DepthsPush(frames: seq<Frame>, d: nat, f: Frame)
    requires Depths(frames, d) && f.depth == d + 1
    ensures Depths(frames + [f], d + 1)
  {
    DepthsFit(frames, d);
  }

  lemma DepthsPop(frames: seq<Frame>, d: nat)
    requires Depths(frames, d) && frames != []
    ensures Depths(frames[..|frames| - 1], frames[|frames| - 1].depth) && frames[|frames| - 1].depth <= d
  {
  }

  function Weight(frames: seq<Frame>): nat {
    if frames == [] then 0 else Weight(frames[..|frames| - 1]) + 2 * frames[|frames| - 1].count + 1
  }

  lemma WeightPush(frames: seq<Frame>, f: Frame)
    ensures Weight(frames + [f]) == Weight(frames) + 2 * f.count + 1
  {
    assert (frames + [f])[..|frames|] == frames;
  }

  /** Sorts a segment that is too many partitions deep. */
  method HeapStep<T(!new)>(a: array<T>, ghost rest: seq<Frame>, f: Frame, cmp: (T, T) -> int)
    requires TotalPreorder(cmp) && Ordered(a[..], rest + [f], cmp) && Disjoint(rest + [f], a.Length)
    modifies a
    ensures Permuted(a[..], old(a[..]), 0, a.Length)
    ensures Ordered(a[..], rest + [Frame(f.base, 0, 50)], cmp) && Disjoint(rest + [Frame(f.base, 0, 50)], a.Length)
  {
    hide TotalPreorder, Permuted, Ordered, Disjoint;
    ghost var s := a[..];
    SegmentInRange(rest, f, a.Length);
    HeapSort(a, f.base, f.base + f.count, cmp);
    PermutedWider(a[..], s, f.base, f.base + f.count, 0, a.Length);
    SegmentSorted(a[..], s, rest, f, cmp);
    AddEmpty(a[..], rest, f, cmp);
  }

  /** Sorts a short segment. */
  method ShortStep<T(!new)>(a: array<T>, ghost rest: seq<Frame>, f: Frame, cmp: (T, T) -> int)
    requires TotalPreorder(cmp) && Ordered(a[..], rest + [f], cmp) && Disjoint(rest + [f], a.Length)
    modifies a
    ensures Permuted(a[..], old(a[..]), 0, a.Length) && Ordered(a[..], rest, cmp) && Disjoint(rest, a.Length)
  {
    hide TotalPreorder, Permuted, Ordered, Disjoint;
    ghost var s := a[..];
    SegmentInRange(rest, f, a.Length);
    InsertionSort(a, f.base, f.base + f.count, cmp);
    PermutedWider(a[..], s, f.base, f.base + f.count, 0, a.Length);
    SegmentSorted(a[..], s, rest, f, cmp);
  }

  /** Partitions a segment; returns its larger and its smaller side. */
  method SplitStep<T(!new)>(a: array<T>, ghost rest: seq<Frame>, f: Frame, cmp: (T, T) -> int) returns (larger: Frame, smaller: Frame)
    requires TotalPreorder(cmp) && Ordered(a[..], rest + [f], cmp) && Disjoint(rest + [f], a.Length) && f.count > 6
    modifies a
    ensures Permuted(a[..], old(a[..]), 0, a.Length)
    ensures Ordered(a[..], rest + [larger] + [smaller], cmp) && Disjoint(rest + [larger] + [smaller], a.Length)
    ensures smaller.count <= larger.count && smaller.count + larger.count < f.count && larger.depth == smaller.depth == f.depth + 1
  {
    hide TotalPreorder, Permuted, Ordered, Disjoint, Partitioned;
    ghost var s := a[..];
    SegmentInRange(rest, f, a.Length);
    var x, y := Partition(a, f.base, f.base + f.count, cmp);
    PermutedWider(a[..], s, f.base, f.base + f.count, 0, a.Length);
    PartitionedBounds(a[..], f.base, x, y, f.base + f.count, cmp);
    larger, smaller := Frame(f.base, x - f.base, f.depth + 1), Frame(y, f.base + f.count - y, f.depth + 1);
    if !(x - f.base > f.base + f.count - y) {
      larger, smaller := smaller, larger;
    }
    SegmentSplit(a[..], s, rest, f, larger, smaller, x, y, cmp);
  }

  /** The inner loop of rqsort: partitions the segment f and pushes the larger side, until the
      rest is short; `f1` is what remains for the insertion sort. */
  method PartitionLoop<T(!new)>(a: array<T>, stack: array<Frame>, sp0: nat, f: Frame, cmp: (T, T) -> int) returns (sp: nat, f1: Frame)
    requires TotalPreorder(cmp) && stack.Length == 50 && sp0 <= 50 && a != stack
    requires Ordered(a[..], stack[..sp0] + [f], cmp) && Disjoint(stack[..sp0] + [f], a.Length)
    requires Depths(stack[..sp0], f.depth) && f.depth <= 50
    modifies a, stack
    ensures Permuted(a[..], old(a[..]), 0, a.Length) && sp <= 50
    ensures Ordered(a[..], stack[..sp] + [f1], cmp) && Disjoint(stack[..sp] + [f1], a.Length) && Depths(stack[..sp], 50)
    ensures Weight(stack[..sp]) + 2 * f1.count < old(Weight(stack[..sp0])) + 2 * f.count + 1
  {
    hide TotalPreorder, Permuted, Ordered, Disjoint, Depths, Weight;
    ghost var s0, w0 := a[..], Weight(stack[..sp0]) + 2 * f.count;
    PermutedSelf(s0, 0, a.Length);
    sp, f1 := sp0, f;
    DepthsFit(stack[..sp0], f.depth);
    while f1.count > 6
      invariant sp <= f1.depth <= 50 && Permuted(a[..], s0, 0, a.Length)
      invariant Ordered(a[..], stack[..sp] + [f1], cmp) && Disjoint(stack[..sp] + [f1], a.Length)
      invariant Depths(stack[..sp], f1.depth) && Weight(stack[..sp]) + 2 * f1.count <= w0
      decreases f1.count
    {
      ghost var s, rest := a[..], stack[..sp];
      if f1.depth + 1 > 50 {
        HeapStep(a, rest, f1, cmp);
        PermutedTrans(a[..], s, s0, 0, a.Length);
        DepthsWeaken(rest, f1.depth);
        f1 := Frame(f1.base, 0, 50);
        return;
      }
      ghost var depth := f1.depth;
      var larger, smaller := SplitStep(a, rest, f1, cmp);
      PermutedTrans(a[..], s, s0, 0, a.Length);
      sp := PushFrame(stack, sp, larger);
      f1 := smaller;
      DepthsPush(rest, depth, larger);
      WeightPush(rest, larger);
    }
    DepthsWeaken(stack[..sp], f1.depth);
  }

  method PushFrame(stack: array<Frame>, sp0: nat, f: Frame) returns (sp: nat)
    requires sp0 < stack.Length
    modifies stack
    ensures sp == sp0 + 1 && stack[..sp] == old(stack[..sp0]) + [f]
  {
    stack[sp0] := f;
    sp := sp0 + 1;
  }

  lemma SegmentInRange(rest: seq<Frame>, f: Frame, n: nat)
    requires Disjoint(rest + [f], n)
    ensures f.base + f.count <= n
  {
    assert (rest + [f])[|rest|] == f;
  }

  lemma PartitionedBounds<T>(s: seq<T>, lo: int, x: int, y: int, hi: int, cmp: (T, T) -> int)
    requires 0 <= lo && hi <= |s| && Partitioned(s, lo, x, y, hi, cmp)
    ensures lo <= x < y <= hi
  {
  }

  lemma DepthsWeaken(frames: seq<Frame>, d: nat)
    requires Depths(frames, d) && d <= 50
    ensures Depths(frames, 50)
  {
  }

  /** An empty segment where a sorted one was. */
  lemma AddEmpty<T>(s: seq<T>, rest: seq<Frame>, f: Frame, cmp: (T, T) -> int)
    requires Ordered(s, rest, cmp) && Disjoint(rest + [f], |s|)
    ensures Ordered(s, rest + [Frame(f.base, 0, 50)], cmp) && Disjoint(rest + [Frame(f.base, 0, 50)], |s|)
  {
    var frames, before := rest + [Frame(f.base, 0, 50)], rest + [f];
    forall i, j | 0 <= i < j < |s|
      ensures cmp(s[i], s[j]) <= 0 || Together(frames, i, j)
    {
      if Together(rest, i, j) {
        var k :| 0 <= k < |rest| && Covers(rest[k], i, j);
        assert Covers(frames[k], i, j);
      }
    }
    assert before[|rest|] == f;
    forall k | 0 <= k < |frames|
      ensures frames[k].base + frames[k].count <= |s|
    {
      assert k < |rest| ==> before[k] == frames[k];
    }
    forall k, l | 0 <= k < l < |frames|
      ensures Apart(frames[k], frames[l])
    {
      assert Apart(before[k], before[l]);
    }
  }

  /** rqsort */
  method RqSort<T(!new)>(a: array<T>, cmp: (T, T) -> int)
    requires TotalPreorder(cmp)
    modifies a
    ensures multiset(a[..]) == multiset(old(a[..]))
    ensures Sorted(a[..], 0, a.Length, cmp)
  {
    hide TotalPreorder, Permuted, Ordered, Disjoint, Depths, Weight;
    ghost var s0 := a[..];
    PermutedSelf(s0, 0, a.Length);
    if a.Length < 2 {
      return;
    }
    var stack := new Frame[50](k => Frame(0, 0, 0));
    stack[0] := Frame(0, a.Length, 0);
    var sp: nat := 1;
    assert stack[..1] == [Frame(0, a.Length, 0)];
    FirstSegment(a[..], cmp);
    while sp > 0
      invariant sp <= 50 && Permuted(a[..], s0, 0, a.Length)
      invariant Ordered(a[..], stack[..sp], cmp) && Disjoint(stack[..sp], a.Length)
      invariant Depths(stack[..sp], 50) || stack[..sp] == [Frame(0, a.Length, 0)]
      decreases Weight(stack[..sp])
    {
      ghost var s, frames := a[..], stack[..sp];
      sp := sp - 1;
      var f := stack[sp];
      assert frames == stack[..sp] + [f];
      WeightPush(stack[..sp], f);
      PopDepths(frames, a.Length);
      assert frames[..sp] == stack[..sp];
      var f1;
      sp, f1 := PartitionLoop(a, stack, sp, f, cmp);
      PermutedTrans(a[..], s, s0, 0, a.Length);
      s := a[..];
      ShortStep(a, stack[..sp], f1, cmp);
      PermutedTrans(a[..], s, s0, 0, a.Length);
    }
    AllOrdered(a[..], s0, stack[..sp], cmp);
  }

  lemma FirstSegment<T>(s: seq<T>, cmp: (T, T) -> int)
    ensures Ordered(s, [Frame(0, |s|, 0)], cmp) && Disjoint([Frame(0, |s|, 0)], |s|)
  {
    var frames := [Frame(0, |s|, 0)];
    forall i, j | 0 <= i < j < |s|
      ensures Together(frames, i, j)
    {
      assert Covers(frames[0], i, j);
    }
  }

  lemma PopDepths(frames: seq<Frame>, n: nat)
    requires frames != [] && (Depths(frames, 50) || frames == [Frame(0, n, 0)])
    ensures Depths(frames[..|frames| - 1], frames[|frames| - 1].depth) && frames[|frames| - 1].depth <= 50
  {
    if Depths(frames, 50) { DepthsPop(frames, 50); }
  }

  lemma AllOrdered<T>(s: seq<T>, s0: seq<T>, frames: seq<Frame>, cmp: (T, T) -> int)
    requires frames == [] && Ordered(s, frames, cmp) && Permuted(s, s0, 0, |s|)
    ensures multiset(s) == multiset(s0) && Sorted(s, 0, |s|, cmp)
  {
    assert s[0..|s|] == s && s0[0..|s0|] == s0;
  }
}
