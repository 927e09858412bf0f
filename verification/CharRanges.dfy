/** CharRange: sets of code points as lists of points (libunicode.h, libunicode.c). */
module CharRanges {
  import opened Words
  import opened CharPoints

  // --- how many points have been passed ---

  /** How many points are at most c. */
  function Count(s: seq<nat>, c: nat): nat {
    if s == [] then 0 else Count(s[..|s| - 1], c) + if s[|s| - 1] <= c then 1 else 0
  }

  lemma CountSnoc(s: seq<nat>, v: nat, c: nat)
    ensures Count(s + [v], c) == Count(s, c) + if v <= c then 1 else 0
  {
    assert (s + [v])[..|s|] == s;
  }

  lemma {:induction false} CountSplits(s: seq<nat>, c: nat)
    requires Rising(s)
    ensures Count(s, c) <= |s|
    ensures forall k :: 0 <= k < |s| ==> (s[k] <= c <==> k < Count(s, c))
  {
    if s != [] {
      var n := |s| - 1;
      CountSplits(s[..n], c);
      forall k | 0 <= k < |s|
        ensures s[k] <= c <==> k < Count(s, c)
      {
        if k < n { assert s[..n][k] == s[k]; }
        if n > 0 { assert s[..n][n - 1] <= s[n]; }
      }
    }
  }

  lemma CountAll(s: seq<nat>, c: nat)
    requires Rising(s) && (s != [] ==> s[|s| - 1] <= c)
    ensures Count(s, c) == |s|
  {
    CountSplits(s, c);
  }

  /** Inside a set, an odd number of points has been passed. */
  lemma ContainsIsOdd(s: seq<nat>, c: nat)
    requires Ranges(s)
    ensures Contains(s, c) <==> Count(s, c) % 2 == 1
  {
    CountSplits(s, c);
    var k := Count(s, c);
    if k % 2 == 1 { assert s[k - 1] <= c < s[k - 1 + 1]; }
    if Contains(s, c) {
      var i :| 0 <= i < |s| - 1 && i % 2 == 0 && s[i] <= c < s[i + 1];
      assert k == i + 1;
    }
  }

  /** One more interval. */
  lemma ContainsMore(s: seq<nat>, a: nat, b: nat, c: nat)
    requires Even(s)
    ensures Contains(s + [a, b], c) <==> Contains(s, c) || a <= c < b
  {
    var t := s + [a, b];
    if Contains(s, c) {
      var i :| 0 <= i < |s| - 1 && i % 2 == 0 && s[i] <= c < s[i + 1];
      assert t[i] == s[i] && t[i + 1] == s[i + 1];
    }
    if a <= c < b { assert t[|s|] == a && t[|s| + 1] == b; }
    if Contains(t, c) {
      var i :| 0 <= i < |t| - 1 && i % 2 == 0 && t[i] <= c < t[i + 1];
      if i < |s| - 1 { assert s[i] == t[i] && s[i + 1] == t[i + 1]; }
    }
  }

  /** The intervals before the one that starts at i. */
  lemma ContainsNext(s: seq<nat>, i: nat, c: nat)
    requires i % 2 == 0 && i + 1 < |s|
    ensures Contains(s[..i + 2], c) <==> Contains(s[..i], c) || s[i] <= c < s[i + 1]
  {
    assert s[..i + 2] == s[..i] + [s[i], s[i + 1]];
    ContainsMore(s[..i], s[i], s[i + 1], c);
  }

  // --- canonical lists are unique ---

  /** The first interval, and the others. */
  lemma ContainsFirst(s: seq<nat>, c: nat)
    requires |s| >= 2
    ensures Contains(s, c) <==> s[0] <= c < s[1] || Contains(s[2..], c)
  {
    if Contains(s, c) {
      var i :| 0 <= i < |s| - 1 && i % 2 == 0 && s[i] <= c < s[i + 1];
      if i >= 2 { assert s[2..][i - 2] == s[i] && s[2..][i - 1] == s[i + 1]; }
    }
    if Contains(s[2..], c) {
      var i :| 0 <= i < |s[2..]| - 1 && i % 2 == 0 && s[2..][i] <= c < s[2..][i + 1];
      assert s[i + 2] == s[2..][i] && s[i + 3] == s[2..][i + 1];
    }
  }

  /** The later intervals are above the first one. */
  lemma LaterAbove(s: seq<nat>, c: nat)
    requires Canonical(s) && |s| >= 2
    ensures Contains(s[2..], c) ==> c > s[1]
  {
  }

  /** Equal sets have equal canonical lists. */
  lemma {:induction false} CanonicalUnique(s: seq<nat>, t: seq<nat>)
    requires Canonical(s) && Canonical(t)
    requires forall c: nat :: Contains(s, c) <==> Contains(t, c)
    ensures s == t
    decreases |s|
  {
    if s == [] || t == [] {
      if s != [] { NoMembers(s, t); }
      if t != [] { NoMembers(t, s); }
    } else {
      SameFirst(s, t);
      SameFirst(t, s);
      forall c: nat
        ensures Contains(s[2..], c) <==> Contains(t[2..], c)
      {
        ContainsFirst(s, c);
        ContainsFirst(t, c);
        LaterAbove(s, c);
        LaterAbove(t, c);
        hide Contains;
      }
      CanonicalUnique(s[2..], t[2..]);
      assert s == [s[0], s[1]] + s[2..] && t == [t[0], t[1]] + t[2..];
    }
  }

  lemma NoMembers(s: seq<nat>, t: seq<nat>)
    requires Canonical(s) && s != [] && forall c: nat :: Contains(s, c) <==> Contains(t, c)
    ensures t != []
  {
    assert s[0] <= s[0] < s[1];
    assert Contains(s, s[0]);
  }

  lemma SameFirst(s: seq<nat>, t: seq<nat>)
    requires Canonical(s) && Canonical(t) && s != [] && t != []
    requires forall c: nat :: Contains(s, c) <==> Contains(t, c)
    ensures t[0] <= s[0] && (t[0] == s[0] ==> s[1] <= t[1])
  {
    ContainsFirst(t, s[0]);
    LaterAbove(t, s[0]);
    ContainsFirst(s, s[0]);
    ContainsFirst(s, t[1]);
    ContainsFirst(t, t[1]);
    LaterAbove(t, t[1]);
    hide Contains;
  }

  // --- set operations ---

  /** CR_OP_UNION, CR_OP_INTER, CR_OP_XOR */
  datatype Op = Union | Inter | Xor

  predicate Combine(op: Op, x: bool, y: bool) {
    match op
    case Union => x || y
    case Inter => x && y
    case Xor => x != y
  }

  predicate Odd(n: nat) {
    n % 2 == 1
  }

  /** What cr_op has done with the points before i of a and before j of b, all of them at most v:
      the points put out enclose the result of the operation. */
  ghost predicate Merged(a: seq<nat>, i: nat, b: seq<nat>, j: nat, out: seq<nat>, v: nat, op: Op) {
    i <= |a| && j <= |b| && Rising(out) &&
    (forall k :: 0 <= k < i ==> a[k] <= v) && (forall k :: 0 <= k < j ==> b[k] <= v) && (forall k :: 0 <= k < |out| ==> out[k] <= v) &&
    (forall k :: i <= k < |a| ==> a[k] >= v) && (forall k :: j <= k < |b| ==> b[k] >= v) &&
    Odd(|out|) == Combine(op, Odd(i), Odd(j)) &&
    forall c: nat :: Odd(Count(out, c)) == Combine(op, Odd(Count(a[..i], c)), Odd(Count(b[..j], c)))
  }

  /** Taking the next point w, from a, from b or from both. */
  ghost predicate Takes(s: seq<nat>, i: nat, w: nat, i1: nat) {
    Rising(s) && i <= i1 <= |s| && (i1 == i || (i1 == i + 1 && s[i] == w)) && (i1 == i && i < |s| ==> w < s[i])
  }

  lemma MergeNext(a: seq<nat>, i: nat, b: seq<nat>, j: nat, out: seq<nat>, v: nat, op: Op, w: nat, i1: nat, j1: nat, out1: seq<nat>)
    requires Merged(a, i, b, j, out, v, op) && Takes(a, i, w, i1) && Takes(b, j, w, j1) && i + j < i1 + j1
    requires out1 == if Combine(op, Odd(i1), Odd(j1)) != Odd(|out|) then out + [w] else out
    ensures Merged(a, i1, b, j1, out1, w, op)
  {
    assert v <= w;
    forall c: nat
      ensures Odd(Count(out1, c)) == Combine(op, Odd(Count(a[..i1], c)), Odd(Count(b[..j1], c)))
    {
      MergeCount(a, i, b, j, out, v, op, w, i1, j1, out1, c);
    }
    hide Count;
  }

  lemma MergeCount(a: seq<nat>, i: nat, b: seq<nat>, j: nat, out: seq<nat>, v: nat, op: Op, w: nat, i1: nat, j1: nat, out1: seq<nat>, c: nat)
    requires Merged(a, i, b, j, out, v, op) && Takes(a, i, w, i1) && Takes(b, j, w, j1) && i + j < i1 + j1 && v <= w
    requires out1 == if Combine(op, Odd(i1), Odd(j1)) != Odd(|out|) then out + [w] else out
    ensures Odd(Count(out1, c)) == Combine(op, Odd(Count(a[..i1], c)), Odd(Count(b[..j1], c)))
  {
    hide Combine, Count;
    if w <= c {
      AllTaken(a, i, v, w, i1, c);
      AllTaken(b, j, v, w, j1, c);
      AllPut(out, v, w, out1, c);
      MergeParity(a, i, b, j, out, v, op, w, i1, j1, out1);
    } else {
      NoneTaken(a, i, w, i1, c);
      NoneTaken(b, j, w, j1, c);
      CountSnoc(out, w, c);
      MergedAt(a, i, b, j, out, v, op, c);
    }
  }

  lemma AllTaken(s: seq<nat>, i: nat, v: nat, w: nat, i1: nat, c: nat)
    requires Takes(s, i, w, i1) && (forall k :: 0 <= k < i ==> s[k] <= v) && v <= w <= c
    ensures Count(s[..i1], c) == i1
  {
    CountAll(s[..i1], c);
    hide Count;
  }

  lemma NoneTaken(s: seq<nat>, i: nat, w: nat, i1: nat, c: nat)
    requires Takes(s, i, w, i1) && c < w
    ensures Count(s[..i1], c) == Count(s[..i], c)
  {
    hide Count;
    if i1 > i { TakeCount(s, i, c); }
  }

  lemma AllPut(out: seq<nat>, v: nat, w: nat, out1: seq<nat>, c: nat)
    requires Rising(out) && (forall k :: 0 <= k < |out| ==> out[k] <= v) && v <= w <= c && (out1 == out || out1 == out + [w])
    ensures Count(out1, c) == |out1|
  {
    CountAll(out1, c);
    hide Count;
  }

  lemma MergedAt(a: seq<nat>, i: nat, b: seq<nat>, j: nat, out: seq<nat>, v: nat, op: Op, c: nat)
    requires Merged(a, i, b, j, out, v, op)
    ensures Odd(Count(out, c)) == Combine(op, Odd(Count(a[..i], c)), Odd(Count(b[..j], c)))
  {
  }

  lemma MergeParity(a: seq<nat>, i: nat, b: seq<nat>, j: nat, out: seq<nat>, v: nat, op: Op, w: nat, i1: nat, j1: nat, out1: seq<nat>)
    requires Merged(a, i, b, j, out, v, op)
    requires out1 == if Combine(op, Odd(i1), Odd(j1)) != Odd(|out|) then out + [w] else out
    ensures Odd(|out1|) == Combine(op, Odd(i1), Odd(j1))
  {
  }

  lemma TakeCount(s: seq<nat>, i: nat, c: nat)
    requires i < |s|
    ensures Count(s[..i + 1], c) == Count(s[..i], c) + if s[i] <= c then 1 else 0
  {
    assert s[..i + 1] == s[..i] + [s[i]];
    CountSnoc(s[..i], s[i], c);
  }

  class CharRange {
    var points: seq<nat>

    constructor ()
      ensures points == []
    {
      points := [];
    }

    /** cr_add_point */
    method AddPoint(v: nat)
      modifies this
      ensures points == old(points) + [v]
    {
      points := points + [v];
    }

    /** cr_add_interval */
    method AddInterval(c1: nat, c2: nat)
      modifies this
      ensures points == old(points) + [c1, c2]
    {
      points := points + [c1];
      points := points + [c2];
    }

    /** cr_compress: drops empty intervals and joins touching ones, in place. */
    method Compress()
      requires Ranges(points)
      modifies this
      ensures Canonical(points)
      ensures forall c: nat :: Contains(points, c) <==> Contains(old(points), c)
    {
      hide Contains, Compressing, JoinedUpTo, Strict, Rising;
      ghost var s := points;
      var len := |points|;
      var i, k: nat := 0, 0;
      NothingCompressed(s);
      while i + 1 < len
        invariant i <= len == |points| && i % 2 == 0 && k % 2 == 0 && k <= i
        invariant points[i..] == s[i..] && Compressing(s, i, points[..k])
        decreases len - i
      {
        Unread(points, s, i);
        if points[i] == points[i + 1] {
          SkipEmpty(s, i, points[..k]);
          i := i + 2;
        } else {
          var j := i;
          ghost var before := points;
          JoinsItself(s, i);
          while j + 3 < len && points[j + 1] == points[j + 2]
            invariant points == before && i <= j && j + 1 < len && j % 2 == 0 && JoinedUpTo(s, i, j)
            decreases len - j
          {
            JoinsNext(s, i, j);
            j := j + 2;
          }
          CopyJoined(s, i, j, points[..k]);
          k := CopyInterval(i, j, k);
          i := j + 2;
        }
      }
      points := points[..k];
      AllCompressed(s, i, points);
    }

    /** pt[k] = pt[i], pt[k + 1] = pt[j + 1] */
    method CopyInterval(i: nat, j: nat, k0: nat) returns (k: nat)
      requires k0 <= i <= j && j + 1 < |points|
      modifies this
      ensures k == k0 + 2 && |points| == |old(points)| && points[..k] == old(points)[..k0] + [old(points)[i], old(points)[j + 1]]
      ensures points[j + 2..] == old(points)[j + 2..]
    {
      points := points[k0 := points[i]];
      points := points[k0 + 1 := points[j + 1]];
      k := k0 + 2;
    }

    /** cr_op */
    method Apply(a: seq<nat>, b: seq<nat>, op: Op)
      requires Ranges(a) && Ranges(b) && points == []
      modifies this
      ensures Canonical(points)
      ensures op == Union ==> forall c: nat :: Contains(points, c) <==> Contains(a, c) || Contains(b, c)
      ensures op == Inter ==> forall c: nat :: Contains(points, c) <==> Contains(a, c) && Contains(b, c)
      ensures op == Xor ==> forall c: nat :: Contains(points, c) <==> Contains(a, c) != Contains(b, c)
    {
      hide Count, Contains, Merged, Strict;
      var i, j: nat := 0, 0;
      ghost var v := 0;
      NothingMerged(a, b, op);
      while i < |a| || j < |b|
        invariant i <= |a| && j <= |b| && Merged(a, i, b, j, points, v, op)
        decreases |a| - i + |b| - j
      {
        var w;
        ghost var i0, j0, out := i, j, points;
        if i < |a| && j < |b| {
          if a[i] < b[j] {
            w := a[i];
            i := i + 1;
          } else if a[i] == b[j] {
            w := a[i];
            i := i + 1;
            j := j + 1;
          } else {
            w := b[j];
            j := j + 1;
          }
        } else if i < |a| {
          w := a[i];
          i := i + 1;
        } else {
          w := b[j];
          j := j + 1;
        }
        var isIn := Combine(op, i % 2 == 1, j % 2 == 1);
        if isIn != (|points| % 2 == 1) {
          AddPoint(w);
        }
        MergeNext(a, i0, b, j0, out, v, op, w, i, j, points);
        v := w;
      }
      AllMerged(a, b, points, v, op);
      Compress();
    }

    /** cr_union1 */
    method UnionWith(b: seq<nat>)
      requires Ranges(points) && Ranges(b)
      modifies this
      ensures Canonical(points)
      ensures forall c: nat :: Contains(points, c) <==> Contains(old(points), c) || Contains(b, c)
    {
      hide Contains;
      var a := points;
      points := [];
      Apply(a, b, Union);
    }

    /** cr_union_interval */
    method UnionInterval(c1: nat, c2: nat)
      requires Ranges(points) && c1 <= c2 < UINT32_MAX
      modifies this
      ensures Canonical(points)
      ensures forall c: nat :: Contains(points, c) <==> Contains(old(points), c) || c1 <= c <= c2
    {
      var b := [c1, c2 + 1];
      UnionWith(b);
      forall c: nat
        ensures Contains(b, c) <==> c1 <= c <= c2
      {
        ContainsMore([], c1, c2 + 1, c);
        assert [] + b == b;
      }
      hide Contains;
    }

    /** cr_invert */
    method Invert()
      requires Ranges(points) && forall k :: 0 <= k < |points| ==> points[k] <= UINT32_MAX
      modifies this
      ensures IsInverse(points, old(points)) && forall k :: 0 <= k < |points| ==> points[k] <= UINT32_MAX
    {
      ghost var s := points;
      points := [0] + points + [UINT32_MAX];
      InvertedRanges(s);
      forall c: nat
        ensures Contains(points, c) <==> c < UINT32_MAX && !Contains(s, c)
      {
        Inverted(s, c);
      }
      ghost var t := points;
      Compress();
      Bounded(points, t, UINT32_MAX);
      hide Contains;
    }
  }

  // --- cr_compress ---

  /** The intervals of s before i have been compressed to `out`, which ends before s[i]. */
  ghost predicate Compressing(s: seq<nat>, i: nat, out: seq<nat>) {
    i <= |s| && i % 2 == 0 && Canonical(out) && (out != [] && i < |s| ==> out[|out| - 1] < s[i]) &&
    forall c: nat :: Contains(out, c) <==> Contains(s[..i], c)
  }

  lemma SkipEmpty(s: seq<nat>, i: nat, out: seq<nat>)
    requires Ranges(s) && i + 1 < |s| && Compressing(s, i, out) && s[i] == s[i + 1]
    ensures Compressing(s, i + 2, out)
  {
    forall c: nat
      ensures Contains(out, c) <==> Contains(s[..i + 2], c)
    {
      ContainsNext(s, i, c);
    }
  }

  /** The intervals from i to j touch one another. */
  ghost predicate JoinedUpTo(s: seq<nat>, i: nat, j: nat) {
    i % 2 == 0 && j % 2 == 0 && j + 1 < |s| &&
    (i == j || (i + 2 <= j && s[j - 1] == s[j] && JoinedUpTo(s, i, j - 2)))
  }

  lemma {:induction false} JoinedContains(s: seq<nat>, i: nat, j: nat, c: nat)
    requires Rising(s) && JoinedUpTo(s, i, j)
    ensures Contains(s[..j + 2], c) <==> Contains(s[..i], c) || s[i] <= c < s[j + 1]
    decreases j
  {
    ContainsNext(s, j, c);
    if j > i {
      JoinedContains(s, i, j - 2, c);
    }
  }

  lemma CopyJoined(s: seq<nat>, i: nat, j: nat, out: seq<nat>)
    requires Ranges(s) && Compressing(s, i, out) && JoinedUpTo(s, i, j) && s[i] != s[i + 1]
    requires j + 3 < |s| ==> s[j + 1] != s[j + 2]
    ensures Compressing(s, j + 2, out + [s[i], s[j + 1]])
  {
    var t, u := out + [s[i], s[j + 1]], s[..j + 2];
    forall c: nat
      ensures Contains(t, c) <==> Contains(u, c)
    {
      JoinedContains(s, i, j, c);
      ContainsMore(out, s[i], s[j + 1], c);
    }
    assert s[i] < s[i + 1] <= s[j + 1];
    hide Contains;
  }

  lemma NothingCompressed(s: seq<nat>)
    ensures Compressing(s, 0, [])
  {
  }

  lemma AllCompressed(s: seq<nat>, i: nat, out: seq<nat>)
    requires Ranges(s) && Compressing(s, i, out) && i + 1 >= |s|
    ensures Canonical(out) && forall c: nat :: Contains(out, c) <==> Contains(s, c)
  {
    assert s[..i] == s;
    hide Contains;
  }

  lemma Unread(now: seq<nat>, s: seq<nat>, i: nat)
    requires i <= |now| == |s| && now[i..] == s[i..]
    ensures forall k :: i <= k < |s| ==> now[k] == s[k]
  {
    forall k | i <= k < |s|
      ensures now[k] == s[k]
    {
      assert now[i..][k - i] == s[i..][k - i];
    }
  }

  lemma JoinsItself(s: seq<nat>, i: nat)
    requires i % 2 == 0 && i + 1 < |s|
    ensures JoinedUpTo(s, i, i)
  {
  }

  lemma JoinsNext(s: seq<nat>, i: nat, j: nat)
    requires JoinedUpTo(s, i, j) && i <= j && j + 3 < |s| && s[j + 1] == s[j + 2]
    ensures JoinedUpTo(s, i, j + 2)
  {
  }

  // --- cr_op ---

  lemma NothingMerged(a: seq<nat>, b: seq<nat>, op: Op)
    ensures Merged(a, 0, b, 0, [], 0, op)
  {
    assert a[..0] == [] && b[..0] == [];
  }

  lemma AllMerged(a: seq<nat>, b: seq<nat>, out: seq<nat>, v: nat, op: Op)
    requires Ranges(a) && Ranges(b) && Merged(a, |a|, b, |b|, out, v, op)
    ensures Ranges(out)
    ensures forall c: nat :: Contains(out, c) <==> Combine(op, Contains(a, c), Contains(b, c))
  {
    hide Contains, Count;
    assert a[..|a|] == a && b[..|b|] == b;
    forall c: nat
      ensures Contains(out, c) <==> Combine(op, Contains(a, c), Contains(b, c))
    {
      ContainsIsOdd(out, c);
      ContainsIsOdd(a, c);
      ContainsIsOdd(b, c);
    }
  }

  // --- cr_invert ---

  lemma InvertedRanges(s: seq<nat>)
    requires Ranges(s) && forall k :: 0 <= k < |s| ==> s[k] <= UINT32_MAX
    ensures Ranges([0] + s + [UINT32_MAX])
  {
  }

  lemma {:induction false} CountCons(v: nat, s: seq<nat>, c: nat)
    ensures Count([v] + s, c) == Count(s, c) + if v <= c then 1 else 0
  {
    if s == [] {
      CountSnoc([], v, c);
      assert [] + [v] == [v] + s;
    } else {
      var n := |s| - 1;
      CountCons(v, s[..n], c);
      assert ([v] + s)[..n + 1] == [v] + s[..n];
    }
  }

  lemma Inverted(s: seq<nat>, c: nat)
    requires Ranges(s) && forall k :: 0 <= k < |s| ==> s[k] <= UINT32_MAX
    ensures Contains([0] + s + [UINT32_MAX], c) <==> c < UINT32_MAX && !Contains(s, c)
  {
    var t := [0] + s + [UINT32_MAX];
    InvertedRanges(s);
    ContainsIsOdd(t, c);
    ContainsIsOdd(s, c);
    CountSnoc([0] + s, UINT32_MAX, c);
    CountCons(0, s, c);
    if c >= UINT32_MAX { CountAll(s, c); }
    hide Contains, Count;
  }

  /** Compressing does not make the points larger. */
  lemma Bounded(s: seq<nat>, t: seq<nat>, limit: nat)
    requires Canonical(s) && (forall c: nat :: Contains(s, c) <==> Contains(t, c)) && forall k :: 0 <= k < |t| ==> t[k] <= limit
    ensures forall k :: 0 <= k < |s| ==> s[k] <= limit
  {
    if s != [] {
      var n := |s| - 2;
      assert s[n] < s[n + 1];
      var c: nat := s[n + 1] - 1;
      assert s[n] <= c < s[n + 1];
      assert Contains(s, c);
      assert Contains(t, c);
    }
  }

  /** t is what cr_invert makes of s. */
  ghost predicate IsInverse(t: seq<nat>, s: seq<nat>) {
    Canonical(t) && forall c: nat :: Contains(t, c) <==> c < 0xffff_ffff && !Contains(s, c)
  }

  /** Inverting twice gives back a canonical list. */
  lemma InvertTwice(s: seq<nat>, t: seq<nat>, u: seq<nat>)
    requires Canonical(s) && (forall k :: 0 <= k < |s| ==> s[k] <= UINT32_MAX) && IsInverse(t, s) && IsInverse(u, t)
    ensures u == s
  {
    BelowLimit(s, UINT32_MAX);
    hide Contains;
    CanonicalUnique(u, s);
  }

  lemma StrictRises(s: seq<nat>)
    requires Canonical(s)
    ensures Ranges(s)
  {
  }

  lemma BelowLimit(s: seq<nat>, limit: nat)
    requires forall k :: 0 <= k < |s| ==> s[k] <= limit
    ensures forall c: nat :: Contains(s, c) ==> c < limit
  {
  }
}
