/** sort_cc and to_nfd_rec: the Canonical Ordering Algorithm (section 3.11 of The Unicode
    Standard) and decomposition (libunicode.c). Combining classes and decompositions are
    parameters. */
module CharNormal {
  import opened SortOrder

  // --- canonical ordering ---

  /** Within runs of nonzero classes, classes do not decrease. */
  ghost predicate InOrder(s: seq<nat>, cc: nat -> nat) {
    forall k :: 0 < k < |s| ==> cc(s[k]) == 0 || cc(s[k - 1]) <= cc(s[k])
  }

  /** The starters and the code points of class v, in order. */
  function Project(s: seq<nat>, v: nat, cc: nat -> nat): seq<nat> {
    if s == [] then []
    else if cc(s[0]) == 0 || cc(s[0]) == v then [s[0]] + Project(s[1..], v, cc)
    else Project(s[1..], v, cc)
  }

  /** t is s with code points of different nonzero classes reordered between starters. */
  ghost predicate Reordered(t: seq<nat>, s: seq<nat>, cc: nat -> nat) {
    forall v: nat :: Project(t, v, cc) == Project(s, v, cc)
  }

  lemma {:induction false} ProjectAppend(a: seq<nat>, b: seq<nat>, v: nat, cc: nat -> nat)
    ensures Project(a + b, v, cc) == Project(a, v, cc) + Project(b, v, cc)
  {
    if a == [] {
      assert a + b == b;
    } else {
      assert (a + b)[1..] == a[1..] + b;
      ProjectAppend(a[1..], b, v, cc);
    }
  }

  /** Exchanging neighbours of different nonzero classes. */
  lemma NeighboursExchanged(s: seq<nat>, k: nat, cc: nat -> nat)
    requires k + 1 < |s| && cc(s[k]) != cc(s[k + 1]) && cc(s[k]) != 0 && cc(s[k + 1]) != 0
    ensures Reordered(Exchanged(s, k, k + 1), s, cc)
  {
    var t := Exchanged(s, k, k + 1);
    var a, x, y, b := s[..k], s[k], s[k + 1], s[k + 2..];
    assert s == a + ([x, y] + b) && t == a + ([y, x] + b);
    forall v: nat
      ensures Project(t, v, cc) == Project(s, v, cc)
    {
      ProjectAppend(a, [x, y] + b, v, cc);
      ProjectAppend(a, [y, x] + b, v, cc);
      ProjectTwo(x, y, b, v, cc);
      ProjectTwo(y, x, b, v, cc);
      hide Project;
    }
  }

  lemma ProjectTwo(x: nat, y: nat, b: seq<nat>, v: nat, cc: nat -> nat)
    requires cc(x) != 0 && cc(y) != 0 && cc(x) != cc(y)
    ensures Project([x, y] + b, v, cc) == (if cc(x) == v then [x] else if cc(y) == v then [y] else []) + Project(b, v, cc)
  {
    assert ([x, y] + b)[1..] == [y] + b && ([y] + b)[1..] == b;
  }

  /** The first code point of a projection says something about the first of all. */
  lemma {:induction false} FirstOfProject(s: seq<nat>, v: nat, cc: nat -> nat)
    requires InOrder(s, cc) && Project(s, v, cc) != [] && cc(Project(s, v, cc)[0]) == v && v > 0
    ensures s != [] && 0 < cc(s[0]) <= v
  {
    if cc(s[0]) != v {
      assert InOrder(s[1..], cc) by { OrderTail(s, cc); }
      FirstOfProject(s[1..], v, cc);
      assert s[1..][0] == s[1];
    }
  }

  lemma OrderTail(s: seq<nat>, cc: nat -> nat)
    requires InOrder(s, cc) && s != []
    ensures InOrder(s[1..], cc)
  {
    forall k | 0 < k < |s[1..]|
      ensures cc(s[1..][k]) == 0 || cc(s[1..][k - 1]) <= cc(s[1..][k])
    {
      assert s[1..][k] == s[k + 1] && s[1..][k - 1] == s[k];
    }
  }

  lemma SameStart(t: seq<nat>, u: seq<nat>, cc: nat -> nat)
    requires InOrder(t, cc) && InOrder(u, cc) && Reordered(t, u, cc) && t != []
    ensures u != [] && cc(u[0]) <= cc(t[0]) && (cc(u[0]) == cc(t[0]) ==> u[0] == t[0])
  {
    var v := cc(t[0]);
    assert Project(t, v, cc)[0] == t[0];
    assert Project(u, v, cc) == Project(t, v, cc);
    if v > 0 {
      FirstOfProject(u, v, cc);
    } else if u != [] {
      assert Project(u, cc(u[0]), cc) == Project(t, cc(u[0]), cc);
    }
  }

  /** There is only one canonical order. */
  lemma {:induction false} OrderUnique(t: seq<nat>, u: seq<nat>, cc: nat -> nat)
    requires InOrder(t, cc) && InOrder(u, cc) && Reordered(t, u, cc)
    ensures t == u
    decreases |t|
  {
    if t == [] {
      if u != [] { SameStart(u, t, cc); }
    } else {
      SameStart(t, u, cc);
      SameStart(u, t, cc);
      OrderTail(t, cc);
      OrderTail(u, cc);
      forall v: nat
        ensures Project(t[1..], v, cc) == Project(u[1..], v, cc)
      {
        assert Project(t, v, cc) == Project(u, v, cc);
        if cc(t[0]) == 0 || cc(t[0]) == v {
          assert Project(t, v, cc)[1..] == Project(t[1..], v, cc);
          assert Project(u, v, cc)[1..] == Project(u[1..], v, cc);
        }
      }
      OrderUnique(t[1..], u[1..], cc);
      assert t == [t[0]] + t[1..] && u == [u[0]] + u[1..];
    }
  }

  // --- sort_cc ---

  /** Starters stay where they are. */
  ghost predicate StartersStay(t: seq<nat>, s: seq<nat>, cc: nat -> nat) {
    |t| == |s| && forall k :: 0 <= k < |s| ==> (cc(t[k]) == 0 <==> cc(s[k]) == 0) && (cc(s[k]) == 0 ==> t[k] == s[k])
  }

  /** What sort_cc may have done to s. */
  ghost predicate Sorting(t: seq<nat>, s: seq<nat>, cc: nat -> nat) {
    StartersStay(t, s, cc) && Reordered(t, s, cc) && multiset(t) == multiset(s)
  }

  lemma SortingStep(t: seq<nat>, s: seq<nat>, k: nat, cc: nat -> nat)
    requires Sorting(t, s, cc) && k + 1 < |t| && cc(t[k]) > cc(t[k + 1]) > 0
    ensures Sorting(Exchanged(t, k, k + 1), s, cc)
  {
    NeighboursExchanged(t, k, cc);
    ExchangeMultiset(t, k, k + 1);
    hide Project;
  }

  /** The classes from `start` to `end` are nonzero and do not decrease. */
  ghost predicate SortedRun(s: seq<nat>, start: nat, end: nat, cc: nat -> nat) {
    end <= |s| && (forall k :: start <= k < end ==> cc(s[k]) != 0) && forall k :: start < k < end ==> cc(s[k - 1]) <= cc(s[k])
  }

  /** Moves the code point at j down into the sorted run before it. */
  method InsertByClass(buf: array<nat>, start: nat, j: nat, cc: nat -> nat, ghost s0: seq<nat>)
    requires start < j < buf.Length && cc(buf[j]) != 0 && SortedRun(buf[..], start, j, cc) && Sorting(buf[..], s0, cc)
    modifies buf
    ensures SortedRun(buf[..], start, j + 1, cc) && Sorting(buf[..], s0, cc)
    ensures buf[..start] == old(buf[..start]) && buf[j + 1..] == old(buf[j + 1..])
  {
    hide Sorting, Inserting;
    ghost var was, now := buf[..], buf[..];
    var ch1 := buf[j];
    var cc1 := cc(ch1);
    var k: int := j - 1;
    InsertStarts(now, s0, start, j, cc);
    assert now == buf[..][j := ch1];
    while k >= start
      invariant start - 1 <= k < j && now == buf[..][k + 1 := ch1] && Inserting(now, s0, was, start, k, j, cc)
    {
      if cc(buf[k]) <= cc1 {
        break;
      }
      assert now[k] == buf[k] && now[k + 1] == ch1;
      InsertStep(now, s0, was, start, k, j, cc);
      now := Exchanged(now, k, k + 1);
      buf[k + 1] := buf[k];
      k := k - 1;
    }
    buf[k + 1] := ch1;
    InsertEnds(now, s0, was, start, k, j, cc);
  }

  /** The code point that is inserted stands at k + 1: the run is sorted but for it and k. */
  ghost predicate Inserting(now: seq<nat>, s0: seq<nat>, was: seq<nat>, start: nat, k: int, j: nat, cc: nat -> nat) {
    start - 1 <= k < j < |now| == |was| && Sorting(now, s0, cc) && now[..start] == was[..start] && now[j + 1..] == was[j + 1..] &&
    SortedRun(now, start, k + 1, cc) && SortedRun(now, k + 1, j + 1, cc) && (k + 2 <= j && k >= start ==> cc(now[k]) <= cc(now[k + 2]))
  }

  lemma InsertStarts(now: seq<nat>, s0: seq<nat>, start: nat, j: nat, cc: nat -> nat)
    requires start < j < |now| && cc(now[j]) != 0 && SortedRun(now, start, j, cc) && Sorting(now, s0, cc)
    ensures Inserting(now, s0, now, start, j - 1, j, cc)
  {
  }

  lemma InsertStep(now: seq<nat>, s0: seq<nat>, was: seq<nat>, start: nat, k: int, j: nat, cc: nat -> nat)
    requires Inserting(now, s0, was, start, k, j, cc) && k >= start && cc(now[k]) > cc(now[k + 1])
    ensures Inserting(Exchanged(now, k, k + 1), s0, was, start, k - 1, j, cc)
  {
    SortingStep(now, s0, k, cc);
    var t := Exchanged(now, k, k + 1);
    hide Sorting;
    assert t[..start] == now[..start] && t[j + 1..] == now[j + 1..];
  }

  lemma InsertEnds(now: seq<nat>, s0: seq<nat>, was: seq<nat>, start: nat, k: int, j: nat, cc: nat -> nat)
    requires Inserting(now, s0, was, start, k, j, cc) && (k >= start ==> cc(now[k]) <= cc(now[k + 1]))
    ensures SortedRun(now, start, j + 1, cc) && Sorting(now, s0, cc) && now[..start] == was[..start] && now[j + 1..] == was[j + 1..]
  {
  }

  /** All before i is in order. */
  ghost predicate OrderedBefore(s: seq<nat>, i: nat, cc: nat -> nat) {
    i <= |s| && forall k :: 0 < k < i ==> cc(s[k]) == 0 || cc(s[k - 1]) <= cc(s[k])
  }

  /** sort_cc: the canonical order, stable, with all starters in place. */
  method SortCc(buf: array<nat>, cc: nat -> nat)
    modifies buf
    ensures InOrder(buf[..], cc) && Sorting(buf[..], old(buf[..]), cc)
  {
    ghost var s0 := buf[..];
    assert Sorting(buf[..], s0, cc);
    hide Sorting;
    var i := 0;
    while i < buf.Length
      invariant 0 <= i && Sorting(buf[..], s0, cc) && OrderedBefore(buf[..], if i <= buf.Length then i else buf.Length, cc)
      invariant 0 < i < buf.Length && cc(buf[i]) != 0 ==> cc(buf[i - 1]) == 0
      decreases buf.Length - i
    {
      if cc(buf[i]) != 0 {
        i := SortRun(buf, i, cc, s0);
      }
      i := i + 1;
    }
  }

  /** Sorts the run of nonzero classes that starts at `start`; returns its end. */
  method SortRun(buf: array<nat>, start: nat, cc: nat -> nat, ghost s0: seq<nat>) returns (j: nat)
    requires start < buf.Length && cc(buf[start]) != 0 && (start > 0 ==> cc(buf[start - 1]) == 0)
    requires OrderedBefore(buf[..], start, cc) && Sorting(buf[..], s0, cc)
    modifies buf
    ensures start < j <= buf.Length && Sorting(buf[..], s0, cc) && OrderedBefore(buf[..], j, cc) && (j < buf.Length ==> cc(buf[j]) == 0)
  {
    hide Sorting;
    ghost var was := buf[..];
    j := start + 1;
    while j < buf.Length
      invariant start < j <= buf.Length && Sorting(buf[..], s0, cc) && SortedRun(buf[..], start, j, cc) && buf[..start] == was[..start]
    {
      if cc(buf[j]) == 0 {
        break;
      }
      InsertByClass(buf, start, j, cc, s0);
      j := j + 1;
    }
    RunJoins(buf[..], was, start, j, cc);
  }

  lemma RunJoins(s: seq<nat>, was: seq<nat>, start: nat, j: nat, cc: nat -> nat)
    requires start < j <= |s| == |was| && SortedRun(s, start, j, cc) && s[..start] == was[..start]
    requires OrderedBefore(was, start, cc) && (start > 0 ==> cc(was[start - 1]) == 0)
    ensures OrderedBefore(s, j, cc)
  {
    assert forall k :: 0 <= k < start ==> s[k] == s[..start][k];
    assert forall k :: 0 <= k < start ==> was[k] == was[..start][k];
  }

  // --- to_nfd_rec ---

  predicate IsHangul(c: nat) {
    0xAC00 <= c < 0xD7A4
  }

  /** A table of decompositions, and how deep they go. */
  datatype Decompositions = Decompositions(table: map<nat, seq<nat>>, rank: nat -> nat)

  /** Decompositions go down, and do not take Hangul jamo apart or lead to Hangul syllables. */
  ghost predicate WellFounded(d: Decompositions) {
    && (forall c, k :: c in d.table && 0 <= k < |d.table[c]| ==> d.rank(d.table[c][k]) < d.rank(c))
    && (forall c :: 0x1100 <= c < 0x1200 ==> c !in d.table)
  }

  /** The jamo of a Hangul syllable. */
  function Jamo(c: nat): seq<nat>
    requires IsHangul(c)
  {
    var x := c - 0xAC00;
    [0x1100 + x / 588, 0x1161 + x % 588 / 28] + if x % 28 != 0 then [0x11A7 + x % 28] else []
  }

  /** The full decomposition of one code point and of several, all of a rank below the bound. */
  ghost function Full(d: Decompositions, c: nat): seq<nat>
    requires WellFounded(d)
    decreases d.rank(c), 1, 0
  {
    if IsHangul(c) then Jamo(c) else if c in d.table && d.table[c] != [] then FullAll(d, d.table[c], d.rank(c)) else [c]
  }

  /** A syllable of the l-th leading consonant, the v-th vowel and the t-th trailing consonant (none
      for t = 0) is decomposed into these (section 3.12 of The Unicode Standard). */
  lemma HangulDecomposed(d: Decompositions, l: nat, v: nat, t: nat)
    requires WellFounded(d) && l < 19 && v < 21 && t < 28
    ensures Full(d, 0xAC00 + (l * 21 + v) * 28 + t) == [0x1100 + l, 0x1161 + v] + if t == 0 then [] else [0x11A7 + t]
  {
    var x := (l * 21 + v) * 28 + t;
    assert x == l * 588 + (v * 28 + t);
    assert x / 588 == l && x % 588 == v * 28 + t && x % 588 / 28 == v;
    assert x % 28 == t;
  }

  /** Every syllable is of this form, and nothing else is decomposed but by the table. */
  lemma HangulParts(d: Decompositions, c: nat) returns (l: nat, v: nat, t: nat)
    requires WellFounded(d)
    ensures 0xAC00 <= c <= 0xD7A3 ==> l < 19 && v < 21 && t < 28 && c == 0xAC00 + (l * 21 + v) * 28 + t
    ensures !(0xAC00 <= c <= 0xD7A3) && c !in d.table ==> Full(d, c) == [c]
  {
    var x := if c >= 0xAC00 then c - 0xAC00 else 0;
    l, v, t := x / 588, x % 588 / 28, x % 28;
    assert x % 588 % 28 == x % 28;
  }

  ghost predicate RankBelow(d: Decompositions, s: seq<nat>, bound: nat) {
    forall k :: 0 <= k < |s| ==> d.rank(s[k]) < bound
  }

  ghost function FullAll(d: Decompositions, s: seq<nat>, bound: nat): seq<nat>
    requires WellFounded(d) && RankBelow(d, s, bound)
    decreases bound, 0, |s|
  {
    if s == [] then [] else Full(d, s[0]) + FullAll(d, s[1..], bound)
  }

  lemma {:induction false} FullSnoc(d: Decompositions, s: seq<nat>, c: nat, bound: nat)
    requires WellFounded(d) && RankBelow(d, s, bound) && d.rank(c) < bound
    ensures FullAll(d, s + [c], bound) == FullAll(d, s, bound) + Full(d, c)
    decreases |s|
  {
    hide Full;
    if s == [] {
      assert [] + [c] == [c] && [c][1..] == [];
      assert FullAll(d, [c], bound) == Full(d, c) + FullAll(d, [], bound);
      assert Full(d, c) + [] == [] + Full(d, c);
    } else {
      assert (s + [c])[1..] == s[1..] + [c];
      FullSnoc(d, s[1..], c, bound);
    }
  }

  /** to_nfd_rec appends the full decomposition of src. */
  method ToNfdRec(dbuf0: seq<nat>, src: seq<nat>, d: Decompositions, ghost bound: nat) returns (dbuf: seq<nat>)
    requires WellFounded(d) && RankBelow(d, src, bound)
    ensures dbuf == dbuf0 + FullAll(d, src, bound)
    decreases bound
  {
    hide WellFounded, Full, FullAll;
    dbuf := dbuf0;
    assert src[..0] == [];
    NothingFull(d, bound);
    for i := 0 to |src|
      invariant RankBelow(d, src[..i], bound) && dbuf == dbuf0 + FullAll(d, src[..i], bound)
    {
      var c := src[i];
      ghost var was := dbuf;
      assert src[..i + 1] == src[..i] + [c];
      FullSnoc(d, src[..i], c, bound);
      FullIs(d, c);
      if IsHangul(c) {
        var x := c - 0xAC00;
        dbuf := dbuf + [0x1100 + x / 588];
        dbuf := dbuf + [0x1161 + x % 588 / 28];
        var v := x % 28;
        if v != 0 {
          dbuf := dbuf + [0x11A7 + v];
        }
      } else if c in d.table && |d.table[c]| != 0 {
        dbuf := ToNfdRec(dbuf, d.table[c], d, d.rank(c));
      } else {
        dbuf := dbuf + [c];
      }
      assert dbuf == was + Full(d, c);
      assert dbuf0 + FullAll(d, src[..i], bound) + Full(d, c) == dbuf0 + (FullAll(d, src[..i], bound) + Full(d, c));
    }
    assert src[..|src|] == src;
  }

  lemma NothingFull(d: Decompositions, bound: nat)
    requires WellFounded(d)
    ensures FullAll(d, [], bound) == []
  {
  }

  lemma FullIs(d: Decompositions, c: nat)
    requires WellFounded(d)
    ensures IsHangul(c) ==> Full(d, c) == Jamo(c)
    ensures !IsHangul(c) && c in d.table && |d.table[c]| != 0 ==>
      RankBelow(d, d.table[c], d.rank(c)) && Full(d, c) == FullAll(d, d.table[c], d.rank(c))
    ensures !IsHangul(c) && !(c in d.table && |d.table[c]| != 0) ==> Full(d, c) == [c]
  {
  }

  /** A code point that is not decomposed further. */
  predicate Final(d: Decompositions, c: nat) {
    !IsHangul(c) && !(c in d.table && d.table[c] != [])
  }

  predicate AllFinal(d: Decompositions, s: seq<nat>) {
    forall k :: 0 <= k < |s| ==> Final(d, s[k])
  }

  lemma {:induction false} FullIsFinal(d: Decompositions, c: nat)
    requires WellFounded(d)
    ensures AllFinal(d, Full(d, c))
    decreases d.rank(c), 1, 0
  {
    if IsHangul(c) {
      JamoFinal(d, c);
    } else if c in d.table && d.table[c] != [] {
      FullAllIsFinal(d, d.table[c], d.rank(c));
    }
  }

  lemma {:induction false} FullAllIsFinal(d: Decompositions, s: seq<nat>, bound: nat)
    requires WellFounded(d) && RankBelow(d, s, bound)
    ensures AllFinal(d, FullAll(d, s, bound))
    decreases bound, 0, |s|
  {
    if s != [] {
      FullIsFinal(d, s[0]);
      FullAllIsFinal(d, s[1..], bound);
    }
  }

  lemma JamoFinal(d: Decompositions, c: nat)
    requires WellFounded(d) && IsHangul(c)
    ensures AllFinal(d, Jamo(c))
  {
    var x := c - 0xAC00;
    assert x / 588 < 19 && x % 588 / 28 < 21;
  }

  /** Final code points are decomposed to themselves. */
  lemma {:induction false} FinalStays(d: Decompositions, s: seq<nat>, bound: nat)
    requires WellFounded(d) && RankBelow(d, s, bound) && AllFinal(d, s)
    ensures FullAll(d, s, bound) == s
    decreases |s|
  {
    if s != [] {
      FullIs(d, s[0]);
      FinalStays(d, s[1..], bound);
      assert s == [s[0]] + s[1..];
    }
  }

  /** NFD: the full decomposition in canonical order. */
  ghost predicate IsNfd(d: Decompositions, cc: nat -> nat, src: seq<nat>, bound: nat, out: seq<nat>)
    requires WellFounded(d) && RankBelow(d, src, bound)
  {
    InOrder(out, cc) && Sorting(out, FullAll(d, src, bound), cc)
  }

  /** unicode_normalize for NFD and NFKD. */
  method NormalizeNfd(src: seq<nat>, d: Decompositions, cc: nat -> nat, ghost bound: nat) returns (out: seq<nat>)
    requires WellFounded(d) && RankBelow(d, src, bound)
    ensures IsNfd(d, cc, src, bound, out)
  {
    hide WellFounded, FullAll, InOrder, Sorting;
    var dbuf := ToNfdRec([], src, d, bound);
    assert [] + FullAll(d, src, bound) == FullAll(d, src, bound);
    var buf := new nat[|dbuf|](i requires 0 <= i < |dbuf| => dbuf[i]);
    assert buf[..] == dbuf;
    SortCc(buf, cc);
    out := buf[..];
  }

  /** There is one result, and normalising it again does not change it. */
  lemma NfdIdempotent(d: Decompositions, cc: nat -> nat, src: seq<nat>, bound: nat, out: seq<nat>, bound1: nat, again: seq<nat>)
    requires WellFounded(d) && RankBelow(d, src, bound) && IsNfd(d, cc, src, bound, out)
    requires RankBelow(d, out, bound1) && IsNfd(d, cc, out, bound1, again)
    ensures again == out
  {
    hide WellFounded, FullAll, InOrder, Full, Reordered;
    FullAllIsFinal(d, src, bound);
    SameElements(d, out, FullAll(d, src, bound));
    FinalStays(d, out, bound1);
    OrderUnique(again, out, cc);
  }

  lemma SameElements(d: Decompositions, t: seq<nat>, s: seq<nat>)
    requires multiset(t) == multiset(s) && AllFinal(d, s)
    ensures AllFinal(d, t)
  {
    forall k | 0 <= k < |t|
      ensures Final(d, t[k])
    {
      assert t[k] in multiset(t);
      assert t[k] in s;
    }
  }
}
