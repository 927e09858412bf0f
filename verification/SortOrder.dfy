/** Orders given by a comparison function, and arrays whose elements are permuted in a range. */
module SortOrder {

  /** The comparison function (negative, zero or positive) is that of a total preorder. */
  ghost predicate TotalPreorder<T(!new)>(cmp: (T, T) -> int) {
    && (forall x, y :: cmp(x, y) <= 0 <==> cmp(y, x) >= 0)
    && (forall x, y, z :: cmp(x, y) <= 0 && cmp(y, z) <= 0 ==> cmp(x, z) <= 0)
  }

  lemma Flip<T(!new)>(cmp: (T, T) -> int, x: T, y: T)
    requires TotalPreorder(cmp)
    ensures cmp(x, y) <= 0 <==> cmp(y, x) >= 0
    ensures cmp(x, y) >= 0 <==> cmp(y, x) <= 0
    ensures cmp(x, x) == 0
  {
  }

  lemma Trans<T(!new)>(cmp: (T, T) -> int, x: T, y: T, z: T)
    requires TotalPreorder(cmp) && cmp(x, y) <= 0 && cmp(y, z) <= 0
    ensures cmp(x, z) <= 0
  {
  }

  /** Sorted from lo to hi. */
  ghost predicate Sorted<T>(s: seq<T>, lo: int, hi: int, cmp: (T, T) -> int)
    requires 0 <= lo <= hi <= |s|
  {
    forall i, j :: lo <= i < j < hi ==> cmp(s[i], s[j]) <= 0
  }

  /** The elements from lo to hi are permuted, the others stay. */
  ghost predicate Permuted<T>(now: seq<T>, was: seq<T>, lo: int, hi: int) {
    0 <= lo <= hi <= |now| == |was| && now[..lo] == was[..lo] && now[hi..] == was[hi..] &&
    multiset(now[lo..hi]) == multiset(was[lo..hi])
  }

  lemma PermutedSelf<T>(s: seq<T>, lo: int, hi: int)
    requires 0 <= lo <= hi <= |s|
    ensures Permuted(s, s, lo, hi)
  {
  }

  lemma PermutedTrans<T>(a: seq<T>, b: seq<T>, c: seq<T>, lo: int, hi: int)
    requires Permuted(a, b, lo, hi) && Permuted(b, c, lo, hi)
    ensures Permuted(a, c, lo, hi)
  {
  }

  lemma PermutedWider<T>(now: seq<T>, was: seq<T>, lo: int, hi: int, lo1: int, hi1: int)
    requires Permuted(now, was, lo, hi) && 0 <= lo1 <= lo && hi <= hi1 <= |now|
    ensures Permuted(now, was, lo1, hi1)
  {
    assert now[lo1..hi1] == now[lo1..lo] + now[lo..hi] + now[hi..hi1];
    assert was[lo1..hi1] == was[lo1..lo] + was[lo..hi] + was[hi..hi1];
    assert now[..lo1] == now[..lo][..lo1] && was[..lo1] == was[..lo][..lo1];
    assert now[lo1..lo] == now[..lo][lo1..] && was[lo1..lo] == was[..lo][lo1..];
    assert now[hi1..] == now[hi..][hi1 - hi..] && was[hi1..] == was[hi..][hi1 - hi..];
    assert now[hi..hi1] == now[hi..][..hi1 - hi] && was[hi..hi1] == was[hi..][..hi1 - hi];
  }

  /** Exchanging two elements. */
  function Exchanged<T>(s: seq<T>, i: int, j: int): seq<T>
    requires 0 <= i < |s| && 0 <= j < |s|
  {
    s[i := s[j]][j := s[i]]
  }

  lemma ExchangedPermuted<T>(s: seq<T>, i: int, j: int, lo: int, hi: int)
    requires 0 <= lo <= i < hi && lo <= j < hi <= |s|
    ensures Permuted(Exchanged(s, i, j), s, lo, hi)
  {
    var t := Exchanged(s, i, j);
    assert t[..lo] == s[..lo] && t[hi..] == s[hi..];
    assert t[lo..hi] == s[lo..hi][i - lo := s[j]][j - lo := s[i]];
    ExchangeMultiset(s[lo..hi], i - lo, j - lo);
  }

  lemma ExchangeMultiset<T>(s: seq<T>, i: int, j: int)
    requires 0 <= i < |s| && 0 <= j < |s|
    ensures multiset(s[i := s[j]][j := s[i]]) == multiset(s)
  {
  }

  method Swap<T>(a: array<T>, i: nat, j: nat, ghost lo: int, ghost hi: int)
    requires 0 <= lo <= i < hi && lo <= j < hi <= a.Length
    modifies a
    ensures a[..] == Exchanged(old(a[..]), i, j) && Permuted(a[..], old(a[..]), lo, hi)
  {
    hide Permuted;
    ExchangedPermuted(a[..], i, j, lo, hi);
    a[i], a[j] := a[j], a[i];
  }

  /** Elements outside stay, elements inside come from inside. */
  lemma PermutedElement<T>(now: seq<T>, was: seq<T>, lo: int, hi: int, k: int) returns (i: int)
    requires Permuted(now, was, lo, hi) && 0 <= k < |now|
    ensures 0 <= i < |was| && now[k] == was[i] && (if lo <= k < hi then lo <= i < hi else i == k)
  {
    if k < lo {
      assert now[k] == now[..lo][k] == was[..lo][k];
      i := k;
    } else if k >= hi {
      assert now[k] == now[hi..][k - hi] == was[hi..][k - hi];
      i := k;
    } else {
      assert now[k] == now[lo..hi][k - lo];
      assert now[k] in multiset(now[lo..hi]);
      assert now[k] in was[lo..hi];
      var n :| 0 <= n < hi - lo && was[lo..hi][n] == now[k];
      i := lo + n;
    }
  }
}
