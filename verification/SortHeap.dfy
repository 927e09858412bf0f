/** heapsortx and the insertion sort of rqsort. */
module SortHeap {
  import opened SortOrder

  /** The parent of element c of the heap that starts at lo. */
  function Parent(lo: int, c: int): int {
    lo + (c - lo - 1) / 2
  }

  /** Elements from `from` on are not larger than their parents, as far as those are in range
      and the parent is not `hole`. */
  ghost predicate HeapExcept<T>(s: seq<T>, lo: int, from: int, n: int, hole: int, cmp: (T, T) -> int)
    requires 0 <= lo <= from && n <= |s|
  {
    forall c :: lo < c < n && from <= Parent(lo, c) != hole ==> cmp(s[c], s[Parent(lo, c)]) <= 0
  }

  /** The children of the hole are not larger than its parent. */
  ghost predicate HoleFits<T>(s: seq<T>, lo: int, from: int, n: int, hole: int, cmp: (T, T) -> int)
    requires 0 <= lo <= from && lo <= hole && n <= |s|
  {
    lo < hole < n && Parent(lo, hole) >= from ==>
      forall c :: hole < c < n && Parent(lo, c) == hole ==> cmp(s[c], s[Parent(lo, hole)]) <= 0
  }

  lemma Children(lo: int, r: int, c: int)
    requires lo <= r
    ensures Parent(lo, c) == r && c > lo <==> c == lo + 2 * (r - lo) + 1 || c == lo + 2 * (r - lo) + 2
    ensures c > lo ==> lo <= Parent(lo, c) < c
  {
  }

  /** One step down: the hole moves to its larger child c. */
  lemma StepDown<T(!new)>(s: seq<T>, lo: int, from: int, n: int, r: int, c: int, cmp: (T, T) -> int)
    requires TotalPreorder(cmp) && 0 <= lo <= from <= r < c < n <= |s| && Parent(lo, c) == r
    requires HeapExcept(s, lo, from, n, r, cmp) && HoleFits(s, lo, from, n, r, cmp)
    requires forall d :: r < d < n && Parent(lo, d) == r ==> cmp(s[d], s[c]) <= 0
    requires cmp(s[r], s[c]) <= 0
    ensures HeapExcept(Exchanged(s, r, c), lo, from, n, c, cmp) && HoleFits(Exchanged(s, r, c), lo, from, n, c, cmp)
  {
    var t := Exchanged(s, r, c);
    forall d | lo < d < n && from <= Parent(lo, d) != c
      ensures cmp(t[d], t[Parent(lo, d)]) <= 0
    {
      Children(lo, r, d);
      var p := Parent(lo, d);
      if p == r {
        assert d == c || t[d] == s[d];
      } else if d == r {
        assert t[d] == s[c] && t[p] == s[p];
      } else {
        assert t[d] == s[d] && t[p] == s[p];
      }
    }
    forall d | c < d < n && Parent(lo, d) == c
      ensures cmp(t[d], t[r]) <= 0
    {
      assert t[d] == s[d] && t[r] == s[c];
    }
  }

  /** Without larger children the hole is closed. */
  lemma HoleClosed<T(!new)>(s: seq<T>, lo: int, from: int, n: int, r: int, cmp: (T, T) -> int)
    requires 0 <= lo <= from <= r && n <= |s| && HeapExcept(s, lo, from, n, r, cmp)
    requires forall d :: r < d < n && Parent(lo, d) == r ==> cmp(s[d], s[r]) <= 0
    ensures HeapExcept(s, lo, from, n, -1, cmp)
  {
    forall d | lo < d < n && from <= Parent(lo, d)
      ensures cmp(s[d], s[Parent(lo, d)]) <= 0
    {
      Children(lo, r, d);
    }
  }

  /** The inner loop of heapsortx: the element at r sinks in the heap [lo, n). */
  method SiftDown<T(!new)>(a: array<T>, lo: nat, from: nat, n: nat, cmp: (T, T) -> int)
    requires TotalPreorder(cmp) && lo <= from < n <= a.Length && HeapExcept(a[..], lo, from, n, from, cmp)
    modifies a
    ensures HeapExcept(a[..], lo, from, n, -1, cmp) && Permuted(a[..], old(a[..]), lo, n)
  {
    hide TotalPreorder, HeapExcept, HoleFits, Permuted, Exchanged, Parent;
    ghost var s0 := a[..];
    PermutedSelf(s0, lo, n);
    NoParent(a[..], lo, from, n, cmp);
    var r: nat := from;
    while lo + 2 * (r - lo) + 1 < n
      invariant from <= r < n && HeapExcept(a[..], lo, from, n, r, cmp) && HoleFits(a[..], lo, from, n, r, cmp)
      invariant Permuted(a[..], s0, lo, n)
      decreases n - r
    {
      var c: nat := lo + 2 * (r - lo) + 1;
      if c < n - 1 && cmp(a[c], a[c + 1]) <= 0 {
        c := c + 1;
      }
      LargerChild(a[..], lo, n, r, c, cmp);
      if cmp(a[r], a[c]) > 0 {
        LargerParent(a[..], lo, n, r, c, cmp);
        HoleClosed(a[..], lo, from, n, r, cmp);
        return;
      }
      ghost var s := a[..];
      StepDown(s, lo, from, n, r, c, cmp);
      Swap(a, r, c, lo, n);
      PermutedTrans(a[..], s, s0, lo, n);
      r := c;
    }
    NoChildren(a[..], lo, n, r, cmp);
    HoleClosed(a[..], lo, from, n, r, cmp);
  }

  lemma NoParent<T>(s: seq<T>, lo: int, from: int, n: int, cmp: (T, T) -> int)
    requires 0 <= lo <= from && n <= |s|
    ensures HoleFits(s, lo, from, n, from, cmp)
  {
    if from > lo { Children(lo, from, from); }
  }

  lemma NoChildren<T>(s: seq<T>, lo: int, n: int, r: int, cmp: (T, T) -> int)
    requires 0 <= lo <= r && n <= |s| && lo + 2 * (r - lo) + 1 >= n
    ensures forall d :: r < d < n ==> Parent(lo, d) != r
  {
    forall d | r < d < n
      ensures Parent(lo, d) != r
    {
      Children(lo, r, d);
    }
  }

  lemma LargerChild<T(!new)>(s: seq<T>, lo: int, n: int, r: int, c: int, cmp: (T, T) -> int)
    requires TotalPreorder(cmp) && 0 <= lo <= r && n <= |s|
    requires var left := lo + 2 * (r - lo) + 1;
      left < n && c == if left < n - 1 && cmp(s[left], s[left + 1]) <= 0 then left + 1 else left
    ensures r < c < n && Parent(lo, c) == r
    ensures forall d :: r < d < n && Parent(lo, d) == r ==> cmp(s[d], s[c]) <= 0
  {
    Children(lo, r, c);
    forall d | r < d < n && Parent(lo, d) == r
      ensures cmp(s[d], s[c]) <= 0
    {
      Children(lo, r, d);
      Flip(cmp, s[d], s[c]);
    }
  }

  lemma LargerParent<T(!new)>(s: seq<T>, lo: int, n: int, r: int, c: int, cmp: (T, T) -> int)
    requires TotalPreorder(cmp) && 0 <= lo <= r < c < n <= |s| && cmp(s[r], s[c]) > 0
    requires forall d :: r < d < n && Parent(lo, d) == r ==> cmp(s[d], s[c]) <= 0
    ensures forall d :: r < d < n && Parent(lo, d) == r ==> cmp(s[d], s[r]) <= 0
  {
    Flip(cmp, s[c], s[r]);
    forall d | r < d < n && Parent(lo, d) == r
      ensures cmp(s[d], s[r]) <= 0
    {
      Trans(cmp, s[d], s[c], s[r]);
    }
  }

  /** The root of a heap is its largest element. */
  lemma {:induction false} RootIsLargest<T(!new)>(s: seq<T>, lo: int, n: int, k: int, cmp: (T, T) -> int)
    requires TotalPreorder(cmp) && 0 <= lo <= k < n <= |s| && HeapExcept(s, lo, lo, n, -1, cmp)
    ensures cmp(s[k], s[lo]) <= 0
    decreases k
  {
    if k == lo {
      Flip(cmp, s[k], s[k]);
    } else {
      Children(lo, lo, k);
      RootIsLargest(s, lo, n, Parent(lo, k), cmp);
      Trans(cmp, s[k], s[Parent(lo, k)], s[lo]);
    }
  }

  /** The elements from i on are sorted, and none before is larger. */
  ghost predicate SortedTail<T>(s: seq<T>, lo: int, i: int, hi: int, cmp: (T, T) -> int)
    requires 0 <= lo <= i <= hi <= |s|
  {
    forall k, j :: lo <= k < j < hi && j >= i ==> cmp(s[k], s[j]) <= 0
  }

  /** Permuting the elements before the tail does not matter. */
  lemma TailStays<T>(now: seq<T>, was: seq<T>, lo: int, i: int, hi: int, cmp: (T, T) -> int)
    requires 0 <= lo <= i <= hi <= |was| && Permuted(now, was, lo, i) && SortedTail(was, lo, i, hi, cmp)
    ensures SortedTail(now, lo, i, hi, cmp)
  {
    forall k, j | lo <= k < j < hi && j >= i
      ensures cmp(now[k], now[j]) <= 0
    {
      hide Permuted;
      var k1 := PermutedElement(now, was, lo, i, k);
      var j1 := PermutedElement(now, was, lo, i, j);
    }
  }

  /** The largest element goes to the end. */
  lemma LargestLast<T(!new)>(s: seq<T>, lo: int, i: int, hi: int, cmp: (T, T) -> int)
    requires TotalPreorder(cmp) && 0 <= lo < i < hi <= |s| && HeapExcept(s, lo, lo, i + 1, -1, cmp) && SortedTail(s, lo, i + 1, hi, cmp)
    ensures SortedTail(Exchanged(s, lo, i), lo, i, hi, cmp) && HeapExcept(Exchanged(s, lo, i), lo, lo, i, lo, cmp)
  {
    var t := Exchanged(s, lo, i);
    forall k, j | lo <= k < j < hi && j >= i
      ensures cmp(t[k], t[j]) <= 0
    {
      if j == i {
        RootIsLargest(s, lo, i + 1, if k == lo then i else k, cmp);
      } else {
        assert t[j] == s[j];
        assert t[k] == s[if k == lo then i else if k == i then lo else k];
      }
    }
    forall c | lo < c < i && Parent(lo, c) != lo
      ensures cmp(t[c], t[Parent(lo, c)]) <= 0
    {
      Children(lo, lo, c);
    }
  }

  /** heapsortx */
  method HeapSort<T(!new)>(a: array<T>, lo: nat, hi: nat, cmp: (T, T) -> int)
    requires TotalPreorder(cmp) && lo <= hi <= a.Length
    modifies a
    ensures Permuted(a[..], old(a[..]), lo, hi) && Sorted(a[..], lo, hi, cmp)
  {
    hide TotalPreorder, HeapExcept, Permuted, Exchanged, SortedTail;
    ghost var s0 := a[..];
    PermutedSelf(s0, lo, hi);
    if hi - lo > 1 {
      var i: nat := lo + (hi - lo) / 2;
      LeavesAreHeap(a[..], lo, i, hi, cmp);
      while i > lo
        invariant lo <= i < hi && HeapExcept(a[..], lo, i, hi, -1, cmp) && Permuted(a[..], s0, lo, hi)
      {
        i := i - 1;
        NextHole(a[..], lo, i, hi, cmp);
        ghost var s := a[..];
        SiftDown(a, lo, i, hi, cmp);
        PermutedTrans(a[..], s, s0, lo, hi);
      }
      i := hi - 1;
      EmptyTail(a[..], lo, hi, cmp);
      while i > lo
        invariant lo <= i < hi && HeapExcept(a[..], lo, lo, i + 1, -1, cmp) && SortedTail(a[..], lo, i + 1, hi, cmp)
        invariant Permuted(a[..], s0, lo, hi)
      {
        ghost var s := a[..];
        LargestLast(s, lo, i, hi, cmp);
        Swap(a, lo, i, lo, hi);
        PermutedTrans(a[..], s, s0, lo, hi);
        ghost var t := a[..];
        SiftDown(a, lo, lo, i, cmp);
        TailStays(a[..], t, lo, i, hi, cmp);
        PermutedWider(a[..], t, lo, i, lo, hi);
        PermutedTrans(a[..], t, s0, lo, hi);
        i := i - 1;
      }
    }
    AllSorted(a[..], lo, hi, cmp);
  }

  lemma LeavesAreHeap<T>(s: seq<T>, lo: int, i: int, hi: int, cmp: (T, T) -> int)
    requires 0 <= lo < hi <= |s| && i == lo + (hi - lo) / 2
    ensures HeapExcept(s, lo, i, hi, -1, cmp)
  {
  }

  lemma NextHole<T>(s: seq<T>, lo: int, i: int, hi: int, cmp: (T, T) -> int)
    requires 0 <= lo <= i && hi <= |s| && HeapExcept(s, lo, i + 1, hi, -1, cmp)
    ensures HeapExcept(s, lo, i, hi, i, cmp)
  {
  }

  lemma EmptyTail<T>(s: seq<T>, lo: int, hi: int, cmp: (T, T) -> int)
    requires 0 <= lo <= hi <= |s|
    ensures SortedTail(s, lo, hi, hi, cmp)
  {
  }

  lemma AllSorted<T>(s: seq<T>, lo: int, hi: int, cmp: (T, T) -> int)
    requires 0 <= lo <= hi <= |s| && (hi - lo > 1 ==> SortedTail(s, lo, lo + 1, hi, cmp))
    ensures Sorted(s, lo, hi, cmp)
  {
  }

  /** The insertion sort at the end of rqsort. */
  method InsertionSort<T(!new)>(a: array<T>, lo: nat, hi: nat, cmp: (T, T) -> int)
    requires TotalPreorder(cmp) && lo <= hi <= a.Length
    modifies a
    ensures Permuted(a[..], old(a[..]), lo, hi) && Sorted(a[..], lo, hi, cmp)
  {
    hide TotalPreorder, Permuted, Exchanged, SortedBut;
    ghost var s0 := a[..];
    PermutedSelf(s0, lo, hi);
    var i := lo + 1;
    while i < hi
      invariant lo < i && (i <= hi || i == lo + 1) && Permuted(a[..], s0, lo, hi)
      invariant i <= hi ==> Sorted(a[..], lo, i, cmp)
    {
      var j := i;
      NoneOutOfPlace(a[..], lo, i, cmp);
      while j > lo && cmp(a[j - 1], a[j]) > 0
        invariant lo <= j <= i && SortedBut(a[..], lo, i + 1, j, cmp) && Permuted(a[..], s0, lo, hi)
      {
        ghost var s := a[..];
        MoveDown(s, lo, i + 1, j, cmp);
        Swap(a, j, j - 1, lo, hi);
        PermutedTrans(a[..], s, s0, lo, hi);
        j := j - 1;
      }
      InPlace(a[..], lo, i + 1, j, cmp);
      i := i + 1;
    }
  }

  /** Sorted, except that element j may be smaller than those before it. */
  ghost predicate SortedBut<T>(s: seq<T>, lo: int, hi: int, j: int, cmp: (T, T) -> int)
    requires 0 <= lo <= hi <= |s|
  {
    forall k, l :: lo <= k < l < hi && l != j ==> cmp(s[k], s[l]) <= 0
  }

  lemma NoneOutOfPlace<T>(s: seq<T>, lo: int, i: int, cmp: (T, T) -> int)
    requires 0 <= lo <= i < |s| && Sorted(s, lo, i, cmp)
    ensures SortedBut(s, lo, i + 1, i, cmp)
  {
  }

  lemma MoveDown<T(!new)>(s: seq<T>, lo: int, hi: int, j: int, cmp: (T, T) -> int)
    requires TotalPreorder(cmp) && 0 <= lo < j < hi <= |s| && SortedBut(s, lo, hi, j, cmp) && cmp(s[j - 1], s[j]) > 0
    ensures SortedBut(Exchanged(s, j, j - 1), lo, hi, j - 1, cmp)
  {
    var t := Exchanged(s, j, j - 1);
    Flip(cmp, s[j], s[j - 1]);
    hide TotalPreorder;
    forall k, l | lo <= k < l < hi && l != j - 1
      ensures cmp(t[k], t[l]) <= 0
    {
      if l == j {
        assert t[l] == s[j - 1] && t[k] == if k == j - 1 then s[j] else s[k];
      } else {
        assert t[l] == s[l] && t[k] == s[if k == j then j - 1 else if k == j - 1 then j else k];
      }
    }
  }

  lemma InPlace<T(!new)>(s: seq<T>, lo: int, hi: int, j: int, cmp: (T, T) -> int)
    requires TotalPreorder(cmp) && 0 <= lo <= j < hi <= |s| && SortedBut(s, lo, hi, j, cmp)
    requires j == lo || cmp(s[j - 1], s[j]) <= 0
    ensures Sorted(s, lo, hi, cmp)
  {
    forall k, l | lo <= k < l < hi
      ensures cmp(s[k], s[l]) <= 0
    {
      if l == j && k < j - 1 {
        assert cmp(s[k], s[j - 1]) <= 0;
        Trans(cmp, s[k], s[j - 1], s[j]);
      }
    }
  }
}
