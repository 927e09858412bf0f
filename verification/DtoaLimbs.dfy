/** Arithmetic on arrays of 32-bit limbs, least significant limb first. Bitwise OR of numbers
    without common bits is written as addition, shifts as multiplication and division. */
module DtoaLimbs {
  import opened DtoaArith

  const BASE := 0x1_0000_0000

  type limb = x: int | 0 <= x < BASE

  /** Truncation to 32 and to 64 bits. */
  function U32(x: int): limb {
    x % BASE
  }

  function U64(x: int): nat {
    x % (BASE * BASE)
  }

  /** sum(i, s[i] * 2^(32 i)) */
  function Value(s: seq<limb>): nat {
    if s == [] then 0 else s[0] + BASE * Value(s[1..])
  }

  lemma {:induction false} ValueAppend(a: seq<limb>, b: seq<limb>)
    ensures Value(a + b) == Value(a) + Pow(BASE, |a|) * Value(b)
    decreases |a|
  {
    if a == [] {
      assert a + b == b;
    } else {
      assert (a + b)[1..] == a[1..] + b;
      ValueAppend(a[1..], b);
      MulAssoc(BASE, Pow(BASE, |a| - 1), Value(b));
    }
  }

  lemma ValueOne(x: limb)
    ensures Value([x]) == x
  {
    assert [x][1..] == [];
    assert Value([]) == 0;
  }

  lemma {:induction false} ValueSnoc(s: seq<limb>, x: limb)
    ensures Value(s + [x]) == Value(s) + Pow(BASE, |s|) * x
  {
    ValueAppend(s, [x]);
    ValueOne(x);
  }

  lemma ValueCons(x: limb, s: seq<limb>)
    ensures Value([x] + s) == x + BASE * Value(s)
  {
    assert ([x] + s)[1..] == s;
  }

  lemma {:induction false} ValueBound(s: seq<limb>)
    ensures Value(s) < Pow(BASE, |s|)
  {
    if s != [] {
      ValueBound(s[1..]);
      MulMono(Value(s[1..]) + 1, Pow(BASE, |s| - 1), BASE);
    }
  }

  // --- carries upward ---

  /** One digit of an upward loop: `x` leaves with carry `k1` what came in as `y`. */
  lemma CarryStep(w: nat, done: nat, was: nat, k0: nat, x: nat, k1: nat, a: nat, b: nat, l: nat)
    requires done + w * k0 == was * b + l && x + BASE * k1 == a * b + k0
    ensures (done + w * x) + (BASE * w) * k1 == (was + w * a) * b + l
  {
    assert w * (x + BASE * k1) == w * (a * b + k0);
    assert w * (x + BASE * k1) == w * x + (BASE * w) * k1;
    assert w * (a * b + k0) == (w * a) * b + w * k0;
  }

  lemma PrefixNext(s: seq<limb>, i: nat)
    requires i < |s|
    ensures s[..i + 1] == s[..i] + [s[i]]
    ensures Value(s[..i + 1]) == Value(s[..i]) + Pow(BASE, i) * s[i]
    ensures Pow(BASE, i + 1) == BASE * Pow(BASE, i)
  {
    ValueSnoc(s[..i], s[i]);
    assert s[..i + 1] == s[..i] + [s[i]];
  }

  /** Numbers that agree from digit `i` on differ by what is below it. */
  lemma SameTail(s: seq<limb>, t: seq<limb>, i: nat)
    requires |s| == |t| && i <= |s| && s[i..] == t[i..]
    ensures Value(s) - Value(s[..i]) == Value(t) - Value(t[..i])
  {
    ValueAppend(s[..i], s[i..]);
    ValueAppend(t[..i], t[i..]);
    assert s == s[..i] + s[i..] && t == t[..i] + t[i..];
  }

  /** mp_add_ui */
  method MpAddUi(tab: array<limb>, b: limb, n: nat) returns (k: limb)
    requires n <= tab.Length
    modifies tab
    ensures Value(tab[..n]) + Pow(BASE, n) * k == old(Value(tab[..n])) + b
    ensures tab[n..] == old(tab[n..])
  {
    hide Value, Pow;
    NoValue();
    ghost var s0 := tab[..n];
    k := b;
    var i := 0;
    while i < n && k != 0
      invariant 0 <= i <= n && tab[n..] == old(tab[n..])
      invariant tab[i..n] == s0[i..]
      invariant Value(tab[..i]) + Pow(BASE, i) * k == Value(s0[..i]) + b
    {
      ghost var before, k0 := tab[..n], k;
      PrefixNext(s0, i);
      assert s0[i] == tab[i..n][0] == tab[i];
      var a := U32(tab[i] + k);
      k := if a < k then 1 else 0;
      tab[i] := a;
      ghost var after := tab[..n];
      assert after[..i] == before[..i];
      PrefixNext(after, i);
      assert after[..i + 1] == tab[..i + 1] && before[..i] == tab[..i];
      CarryStep(Pow(BASE, i), Value(before[..i]), Value(s0[..i]), k0, a, k, s0[i], 1, b);
      i := i + 1;
    }
    ghost var s := tab[..n];
    assert s[..i] == tab[..i] && s[i..] == tab[i..n];
    SameTail(s, s0, i);
    if k == 0 {
      assert Pow(BASE, n) * k == 0 && Pow(BASE, i) * k == 0;
    } else {
      assert s0[..i] == s0;
    }
  }

  /** mp_mul1 in place: tab := tab * b + l; returns the carry. */
  method MpMul1(tab: array<limb>, n: nat, b: limb, l0: limb) returns (l: limb)
    requires n <= tab.Length
    modifies tab
    ensures Value(tab[..n]) + Pow(BASE, n) * l == old(Value(tab[..n])) * b + l0
    ensures tab[n..] == old(tab[n..])
  {
    hide Value, Pow;
    NoValue();
    ghost var s0 := tab[..n];
    l := l0;
    var i := 0;
    while i < n
      invariant 0 <= i <= n && tab[n..] == old(tab[n..])
      invariant tab[i..n] == s0[i..]
      invariant Value(tab[..i]) + Pow(BASE, i) * l == Value(s0[..i]) * b + l0
    {
      ghost var before, k0 := tab[..i], l;
      PrefixNext(s0, i);
      assert s0[i] == tab[i..n][0] == tab[i];
      MulBound(tab[i], b, l);
      var t := tab[i] * b + l;
      tab[i] := U32(t);
      l := t / BASE;
      assert tab[..i] == before;
      PrefixNext(tab[..n], i);
      assert tab[..n][..i] == tab[..i] && tab[..n][..i + 1] == tab[..i + 1];
      CarryStep(Pow(BASE, i), Value(before), Value(s0[..i]), k0, tab[i], l, s0[i], b, l0);
      i := i + 1;
    }
    assert s0[..n] == s0;
  }

  /** A double limb holds a product and a carry. */
  lemma MulBound(a: limb, b: limb, l: limb)
    ensures 0 <= a * b + l < BASE * BASE && 0 <= (a * b + l) / BASE < BASE
  {
    MulMono(a, BASE - 1, b);
    MulNonneg(a, b);
  }

  function Shl32(a: limb, shift: nat): limb {
    U32(a * Pow(2, shift))
  }

  function Shr32(a: limb, shift: nat): (r: limb) {
    PowPos(2, shift);
    ShrBound(a, Pow(2, shift));
    a / Pow(2, shift)
  }

  lemma ShrBound(a: limb, p: nat)
    requires p > 0
    ensures 0 <= a / p < BASE
  {
    DivMod(a, p);
    if a / p >= BASE { MulMono(1, p, a / p); }
  }

  lemma ModBound(a: nat, p: nat)
    requires p > 0
    ensures 0 <= a % p <= a && a % p < p
  {
    DivMod(a, p);
    MulNonneg(a / p, p);
  }

  /** The two powers of two a shift works with. */
  lemma ShiftPowers(shift: nat)
    requires shift <= 32
    ensures Pow(2, shift) > 0 && Pow(2, 32 - shift) > 0 && Pow(2, shift) * Pow(2, 32 - shift) == BASE
  {
    PowPos(2, shift);
    PowPos(2, 32 - shift);
    PowAdd(2, shift, 32 - shift);
    Pow32();
  }

  lemma Pow32()
    ensures Pow(2, 32) == BASE
  {
    PowAdd(2, 16, 16);
    PowAdd(2, 8, 8);
    PowAdd(2, 4, 4);
    PowAdd(2, 2, 2);
    PowOne(2);
  }

  lemma SplitProduct(a: nat, q: nat, p: nat, t: nat, r: nat)
    requires a == q * t + r && p * q == BASE
    ensures a * p == BASE * t + r * p
  {
    assert (q * t + r) * p == (p * q) * t + r * p;
  }

  /** A limb shifted left: what stays and what leaves. */
  lemma ShlParts(a: limb, shift: nat)
    requires shift <= 32
    ensures Pow(2, 32 - shift) > 0
    ensures a * Pow(2, shift) == Shl32(a, shift) + BASE * Shr32(a, 32 - shift)
    ensures Shr32(a, 32 - shift) < Pow(2, shift)
    ensures Shl32(a, shift) == (a % Pow(2, 32 - shift)) * Pow(2, shift) && Shl32(a, shift) <= BASE - Pow(2, shift)
  {
    ShiftPowers(shift);
    ShlCore(a, Pow(2, shift), Pow(2, 32 - shift));
    hide Pow;
    DivMod(a * Pow(2, shift), BASE);
  }

  lemma ShlCore(a: limb, p: nat, q: nat)
    requires p > 0 && q > 0 && p * q == BASE
    ensures (a * p) % BASE == (a % q) * p && (a * p) / BASE == a / q
    ensures a / q < p && 0 <= (a % q) * p <= BASE - p
  {
    DivMod(a, q);
    var t, r := a / q, a % q;
    assert a == q * t + r && 0 <= r < q;
    hide *;
    SplitProduct(a, q, p, t, r);
    RemainderBound(r, p, q);
    DivUnique(a * p, BASE, t, r * p);
    QuotientBelow(a, p, q, t, r);
  }

  lemma RemainderBound(r: nat, p: nat, q: nat)
    requires r < q && p * q == BASE
    ensures 0 <= r * p <= BASE - p
  {
    MulNonneg(r, p);
    MulMono(r + 1, q, p);
    assert (r + 1) * p == r * p + p;
    assert q * p == p * q;
  }

  lemma QuotientBelow(a: nat, p: nat, q: nat, t: nat, r: nat)
    requires a < BASE && p * q == BASE && a == q * t + r
    ensures t < p
  {
    if t >= p {
      MulMono(p, t, q);
    }
  }

  /** mp_shl in place: tab := (tab << shift) + low; returns the bits shifted out. */
  method MpShl(tab: array<limb>, n: nat, shift: nat, low: limb) returns (l: limb)
    requires n <= tab.Length && 1 <= shift <= 31 && low < Pow(2, shift)
    modifies tab
    ensures Value(tab[..n]) + Pow(BASE, n) * l == old(Value(tab[..n])) * Pow(2, shift) + low
    ensures tab[n..] == old(tab[n..]) && l < Pow(2, shift)
  {
    hide Value, Pow, Shl32, Shr32;
    NoValue();
    ghost var s0 := tab[..n];
    l := low;
    var i := 0;
    ghost var p := Pow(2, shift);
    while i < n
      invariant 0 <= i <= n && tab[n..] == old(tab[n..]) && l < p
      invariant tab[i..n] == s0[i..]
      invariant Value(tab[..i]) + Pow(BASE, i) * l == Value(s0[..i]) * p + low
    {
      ghost var before, k0 := tab[..i], l;
      PrefixNext(s0, i);
      assert s0[i] == tab[i..n][0] == tab[i];
      var a := tab[i];
      ShlParts(a, shift);
      tab[i] := Shl32(a, shift) + l;
      l := Shr32(a, 32 - shift);
      assert tab[..i] == before;
      PrefixNext(tab[..n], i);
      assert tab[..n][..i] == tab[..i] && tab[..n][..i + 1] == tab[..i + 1];
      CarryStep(Pow(BASE, i), Value(before), Value(s0[..i]), k0, tab[i], l, s0[i], p, low);
      i := i + 1;
    }
    assert s0[..n] == s0;
  }

  // --- remainders downward ---

  /** One digit of a downward division: (r, a) / b = q, rest. */
  lemma DivideStep(w: nat, r0: nat, was: nat, done: nat, a: nat, b: nat, r: nat, q: nat, rest: nat)
    requires r0 * w + was == done * b + r && BASE * r + a == q * b + rest
    ensures r0 * (BASE * w) + (a + BASE * was) == (q + BASE * done) * b + rest
  {
    assert BASE * (r0 * w + was) == BASE * (done * b + r);
    assert r0 * (BASE * w) == BASE * (r0 * w);
    assert (q + BASE * done) * b == q * b + BASE * (done * b);
  }

  lemma SuffixNext(s: seq<limb>, i: nat)
    requires i < |s|
    ensures s[i..] == [s[i]] + s[i + 1..]
    ensures Value(s[i..]) == s[i] + BASE * Value(s[i + 1..])
  {
    ValueCons(s[i], s[i + 1..]);
    assert s[i..] == [s[i]] + s[i + 1..];
  }

  /** A quotient digit fits a limb. */
  lemma QuotientBound(r: nat, a: limb, b: nat)
    requires 0 < b && r < b
    ensures 0 <= (BASE * r + a) / b < BASE && 0 <= (BASE * r + a) % b < b
    ensures BASE * r + a == (BASE * r + a) / b * b + (BASE * r + a) % b
  {
    DivMod(BASE * r + a, b);
    var q := (BASE * r + a) / b;
    MulMono(r + 1, b, BASE);
    if q >= BASE { MulMono(BASE, q, b); }
  }

  /** mp_div1 in place; returns the remainder. */
  method MpDiv1(tab: array<limb>, n: nat, b: limb, r0: limb) returns (r: limb)
    requires n <= tab.Length && r0 < b
    modifies tab
    ensures r0 * Pow(BASE, n) + old(Value(tab[..n])) == Value(tab[..n]) * b + r && r < b
    ensures tab[n..] == old(tab[n..])
  {
    hide Value, Pow;
    NoValue();
    ghost var s0 := tab[..n];
    r := r0;
    var i := n;
    assert s0[n..] == [] && tab[n..n] == [];
    while i > 0
      invariant 0 <= i <= n && tab[n..] == old(tab[n..]) && r < b
      invariant tab[..i] == s0[..i]
      invariant r0 * Pow(BASE, n - i) + Value(s0[i..]) == Value(tab[i..n]) * b + r
    {
      ghost var done, rr := tab[i..n], r;
      i := i - 1;
      assert s0[i] == s0[..i + 1][i] == tab[..i + 1][i];
      QuotientBound(r, tab[i], b);
      var a1 := BASE * r + tab[i];
      SuffixNext(s0, i);
      tab[i] := a1 / b;
      r := a1 % b;
      ValueCons(tab[i], done);
      assert tab[i..n] == [tab[i]] + done;
      PowNext(n - i - 1);
      DivideStep(Pow(BASE, n - i - 1), r0, Value(s0[i + 1..]), Value(done), s0[i], b, rr, tab[i], r);
    }
    assert s0[0..] == s0 && tab[0..n] == tab[..n];
  }

  /** mp_shr in place: tab := (tab + high * BASE^n) >> shift; returns the bits shifted out. */
  method MpShr(tab: array<limb>, n: nat, shift: nat, high: limb) returns (r: limb)
    requires n <= tab.Length && 1 <= shift <= 31 && high < Pow(2, shift)
    modifies tab
    ensures high * Pow(BASE, n) + old(Value(tab[..n])) == Value(tab[..n]) * Pow(2, shift) + r && r < Pow(2, shift)
    ensures tab[n..] == old(tab[n..])
  {
    hide Value, Pow, Shl32, Shr32;
    NoValue();
    ghost var s0 := tab[..n];
    ghost var p := Pow(2, shift);
    ShiftPowers(shift);
    var l: limb := high;
    DivUnique(high, p, 0, high);
    var i := n;
    assert s0[n..] == [] && tab[n..n] == [];
    while i > 0
      invariant 0 <= i <= n && tab[n..] == old(tab[n..])
      invariant tab[..i] == s0[..i]
      invariant high * Pow(BASE, n - i) + Value(s0[i..]) == Value(tab[i..n]) * p + l % p
    {
      ghost var done, l0 := tab[i..n], l;
      i := i - 1;
      assert s0[i] == s0[..i + 1][i] == tab[..i + 1][i];
      var a := tab[i];
      SuffixNext(s0, i);
      ShrParts(a, l, shift);
      tab[i] := Shr32(a, shift) + Shl32(l, 32 - shift);
      l := a;
      ValueCons(tab[i], done);
      assert tab[i..n] == [tab[i]] + done;
      PowNext(n - i - 1);
      DivideStep(Pow(BASE, n - i - 1), high, Value(s0[i + 1..]), Value(done), s0[i], p, l0 % p, tab[i], l % p);
    }
    assert s0[0..] == s0 && tab[0..n] == tab[..n];
    ModBound(l, p);
    r := l % Pow(2, shift);
  }

  /** Two neighbouring limbs shifted right: the digit and the new remainder. */
  lemma ShrParts(a: limb, l: limb, shift: nat)
    requires 1 <= shift <= 31
    ensures Pow(2, shift) > 0
    ensures 0 <= Shr32(a, shift) + Shl32(l, 32 - shift) < BASE
    ensures BASE * (l % Pow(2, shift)) + a == (Shr32(a, shift) + Shl32(l, 32 - shift)) * Pow(2, shift) + a % Pow(2, shift)
  {
    hide Pow;
    ShiftPowers(shift);
    var p, q := Pow(2, shift), Pow(2, 32 - shift);
    ShlCore(l, q, p);
    assert Shr32(a, shift) == a / p && Shl32(l, 32 - shift) == (l % p) * q;
    hide Shr32, Shl32;
    ShrCore(a, l % p, p, q);
  }

  lemma ShrCore(a: limb, u: nat, p: nat, q: nat)
    requires p > 0 && q > 0 && q * p == BASE && 0 <= u * q <= BASE - q
    ensures 0 <= a / p + u * q < BASE
    ensures BASE * u + a == (a / p + u * q) * p + a % p
  {
    DivMod(a, p);
    var t, r := a / p, a % p;
    assert a == p * t + r;
    hide *;
    QuotientBelow(a, q, p, t, r);
    MulAssoc(u, q, p);
    assert (t + u * q) * p == t * p + (u * q) * p;
    assert t * p == p * t;
  }

  lemma NoValue()
    ensures Value([]) == 0 && Pow(BASE, 0) == 1
  {
  }

  lemma PowNext(i: nat)
    ensures Pow(BASE, i + 1) == BASE * Pow(BASE, i)
  {
  }
}
