/** mpb_t: a natural number in an array of limbs, shifted, rounded and multiplied in place. */
module DtoaBignum {
  import opened DtoaArith
  import opened DtoaLimbs
  import opened DtoaDivide
  import opened DtoaTables

  // --- bits of a limb array ---

  /** 2^k, seen as a power of the base and a shift within a limb. */
  lemma BitIndex(k: nat)
    ensures Pow(2, k) == Pow(BASE, k / 32) * Pow(2, k % 32)
    ensures Pow(2, k) > 0 && Pow(BASE, k / 32) > 0 && Pow(2, k % 32) > 0
  {
    PowAdd(2, 32 * (k / 32), k % 32);
    PowPow(2, 32, k / 32);
    Pow32();
    PowPos(2, k);
    PowPos(BASE, k / 32);
    PowPos(2, k % 32);
  }

  /** A number split at limb `l`. */
  lemma SplitAt(s: seq<limb>, l: nat)
    requires l <= |s|
    ensures Value(s) == Value(s[..l]) + Pow(BASE, l) * Value(s[l..])
    ensures Pow(BASE, l) > 0 && Value(s) / Pow(BASE, l) == Value(s[l..]) && Value(s) % Pow(BASE, l) == Value(s[..l])
  {
    ValueAppend(s[..l], s[l..]);
    assert s == s[..l] + s[l..];
    ValueBound(s[..l]);
    PowPos(BASE, l);
    DivUnique(Value(s), Pow(BASE, l), Value(s[l..]), Value(s[..l]));
  }

  /** Bit k of a number. */
  function Bit(v: nat, k: nat): nat {
    PowPos(2, k);
    (v / Pow(2, k)) % 2
  }

  lemma BitInLimb(s: seq<limb>, k: nat)
    requires k / 32 < |s|
    ensures Bit(Value(s), k) == Shr32(s[k / 32], k % 32) % 2
  {
    var l, i := k / 32, k % 32;
    BitIndex(k);
    SplitAt(s, l);
    var high := Value(s[l..]);
    SuffixNext(s, l);
    DivDiv(Value(s), Pow(BASE, l), Pow(2, i));
    var rest := Value(s[l + 1..]);
    ShiftPowers(i);
    LowBit(s[l], rest, Pow(2, i), Pow(2, 32 - i), 31 - i);
  }

  lemma LowBit(x: limb, rest: nat, p: nat, q: nat, n: nat)
    requires p > 0 && p * q == BASE && q == Pow(2, n + 1)
    ensures ((x + BASE * rest) / p) % 2 == (x / p) % 2
  {
    var half := Pow(2, n);
    assert q == 2 * half;
    hide Pow;
    DivMod(x, p);
    var t := x / p + q * rest;
    assert x + BASE * rest == p * t + x % p by {
      assert p * (q * rest) == BASE * rest;
    }
    DivUnique(x + BASE * rest, p, t, x % p);
    assert q * rest == 2 * (half * rest);
    SameParity(t, x / p, half * rest);
  }

  lemma SameParity(t: nat, u: nat, h: nat)
    requires t == u + 2 * h
    ensures t % 2 == u % 2
  {
  }

  lemma BitBeyond(s: seq<limb>, k: nat)
    requires k / 32 >= |s|
    ensures Bit(Value(s), k) == 0 && Pow(2, k) > 0 && Value(s) < Pow(2, k)
  {
    ValueBound(s);
    BitIndex(k);
    PowMono(BASE, |s|, k / 32);
    MulMono(1, Pow(2, k % 32), Pow(BASE, k / 32));
    DivUnique(Value(s), Pow(2, k), 0, Value(s));
  }

  /** Everything below bit k. */
  lemma LowBits(s: seq<limb>, k: nat)
    requires k / 32 < |s|
    ensures Pow(2, k) > 0 && Pow(2, k % 32) > 0
    ensures Value(s) % Pow(2, k) == 0 <==> Value(s[..k / 32]) == 0 && s[k / 32] % Pow(2, k % 32) == 0
  {
    var l, i := k / 32, k % 32;
    BitIndex(k);
    SplitAt(s, l);
    SuffixNext(s, l);
    DivDiv(Value(s), Pow(BASE, l), Pow(2, i));
    ShiftPowers(i);
    LowLimb(s[l], Value(s[l + 1..]), Pow(2, i), Pow(2, 32 - i));
  }

  lemma LowLimb(x: limb, rest: nat, p: nat, q: nat)
    requires p > 0 && p * q == BASE
    ensures (x + BASE * rest) % p == x % p
  {
    DivMod(x, p);
    var t := x / p + q * rest;
    assert x + BASE * rest == p * t + x % p by {
      assert p * (q * rest) == BASE * rest;
    }
    DivUnique(x + BASE * rest, p, t, x % p);
  }

  lemma {:induction false} ZeroLimbs(s: seq<limb>)
    ensures Value(s) == 0 <==> forall i :: 0 <= i < |s| ==> s[i] == 0
  {
    if s != [] {
      ZeroLimbs(s[1..]);
      assert forall i :: 0 < i < |s| ==> s[i] == s[1..][i - 1];
    }
  }

  lemma ZerosBelow(t: seq<limb>, s: seq<limb>, l: nat)
    requires |t| == |s| + l && t[l..] == s && forall j :: 0 <= j < l ==> t[j] == 0
    ensures Value(t) == Pow(BASE, l) * Value(s)
  {
    ZeroLimbs(t[..l]);
    SplitAt(t, l);
  }

  lemma TopOfOne(s: seq<limb>)
    ensures |s| == 1 ==> Value(s) == s[0]
  {
    if |s| == 1 {
      ValueOne(s[0]);
      assert s == [s[0]];
    }
  }

  /** The top limb is nonzero exactly when the number reaches it. */
  lemma TopLimb(s: seq<limb>)
    requires s != []
    ensures s[|s| - 1] != 0 <==> Value(s) >= Pow(BASE, |s| - 1)
  {
    var n := |s| - 1;
    PrefixNext(s, n);
    assert s[..n + 1] == s;
    ValueBound(s[..n]);
    PowPos(BASE, n);
    if s[n] != 0 { MulMono(1, s[n], Pow(BASE, n)); }
  }

  lemma ShiftTotal(v: nat, pk: nat, bl: nat, p: nat)
    requires p == bl * pk && pk > 0
    ensures bl * (v * pk) == v * p && v * 1 == v && 1 * (v * pk) == v * pk
    ensures v != 0 ==> v * pk != 0
  {
    MulAssoc(bl, v, pk);
    assert bl * v == v * bl;
    MulAssoc(v, bl, pk);
    if v != 0 { MulPos(v, pk); }
  }

  /** A carry out of `n` limbs after at least one bit was shifted out of `len0` limbs. */
  lemma CarryFits(q: nat, v1: nat, a: nat, n: nat, v: nat, shift: nat, len0: nat)
    requires 1 <= n <= len0 && shift > 0 && Pow(2, shift) > 0
    requires v < Pow(BASE, len0) && q == v / Pow(2, shift) && q < Pow(BASE, n)
    requires a > 0 && v1 + Pow(BASE, n) * a == q + 1
    ensures n < len0
  {
    hide Pow;
    PowMono(2, 1, shift);
    PowOne(2);
    PowMono(BASE, 1, n);
    PowOne(BASE);
    CarryCore(q, v1, a, Pow(BASE, n), v, Pow(2, shift));
  }

  lemma CarryCore(q: nat, v1: nat, a: nat, w: nat, v: nat, p: nat)
    requires p >= 2 && w >= BASE && q == v / p && a > 0 && v1 + w * a == q + 1
    ensures w <= v
  {
    MulMono(1, a, w);
    DivMod(v, p);
    MulMono(2, p, q);
  }

  // --- rounding by bits ---

  /** Whether one is added: from the bit behind the cut, the bits below it and the last bit kept. */
  function AddOne(mode: Rounding, bit1: nat, below: bool, last: nat): nat {
    if mode == TowardZero || bit1 == 0 then 0
    else if mode == NearestAway || below then 1
    else last
  }

  lemma RoundByBits(v: nat, shift: nat, mode: Rounding)
    requires shift > 0
    ensures Pow(2, shift) > 0 && Pow(2, shift - 1) > 0
    ensures RoundDiv(v, Pow(2, shift), mode) ==
      v / Pow(2, shift) + AddOne(mode, Bit(v, shift - 1), v % Pow(2, shift - 1) != 0, Bit(v, shift))
  {
    var h := Pow(2, shift - 1);
    PowPos(2, shift);
    PowPos(2, shift - 1);
    assert Pow(2, shift) == 2 * h;
    RemainderOfProduct(v, h, 2);
    assert h * 2 == 2 * h;
    var b := (v / h) % 2;
    assert v % (2 * h) == h * b + v % h;
    DivMod(v, h);
    assert b == 0 || b == 1;
  }

  class Bignum {
    var len: nat
    const tab: array<limb>

    constructor (capacity: nat)
      requires capacity >= 1
      ensures fresh(tab) && tab.Length == capacity && len == 1 && Normal() && Val() == 0
    {
      len := 1;
      tab := new limb[capacity](k => 0);
      new;
      ValueOne(0);
      assert tab[..1] == [0];
    }

    ghost predicate Valid()
      reads this
    {
      1 <= len <= tab.Length
    }

    /** No leading zero limb. */
    ghost predicate Normal()
      reads this, tab
    {
      Valid() && (len == 1 || tab[len - 1] != 0)
    }

    ghost function Val(): nat
      requires Valid()
      reads this, tab
    {
      Value(tab[..len])
    }

    /** A new top limb. */
    method PushLimb(x: limb)
      requires Valid() && len < tab.Length
      modifies this`len, tab
      ensures Valid() && len == old(len) + 1 && tab[len - 1] == x
      ensures Val() == old(Val()) + Pow(BASE, old(len)) * x
    {
      hide Value, Pow;
      ghost var s := tab[..len];
      tab[len] := x;
      len := len + 1;
      assert tab[..len] == s + [x];
      ValueSnoc(s, x);
    }

    /** mpb_renorm */
    method Renorm()
      requires Valid()
      modifies this`len
      ensures Normal() && Val() == old(Val()) && len <= old(len)
    {
      hide Value;
      ghost var s := tab[..len];
      while len > 1 && tab[len - 1] == 0
        invariant 1 <= len <= old(len) && Value(tab[..len]) == Value(s)
      {
        PrefixNext(tab[..len], len - 1);
        assert tab[..len][..len - 1] == tab[..len - 1] && tab[..len][..len] == tab[..len];
        len := len - 1;
      }
    }

    /** mpb_get_bit */
    method GetBit(k: nat) returns (bit: nat)
      requires Valid()
      ensures bit == Bit(Val(), k)
    {
      hide Value, Bit, Shr32;
      var l := k / 32;
      if l >= len {
        BitBeyond(tab[..len], k);
        return 0;
      }
      BitInLimb(tab[..len], k);
      bit := Shr32(tab[l], k % 32) % 2;
    }

    /** Whether any bit below bit k is set: the oring loop of mpb_shr_round. */
    method AnyBitBelow(k: nat) returns (any: bool)
      requires Valid()
      ensures Pow(2, k) > 0 && (any <==> Val() % Pow(2, k) != 0)
    {
      hide Value, Pow;
      ghost var s := tab[..len];
      var l := k / 32;
      any := false;
      var i := 0;
      while i < l && i < len
        invariant 0 <= i <= len && i <= l
        invariant any <==> exists j :: 0 <= j < i && tab[j] != 0
      {
        any := any || tab[i] != 0;
        i := i + 1;
      }
      if l < len {
        ZeroLimbs(s[..l]);
        LowBits(s, k);
        any := any || tab[l] % Pow(2, k % 32) != 0;
      } else {
        ZeroLimbs(s);
        BitBeyond(s, k);
        DivUnique(Value(s), Pow(2, k), 0, Value(s));
      }
    }

    /** The increment that rounds: add_one of mpb_shr_round. */
    method RoundIncrement(shift: nat, mode: Rounding) returns (addOne: nat)
      requires Valid() && shift > 0
      ensures Pow(2, shift) > 0 && addOne <= 1
      ensures RoundDiv(Val(), Pow(2, shift), mode) == Val() / Pow(2, shift) + addOne
    {
      hide Value, Pow, RoundDiv;
      RoundByBits(Val(), shift, mode);
      addOne := 0;
      if mode != TowardZero {
        var bit1 := GetBit(shift - 1);
        if bit1 != 0 {
          var bit2 := true;
          if mode == NearestEven {
            bit2 := false;
            if shift >= 2 {
              bit2 := AnyBitBelow(shift - 1);
            } else {
              PowOne(2);
            }
          }
          if bit2 {
            addOne := 1;
          } else {
            addOne := GetBit(shift);
          }
        }
      }
    }

    /** Drops the `l` lowest limbs. */
    method DropLimbs(l: nat)
      requires Valid() && l < len
      modifies this`len, tab
      ensures Valid() && len == old(len) - l && tab[..len] == old(tab[l..len])
    {
      ghost var s := tab[..len];
      len := len - l;
      var i := 0;
      while i < len
        invariant 0 <= i <= len == |s| - l
        invariant forall j :: 0 <= j < i ==> tab[j] == s[j + l]
        invariant forall j :: i <= j < len + l ==> tab[j] == s[j]
      {
        tab[i] := tab[i + l];
        i := i + 1;
      }
    }

    /** Moves all limbs up by `l`. */
    method MoveUp(l: nat)
      requires Valid() && len + l <= tab.Length
      modifies tab
      ensures tab[l..len + l] == old(tab[..len])
    {
      ghost var s := tab[..len];
      var i := len;
      while i > 0
        invariant 0 <= i <= len == |s|
        invariant forall j :: i <= j < |s| ==> tab[j + l] == s[j]
        invariant forall j :: 0 <= j < i ==> tab[j] == s[j]
      {
        i := i - 1;
        tab[i + l] := tab[i];
      }
    }

    /** Inserts `l` zero limbs below. */
    method InsertLimbs(l: nat)
      requires Valid() && len + l <= tab.Length
      modifies this`len, tab
      ensures Valid() && len == old(len) + l
      ensures Val() == Pow(BASE, l) * old(Val()) && (old(Normal()) && old(Val()) != 0 ==> Normal())
    {
      hide Value, Pow;
      ghost var s := tab[..len];
      MoveUp(l);
      var i := 0;
      while i < l
        invariant 0 <= i <= l && len == |s| && tab[l..len + l] == s
        invariant forall j :: 0 <= j < i ==> tab[j] == 0
      {
        tab[i] := 0;
        i := i + 1;
      }
      len := len + l;
      ghost var t := tab[..len];
      assert t[l..] == s;
      assert s[|s| - 1] == t[len - 1];
      ZerosBelow(t, s, l);
      TopOfOne(s);
    }

    /** mpb_shr_round: round(r / 2^shift), or r * 2^-shift for a negative shift. */
    method ShrRound(shift: int, mode: Rounding)
      requires Normal()
      requires shift < 0 ==> len + (-shift) / 32 + 1 <= tab.Length
      modifies this`len, tab
      ensures Valid() && (old(Val()) != 0 || shift >= 0 ==> Normal())
      ensures shift <= 0 ==> Val() == old(Val()) * Pow(2, -shift) && len <= old(len) + (-shift) / 32 + 1
      ensures shift > 0 ==> Pow(2, shift) > 0 && Val() == RoundDiv(old(Val()), Pow(2, shift), mode) && len <= old(len)
    {
      PowOne(2);
      if shift < 0 {
        ShiftLeft(-shift);
      } else if shift > 0 {
        ShiftRight(shift, mode);
      }
    }

    method ShiftLeft(shift: nat)
      requires Normal() && shift > 0 && len + shift / 32 + 1 <= tab.Length
      modifies this`len, tab
      ensures Valid() && (old(Val()) != 0 ==> Normal()) && Val() == old(Val()) * Pow(2, shift)
      ensures len <= old(len) + shift / 32 + 1
    {
      hide Value, Pow;
      var l, k := shift / 32, shift % 32;
      BitIndex(shift);
      ShiftPowers(k);
      ghost var v := Val();
      if k != 0 {
        ShiftWithinLimb(k);
      } else {
        PowOne(2);
      }
      ShiftTotal(v, Pow(2, k), Pow(BASE, l), Pow(2, shift));
      if l > 0 {
        InsertLimbs(l);
      } else {
        PowOne(BASE);
      }
    }

    method ShiftWithinLimb(k: nat)
      requires Normal() && 1 <= k <= 31 && len + 1 <= tab.Length
      modifies this`len, tab
      ensures Normal() && Val() == old(Val()) * Pow(2, k) && len <= old(len) + 1
    {
      hide Value;
      ShiftPowers(k);
      hide Pow;
      var high := MpShl(tab, len, k, 0);
      PushLimb(high);
      Renorm();
    }

    method ShiftRight(shift: nat, mode: Rounding)
      requires Normal() && shift > 0
      modifies this`len, tab
      ensures Normal() && len <= old(len)
      ensures Pow(2, shift) > 0 && Val() == RoundDiv(old(Val()), Pow(2, shift), mode)
    {
      hide Value, Pow, RoundDiv;
      var addOne := RoundIncrement(shift, mode);
      ghost var v, len0 := Val(), len;
      ValueBound(tab[..len]);
      if shift / 32 >= len {
        BitBeyond(tab[..len], shift);
        DivUnique(v, Pow(2, shift), 0, v);
        SetSmall(addOne);
      } else {
        Truncate(shift);
        if addOne != 0 {
          AddOneLimb(v, shift, len0);
        }
      }
    }

    method SetSmall(x: limb)
      requires Valid()
      modifies this`len, tab
      ensures Normal() && len == 1 && Val() == x
    {
      len := 1;
      tab[0] := x;
      TopOfOne(tab[..1]);
    }

    /** v / 2^shift */
    method Truncate(shift: nat)
      requires Normal() && shift > 0 && shift / 32 < len
      modifies this`len, tab
      ensures Normal() && len <= old(len) && Pow(2, shift) > 0 && Val() == old(Val()) / Pow(2, shift)
    {
      hide Value, Pow;
      var l, k := shift / 32, shift % 32;
      BitIndex(shift);
      SplitAt(tab[..len], l);
      DivDiv(Val(), Pow(BASE, l), Pow(2, k));
      if l > 0 {
        DropLimbs(l);
      } else {
        assert tab[0..len] == tab[..len];
      }
      if k != 0 {
        ShiftOut(k);
      } else {
        PowOne(2);
      }
    }

    method ShiftOut(k: nat)
      requires Valid() && 1 <= k <= 31
      modifies this`len, tab
      ensures Normal() && len <= old(len) && Pow(2, k) > 0 && Val() == old(Val()) / Pow(2, k)
    {
      hide Value, Pow;
      PowPos(2, k);
      ghost var v := Val();
      var rest := MpShr(tab, len, k, 0);
      DivUnique(v, Pow(2, k), Value(tab[..len]), rest);
      Renorm();
    }

    /** Adds one; there is room for the carry because at least one bit has been dropped. */
    method AddOneLimb(ghost v: nat, ghost shift: nat, ghost len0: nat)
      requires Normal() && len <= len0 <= tab.Length && shift > 0 && v < Pow(BASE, len0)
      requires Pow(2, shift) > 0 && Val() == v / Pow(2, shift)
      modifies this`len, tab
      ensures Normal() && Val() == old(Val()) + 1 && len <= len0
    {
      hide Value, Pow;
      ghost var q := Val();
      TopLimb(tab[..len]);
      ValueBound(tab[..len]);
      var a := MpAddUi(tab, 1, len);
      TopLimb(tab[..len]);
      if a != 0 {
        CarryFits(q, Value(tab[..len]), a, len, v, shift, len0);
        PushLimb(a);
      }
    }

    /** Multiplication by a limb: mp_mul1 and the carry. */
    method MulLimb(b: limb)
      requires Normal() && Val() > 0 && b > 0 && len < tab.Length
      modifies this`len, tab
      ensures Normal() && Val() == old(Val()) * b && len <= old(len) + 1
    {
      hide Value, Pow;
      ghost var v := Val();
      TopLimb(tab[..len]);
      var h := MpMul1(tab, len, b, 0);
      if h != 0 {
        PushLimb(h);
      } else {
        TopLimb(tab[..len]);
        MulMono(1, b, v);
      }
    }

    /** mpb_set_u64 */
    method SetU64(m: nat)
      requires Valid() && tab.Length >= 2 && m < BASE * BASE
      modifies this`len, tab
      ensures Normal() && Val() == m && len <= 2
    {
      hide Value;
      tab[0] := U32(m);
      tab[1] := m / BASE;
      if tab[1] == 0 {
        len := 1;
      } else {
        len := 2;
      }
      TwoLimbs(tab[0], tab[1]);
      assert tab[..1] == [tab[0]] && tab[..2] == [tab[0]] + [tab[1]];
    }

    /** mpb_get_u64; numbers of more than two limbs are truncated. */
    method GetU64() returns (m: nat)
      requires Normal()
      ensures Val() < BASE * BASE ==> m == Val()
    {
      hide Value;
      if len == 1 {
        m := tab[0];
        TwoLimbs(tab[0], 0);
        assert tab[..1] == [tab[0]];
      } else {
        m := tab[0] + BASE * tab[1];
        TwoLimbs(tab[0], tab[1]);
        assert tab[..2] == [tab[0]] + [tab[1]];
        if len > 2 {
          TopLimb(tab[..len]);
          PowMono(BASE, 2, len - 1);
          PowOne(BASE);
        }
      }
    }

    /** mpb_mul1_base: r * radixBase + x, where the radix base 0 stands for 2^32. */
    method Mul1Base(radixBase: limb, x: limb)
      requires Normal() && len + 2 <= tab.Length
      modifies this`len, tab
      ensures Normal() && Val() == old(Val()) * (if radixBase == 0 then BASE else radixBase) + x && len <= old(len) + 1
    {
      hide Value, Pow;
      TopOfOne(tab[..len]);
      if tab[0] == 0 && len == 1 {
        tab[0] := x;
        TopOfOne(tab[..len]);
      } else if radixBase == 0 {
        ShiftIn(x);
        Renorm();
      } else {
        var h := MpMul1(tab, len, radixBase, x);
        PushLimb(h);
        Renorm();
      }
    }

    /** A new lowest limb. */
    method ShiftIn(x: limb)
      requires Valid() && len + 2 <= tab.Length
      modifies this`len, tab
      ensures Valid() && Val() == old(Val()) * BASE + x && len == old(len) + 1
    {
      hide Value;
      ghost var s := tab[..len];
      var i: int := len;
      while i >= 0
        invariant -1 <= i <= len == |s|
        invariant forall j :: i < j < len ==> tab[j + 1] == s[j]
        invariant forall j :: 0 <= j <= i && j < len ==> tab[j] == s[j]
      {
        tab[i + 1] := tab[i];
        i := i - 1;
      }
      tab[0] := x;
      len := len + 1;
      ValueCons(x, s);
      assert tab[..len] == [x] + s;
    }

    /** Division by a normalised limb: mp_div1norm and mpb_renorm; returns the remainder. */
    method DivNorm(b: limb, bInv: limb, shift: nat, ghost b0: nat) returns (r: limb)
      requires Valid() && shift <= 31 && b0 > 0 && b == b0 * Pow(2, shift) && b >= HALF && IsReciprocal(b, bInv)
      modifies this`len, tab
      ensures Normal() && len <= old(len) && Val() == old(Val()) / b0 && r == old(Val()) % b0
    {
      hide Value, Pow, IsReciprocal;
      ghost var v := Val();
      r := MpDiv1norm(tab, len, b, 0, bInv, shift, b0);
      DivUnique(v, b0, Val(), r);
      Renorm();
    }

    /** tab[0] |= 1 */
    method SetLowBit()
      requires Normal()
      modifies tab
      ensures Normal() && Val() == if old(Val()) % 2 == 1 then old(Val()) else old(Val()) + 1
    {
      hide Value;
      ghost var s := tab[..len];
      ValueCons(s[0], s[1..]);
      assert s == [s[0]] + s[1..];
      LowestBit(s[0], Value(s[1..]));
      if tab[0] % 2 == 0 {
        tab[0] := tab[0] + 1;
      }
      ghost var t := tab[..len];
      assert t == [t[0]] + s[1..];
      ValueCons(t[0], s[1..]);
    }

    /** mpb_floor_log2: the position of the first nonzero bit. */
    method FloorLog2() returns (e: int)
      requires Normal()
      ensures Val() == 0 ==> e == -1
      ensures Val() > 0 ==> e >= 0 && Pow(2, e) <= Val() < Pow(2, e + 1)
    {
      hide Pow, Clz32;
      var v := tab[len - 1];
      ghost var s := tab[..len];
      TopLimb(s);
      if v == 0 {
        TopOfOne(s);
        return -1;
      }
      PowPos(BASE, len - 1);
      e := len * 32 - 1 - Clz32(v);
      TopLimbLog(s, e);
    }
  }

  lemma LowestBit(x: limb, rest: nat)
    ensures (x + BASE * rest) % 2 == x % 2 && (x % 2 == 0 ==> x + 1 < BASE)
  {
    EvenPlus(x, HALF * rest);
  }

  lemma EvenPlus(x: nat, y: nat)
    ensures (x + 2 * y) % 2 == x % 2
  {
  }

  lemma TwoLimbs(x: limb, y: limb)
    ensures Value([x]) == x && Value([x] + [y]) == x + BASE * y
  {
    ValueOne(x);
    ValueOne(y);
    ValueCons(x, [y]);
  }

  /** The first bit of a number, from its top limb. */
  lemma TopLimbLog(s: seq<limb>, e: int)
    requires s != [] && s[|s| - 1] > 0 && e == |s| * 32 - 1 - Clz32(s[|s| - 1])
    ensures e >= 0 && Pow(2, e) <= Value(s) < Pow(2, e + 1)
  {
    hide Pow, Value, Clz32;
    var n := |s| - 1;
    var x := s[n];
    var i := 31 - Clz32(x);
    assert e == 32 * n + i;
    LimbLog(x, i);
    PrefixNext(s, n);
    assert s[..n + 1] == s;
    ValueBound(s[..n]);
    PowPow(2, 32, n);
    Pow32();
    PowAdd(2, 32 * n, i);
    PowAdd(2, 32 * n, i + 1);
    LogCore(Value(s[..n]), x, Pow(BASE, n), Pow(2, i), Pow(2, i + 1));
  }

  lemma LimbLog(x: limb, i: int)
    requires x > 0 && i == 31 - Clz32(x)
    ensures i >= 0 && Pow(2, i) <= x < Pow(2, i + 1)
  {
    var n := Clz32(x);
    PowPos(2, n);
    PowPos(2, i);
    PowAdd(2, n, i);
    Pow32();
    assert Pow(2, 32) == 2 * Pow(2, 31);
    TopBitCore(x, Pow(2, n), Pow(2, i));
  }

  lemma TopBitCore(b: nat, p: nat, q: nat)
    requires p > 0 && q > 0 && p * q == HALF && HALF <= b * p < BASE
    ensures q <= b < 2 * q && b / q == 1
  {
    if b < q { MulStrict(b, q, p); }
    if b >= 2 * q { MulMono(2 * q, b, p); }
    DivUnique(b, q, 1, b - q);
  }

  lemma LogCore(low: nat, x: nat, w: nat, p: nat, q: nat)
    requires low < w && p <= x < q
    ensures w * p <= low + w * x < w * q
  {
    MulMono(p, x, w);
    MulMono(x + 1, q, w);
  }
}
