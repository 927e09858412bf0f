/** Whole strings: utf8_scan, utf8_decode_buf16 and utf8_encode_buf16. */
module UtfStrings {
  import opened Words
  import opened Utf
  import opened RegexInput

  // --- the meaning of strings ---

  /** get_hi_surrogate, get_lo_surrogate */
  function HiSurrogate(c: nat): int {
    c / 0x400 - 0x10000 / 0x400 + 0xD800
  }

  function LoSurrogate(c: nat): int {
    c % 0x400 + 0xDC00
  }

  /** The UTF-16 code units of a code point. */
  function UnitsOf(c: nat): (u: seq<unit>)
    requires c < POINT_LIMIT
    ensures 1 <= |u| <= 2
  {
    if c < 0x10000 then [c] else [HiSurrogate(c), LoSurrogate(c)]
  }

  lemma PairUp(c: nat)
    requires 0x10000 <= c < POINT_LIMIT
    ensures IsHiSurrogate(HiSurrogate(c)) && IsLoSurrogate(LoSurrogate(c)) && FromSurrogate(HiSurrogate(c), LoSurrogate(c)) == c
  {
  }

  lemma PairApart(hi: unit, lo: unit)
    requires IsHiSurrogate(hi) && IsLoSurrogate(lo)
    ensures var c := FromSurrogate(hi, lo); 0x10000 <= c < POINT_LIMIT && UnitsOf(c) == [hi, lo]
  {
  }

  predicate PairFirst(u: seq<unit>) {
    |u| >= 2 && IsHiSurrogate(u[0]) && IsLoSurrogate(u[1])
  }

  /** The code points of a UTF-16 string; lone surrogates stand for themselves. */
  function Points(u: seq<unit>): (ps: seq<nat>)
    ensures forall k :: 0 <= k < |ps| ==> ps[k] < POINT_LIMIT
  {
    if u == [] then [] else if PairFirst(u) then [FromSurrogate(u[0], u[1])] + Points(u[2..]) else [u[0]] + Points(u[1..])
  }

  function AllUnits(ps: seq<nat>): seq<unit>
    requires forall k :: 0 <= k < |ps| ==> ps[k] < POINT_LIMIT
  {
    if ps == [] then [] else UnitsOf(ps[0]) + AllUnits(ps[1..])
  }

  function EncodeAll(ps: seq<nat>): seq<byte> {
    if ps == [] then [] else Encoding(ps[0]) + EncodeAll(ps[1..])
  }

  /** The code points of a byte string; every byte that starts none is a replacement character. */
  ghost function DecodeAll(s: seq<byte>): (ps: seq<nat>)
    ensures forall k :: 0 <= k < |ps| ==> ps[k] < POINT_LIMIT
    decreases |s|
  {
    if s == [] then [] else [First(s).0] + DecodeAll(s[First(s).1..])
  }

  function Utf8(u: seq<unit>): seq<byte> {
    EncodeAll(Points(u))
  }

  ghost function Utf16(s: seq<byte>): seq<unit> {
    AllUnits(DecodeAll(s))
  }

  // --- round trips ---

  lemma {:induction false} DecodeEncode(ps: seq<nat>)
    requires forall k :: 0 <= k < |ps| ==> ps[k] < POINT_LIMIT
    ensures DecodeAll(EncodeAll(ps)) == ps
  {
    if ps != [] {
      var e, s := Encoding(ps[0]), EncodeAll(ps);
      assert s == e + EncodeAll(ps[1..]);
      assert e <= s;
      FirstIs(s, ps[0]);
      assert s[|e|..] == EncodeAll(ps[1..]);
      DecodeEncode(ps[1..]);
    }
  }

  lemma {:induction false} UnitsPoints(u: seq<unit>)
    ensures AllUnits(Points(u)) == u
  {
    if u != [] {
      if PairFirst(u) {
        PairApart(u[0], u[1]);
        UnitsPoints(u[2..]);
        assert Points(u)[1..] == Points(u[2..]);
      } else {
        UnitsPoints(u[1..]);
        assert Points(u)[1..] == Points(u[1..]);
      }
    }
  }

  /** Every UTF-16 string, with any lone surrogates, survives encoding and decoding. */
  lemma EncodeThenDecode(u: seq<unit>)
    ensures Utf16(Utf8(u)) == u
  {
    hide EncodeAll, DecodeAll, AllUnits, Points;
    DecodeEncode(Points(u));
    UnitsPoints(u);
  }

  /** Encodings one after the other, without surrogates that should have been a pair. */
  ghost predicate WellFormed(s: seq<byte>)
    decreases |s|
  {
    s == [] ||
    (!Malformed(s) && !PairedAt(s) && WellFormed(s[First(s).1..]))
  }

  /** A high surrogate and behind it a low one, encoded separately. */
  ghost predicate PairedAt(s: seq<byte>)
    requires s != []
  {
    var rest := s[First(s).1..];
    IsHiSurrogate(First(s).0) && rest != [] && IsLoSurrogate(First(rest).0)
  }

  lemma FirstUnit(s: seq<byte>)
    requires s != []
    ensures Utf16(s) == UnitsOf(First(s).0) + Utf16(s[First(s).1..])
    ensures |Utf16(s)| >= 1 && (IsLoSurrogate(Utf16(s)[0]) <==> IsLoSurrogate(First(s).0))
  {
    var c := First(s).0;
    assert DecodeAll(s)[1..] == DecodeAll(s[First(s).1..]);
    if c >= 0x10000 { PairUp(c); }
  }

  /** The points of the units of c, and what follows. */
  lemma PointsOfUnits(c: nat, w: seq<unit>)
    requires c < POINT_LIMIT
    ensures if IsHiSurrogate(c) && w != [] && IsLoSurrogate(w[0])
      then Points(UnitsOf(c) + w) == [FromSurrogate(c, w[0])] + Points(w[1..])
      else Points(UnitsOf(c) + w) == [c] + Points(w)
  {
    var u := UnitsOf(c) + w;
    if c >= 0x10000 {
      PairUp(c);
      assert u[2..] == w;
    } else {
      assert u[1..] == w;
      if IsHiSurrogate(c) && w != [] { assert u[2..] == w[1..]; }
    }
  }

  /** Decoding and encoding gives back exactly the well-formed byte strings. */
  lemma {:induction false} DecodeThenEncode(s: seq<byte>)
    ensures Utf8(Utf16(s)) == s <==> WellFormed(s)
    decreases |s|
  {
    if s != [] {
      hide First, Malformed, Encoding, Points, DecodeAll, AllUnits, UnitsOf;
      var (c, n) := First(s);
      var rest := s[n..];
      DecodeThenEncode(rest);
      FirstUnit(s);
      if rest != [] { FirstUnit(rest); } else { EmptyUnits(rest); }
      PointsOfUnits(c, Utf16(rest));
      if PairedAt(s) {
        JoinedPair(s, c, n, Utf16(rest));
      } else if Malformed(s) {
        NotReplacement(s, Utf8(Utf16(rest)));
      } else {
        SameRest(s, c, n, Utf8(Utf16(rest)));
      }
      assert Utf8(Utf16(s)) == EncodeAll(Points(Utf16(s)));
    }
  }

  lemma EmptyUnits(s: seq<byte>)
    requires s == []
    ensures Utf16(s) == []
  {
  }

  /** Where a pair is joined, the result starts with another encoding. */
  lemma JoinedPair(s: seq<byte>, c: nat, n: nat, w: seq<unit>)
    requires s != [] && (c, n) == First(s) && IsHiSurrogate(c) && w != [] && IsLoSurrogate(w[0])
    ensures EncodeAll([FromSurrogate(c, w[0])] + Points(w[1..])) != s
  {
    hide Malformed, Encoding, Points;
    var d := FromSurrogate(c, w[0]);
    PairApart(c, w[0]);
    var ps := [d] + Points(w[1..]);
    assert ps[1..] == Points(w[1..]);
    assert Encoding(d) <= EncodeAll(ps);
    if Starts(s, d) { FirstIs(s, d); }
  }

  /** Where nothing is encoded, the result starts with a replacement character. */
  lemma NotReplacement(s: seq<byte>, t: seq<byte>)
    requires s != [] && Malformed(s)
    ensures Encoding(REPLACEMENT) + t != s && First(s) == (REPLACEMENT, 1)
  {
    assert !Starts(s, REPLACEMENT);
    hide Encoding;
    assert Encoding(REPLACEMENT) <= Encoding(REPLACEMENT) + t;
  }

  lemma SameRest(s: seq<byte>, c: nat, n: nat, t: seq<byte>)
    requires s != [] && !Malformed(s) && (c, n) == First(s)
    ensures Encoding(c) + t == s <==> t == s[n..]
  {
    hide Encoding;
    assert s == Encoding(c) + s[n..];
    if Encoding(c) + t == s { assert t == (Encoding(c) + t)[n..]; }
  }

  // --- utf8_scan ---

  ghost predicate AnyAbove(ps: seq<nat>, limit: nat) {
    exists k :: 0 <= k < |ps| && ps[k] > limit
  }

  /** Some byte starts no encoding. */
  ghost predicate HasErrors(s: seq<byte>)
    decreases |s|
  {
    s != [] && (Malformed(s) || HasErrors(s[First(s).1..]))
  }

  predicate IsAscii(s: seq<byte>) {
    forall k :: 0 <= k < |s| ==> s[k] < 0x80
  }

  lemma {:induction false} AsciiUnits(s: seq<byte>)
    requires IsAscii(s)
    ensures |Utf16(s)| == |s| && !AnyAbove(DecodeAll(s), 0xFF) && !HasErrors(s)
    decreases |s|
  {
    if s != [] {
      AsciiStarts(s);
      AsciiUnits(s[1..]);
      ScanNext(s);
    }
  }

  /** What one character adds. */
  lemma ScanNext(s: seq<byte>)
    requires s != []
    ensures var (c, n) := First(s); var rest := s[n..];
      |Utf16(s)| == (if c > 0xFFFF then 2 else 1) + |Utf16(rest)| &&
      (AnyAbove(DecodeAll(s), 0xFF) <==> c > 0xFF || AnyAbove(DecodeAll(rest), 0xFF)) &&
      (AnyAbove(DecodeAll(s), 0xFFFF) <==> c > 0xFFFF || AnyAbove(DecodeAll(rest), 0xFFFF)) &&
      (HasErrors(s) <==> Malformed(s) || HasErrors(rest))
  {
    FirstUnit(s);
    var ps := DecodeAll(s);
    var rest := DecodeAll(s[First(s).1..]);
    assert ps == [First(s).0] + rest;
    AnyAboveNext(First(s).0, rest, 0xFF);
    AnyAboveNext(First(s).0, rest, 0xFFFF);
  }

  lemma AnyAboveNext(c: nat, ps: seq<nat>, limit: nat)
    ensures AnyAbove([c] + ps, limit) <==> c > limit || AnyAbove(ps, limit)
  {
    var all := [c] + ps;
    if c > limit { assert all[0] > limit; }
    if AnyAbove(ps, limit) {
      var k :| 0 <= k < |ps| && ps[k] > limit;
      assert all[k + 1] > limit;
    }
  }

  /** The bits that utf8_scan returns. */
  datatype Kind = Kind(nonAscii: bool, has16Bit: bool, hasNonBmp1: bool, hasErrors: bool)

  /** The loop that ORs all bytes. */
  method AllAscii(buf: seq<byte>) returns (ascii: bool)
    ensures ascii <==> IsAscii(buf)
  {
    ascii := true;
    for i := 0 to |buf|
      invariant ascii <==> IsAscii(buf[..i])
    {
      assert buf[..i + 1] == buf[..i] + [buf[i]];
      ascii := ascii && buf[i] < 0x80;
    }
    assert buf[..|buf|] == buf;
  }

  /** utf8_scan: what is in a byte string, and the length that utf8_decode_buf16 will return. */
  method Utf8Scan(buf: seq<byte>) returns (kind: Kind, len: nat)
    ensures len == |Utf16(buf)|
    ensures kind.nonAscii <==> !IsAscii(buf)
    ensures kind.has16Bit <==> AnyAbove(DecodeAll(buf), 0xFF)
    ensures kind.hasNonBmp1 <==> AnyAbove(DecodeAll(buf), 0xFFFF)
    ensures kind.hasErrors <==> HasErrors(buf)
  {
    hide First, Malformed, DecodeAll, AnyAbove, HasErrors, Utf16, IsAscii;
    var ascii := AllAscii(buf);
    if ascii {
      AsciiUnits(buf);
      AsciiSmall(buf);
      return Kind(false, false, false, false), |buf|;
    }
    kind := Kind(true, false, false, false);
    len := 0;
    var p := 0;
    assert buf[0..] == buf;
    while p < |buf|
      invariant p <= |buf| && kind.nonAscii && len + |Utf16(buf[p..])| == |Utf16(buf)|
      invariant kind.has16Bit || AnyAbove(DecodeAll(buf[p..]), 0xFF) <==> AnyAbove(DecodeAll(buf), 0xFF)
      invariant kind.hasNonBmp1 || AnyAbove(DecodeAll(buf[p..]), 0xFFFF) <==> AnyAbove(DecodeAll(buf), 0xFFFF)
      invariant kind.hasErrors || HasErrors(buf[p..]) <==> HasErrors(buf)
    {
      ghost var rest := buf[p..];
      ScanNext(rest);
      FirstLength(rest);
      len := len + 1;
      p := p + 1;
      if buf[p - 1] >= 0x80 {
        var c, next := Utf8DecodeLen(buf, p - 1, |buf| - (p - 1));
        assert buf[p - 1..p - 1 + (|buf| - (p - 1))] == rest;
        if next == p {
          kind := kind.(hasErrors := true);
        }
        assert rest[next - (p - 1)..] == buf[next..];
        p := next;
        if c > 0xFF {
          kind := kind.(has16Bit := true);
          if c > 0xFFFF {
            len := len + 1;
            kind := kind.(hasNonBmp1 := true);
          }
        }
      } else {
        AsciiStarts(rest);
        assert rest[1..] == buf[p..];
      }
    }
    NothingLeft(buf[p..]);
  }

  /** A longer lead byte that is decoded alone is an error. */
  lemma FirstLength(s: seq<byte>)
    requires s != []
    ensures s[0] >= 0x80 ==> (Malformed(s) <==> First(s).1 == 1)
    ensures 1 <= First(s).1 <= |s|
  {
    if s[0] >= 0x80 && !Malformed(s) {
      StartsForm(s, First(s).0);
      assert Encoding(First(s).0)[0] == s[0];
    }
  }

  lemma AsciiSmall(s: seq<byte>)
    requires IsAscii(s)
    ensures !AnyAbove(DecodeAll(s), 0xFFFF)
  {
    AsciiUnits(s);
  }

  lemma NothingLeft(s: seq<byte>)
    requires s == []
    ensures Utf16(s) == [] && !AnyAbove(DecodeAll(s), 0xFF) && !AnyAbove(DecodeAll(s), 0xFFFF) && !HasErrors(s)
  {
  }

  // --- utf8_decode_buf16 ---

  function Min(a: nat, b: nat): nat {
    if a < b then a else b
  }

  lemma DecodeNext(full: seq<unit>, i: nat, s: seq<byte>)
    requires i <= |full| && full[i..] == Utf16(s) && s != []
    ensures var (c, n) := First(s);
      i + |UnitsOf(c)| <= |full| && full[i..i + |UnitsOf(c)|] == UnitsOf(c) && full[i + |UnitsOf(c)|..] == Utf16(s[n..])
  {
    hide First, DecodeAll;
    FirstUnit(s);
    hide Utf16;
    var u := UnitsOf(First(s).0);
    assert full[i..i + |u|] == full[i..][..|u|];
    assert full[i + |u|..] == full[i..][|u|..];
  }

  /** utf8_decode_buf16: returns the number of units whatever destLen is, and writes as many of
      them as there is room for. */
  method Utf8DecodeBuf16(dest: array<unit>, destLen: nat, src: seq<byte>) returns (n: nat)
    requires destLen <= dest.Length
    modifies dest
    ensures n == |Utf16(src)| && dest[..Min(n, destLen)] == Utf16(src)[..Min(n, destLen)]
    ensures dest[Min(n, destLen)..] == old(dest[Min(n, destLen)..])
  {
    hide First, Utf16, DecodeAll, Stored;
    ghost var full, was := Utf16(src), dest[..];
    n := 0;
    var p := 0;
    assert src[0..] == src && full[0..] == full;
    NothingStored(dest[..], was, full, destLen);
    while p < |src|
      invariant p <= |src| && n <= |full| && full[n..] == Utf16(src[p..])
      invariant Stored(dest[..], was, full, n, destLen)
      decreases |src| - p
    {
      DecodeNext(full, n, src[p..]);
      var c;
      c, p := NextCharacter(src, p);
      if c > 0xFFFF {
        PairUp(c);
        TwoAt(full, n, HiSurrogate(c), LoSurrogate(c));
        n := Store(dest, destLen, n, HiSurrogate(c), was, full);
        c := LoSurrogate(c);
      } else {
        OneAt(full, n, c);
      }
      n := Store(dest, destLen, n, c, was, full);
    }
    NoUnits(src[p..]);
    AllStored(dest[..], was, full, n, destLen);
  }

  lemma TwoAt(full: seq<unit>, n: nat, x: unit, y: unit)
    requires n + 2 <= |full| && full[n..n + 2] == [x, y]
    ensures full[n] == x && full[n + 1] == y
  {
    assert full[n..n + 2][0] == full[n] && full[n..n + 2][1] == full[n + 1];
  }

  lemma OneAt(full: seq<unit>, n: nat, x: unit)
    requires n + 1 <= |full| && full[n..n + 1] == [x]
    ensures full[n] == x
  {
    assert full[n..n + 1][0] == full[n];
  }

  /** n units have been produced; those that fit are stored. */
  ghost predicate Stored(dest: seq<unit>, was: seq<unit>, full: seq<unit>, n: nat, destLen: nat) {
    n <= |full| && destLen <= |dest| == |was| &&
    (forall k :: 0 <= k < Min(n, destLen) ==> dest[k] == full[k]) &&
    (forall k :: Min(n, destLen) <= k < |dest| ==> dest[k] == was[k])
  }

  lemma NothingStored(dest: seq<unit>, was: seq<unit>, full: seq<unit>, destLen: nat)
    requires dest == was && destLen <= |dest|
    ensures Stored(dest, was, full, 0, destLen)
  {
  }

  lemma AllStored(dest: seq<unit>, was: seq<unit>, full: seq<unit>, n: nat, destLen: nat)
    requires Stored(dest, was, full, n, destLen)
    ensures dest[..Min(n, destLen)] == full[..Min(n, destLen)] && dest[Min(n, destLen)..] == was[Min(n, destLen)..]
  {
  }

  /** `if (i < dest_len) dest[i] = c`, and i++ */
  method Store(dest: array<unit>, destLen: nat, n0: nat, c: unit, ghost was: seq<unit>, ghost full: seq<unit>) returns (n: nat)
    requires Stored(dest[..], was, full, n0, destLen) && n0 < |full| && full[n0] == c
    modifies dest
    ensures n == n0 + 1 && Stored(dest[..], was, full, n, destLen)
  {
    if n0 < destLen {
      dest[n0] := c;
    }
    n := n0 + 1;
  }

  /** One character: a byte below 0x80, or what utf8_decode_len makes of the others. */
  method NextCharacter(src: seq<byte>, p0: nat) returns (c: nat, p: nat)
    requires p0 < |src|
    ensures (c, p - p0) == First(src[p0..]) && p0 < p <= |src| && c < POINT_LIMIT && src[p0..][p - p0..] == src[p..]
  {
    hide First;
    c := src[p0];
    p := p0 + 1;
    ghost var rest := src[p0..];
    if c >= 0x80 {
      assert src[p0..p0 + (|src| - p0)] == rest;
      c, p := Utf8DecodeLen(src, p - 1, |src| - (p - 1));
    } else {
      AsciiStarts(rest);
    }
  }

  lemma NoUnits(s: seq<byte>)
    requires s == []
    ensures Utf16(s) == []
  {
  }

  // --- utf8_encode_buf16 ---

  lemma {:induction false} EncodeAppend(a: seq<nat>, b: seq<nat>)
    ensures EncodeAll(a + b) == EncodeAll(a) + EncodeAll(b)
  {
    if a == [] {
      assert a + b == b;
    } else {
      assert (a + b)[1..] == a[1..] + b;
      EncodeAppend(a[1..], b);
    }
  }

  /** One more code point. */
  lemma EncodeNext(ps: seq<nat>, k: nat)
    requires k < |ps|
    ensures EncodeAll(ps[..k + 1]) == EncodeAll(ps[..k]) + Encoding(ps[k])
    ensures EncodeAll(ps[k..]) == Encoding(ps[k]) + EncodeAll(ps[k + 1..])
  {
    hide Encoding;
    assert ps[..k + 1] == ps[..k] + [ps[k]];
    EncodeAppend(ps[..k], [ps[k]]);
    assert EncodeAll([ps[k]]) == Encoding(ps[k]) + EncodeAll([]);
    assert ps[k..][1..] == ps[k + 1..];
  }

  /** The next code point of a UTF-16 string. */
  method NextPoint(src: seq<unit>, i0: nat, ghost ps: seq<nat>, ghost k: nat) returns (c: nat, i: nat)
    requires i0 < |src| && k <= |ps| && Points(src[i0..]) == ps[k..]
    ensures i0 < i <= |src| && k < |ps| && c == ps[k] && Points(src[i..]) == ps[k + 1..]
    ensures c < POINT_LIMIT && (c > 0xFFFF ==> i == i0 + 2) && (c <= 0xFFFF ==> i == i0 + 1)
  {
    ghost var u := src[i0..];
    c := src[i0];
    i := i0 + 1;
    if c >= 0x80 {
      if IsHiSurrogate(c) && i < |src| && IsLoSurrogate(src[i]) {
        PairApart(src[i0], src[i]);
        c := FromSurrogate(c, src[i]);
        i := i + 1;
        assert u[2..] == src[i..];
        assert Points(u)[1..] == Points(u[2..]);
      }
    }
    assert u[1..] == src[i0 + 1..];
    assert ps[k..][0] == ps[k] && ps[k..][1..] == ps[k + 1..];
    if c <= 0xFFFF { assert Points(u)[1..] == Points(u[1..]); }
  }

  /** What utf8_encode_buf16 writes: k whole characters, as many as leave room for the
      terminating zero. */
  ghost predicate WholeCharacters(ps: seq<nat>, k: nat, destLen: nat) {
    k <= |ps| && (k == 0 || |EncodeAll(ps[..k])| < destLen) && (k == |ps| || |EncodeAll(ps[..k + 1])| >= destLen)
  }

  /** utf8_encode_buf16: returns the full length whatever destLen is, and writes nothing behind
      the terminating zero. With room for everything, the string can be read back. */
  method Utf8EncodeBuf16(dest: array<byte>, destLen: nat, src: seq<unit>) returns (n: nat, ghost k: nat)
    requires destLen <= dest.Length
    modifies dest
    ensures n == |Utf8(src)| && WholeCharacters(Points(src), k, destLen)
    ensures var w := EncodeAll(Points(src)[..k]);
      |w| <= destLen && dest[..|w|] == w && (|w| < destLen ==> dest[|w|] == 0) &&
      forall i :: |w| < i < dest.Length || i == |w| == destLen < dest.Length ==> dest[i] == old(dest[i])
    ensures n < destLen ==> dest[..n] == Utf8(src) && Utf16(dest[..n]) == src
  {
    hide EncodeAll, Points, Encoding, Utf16;
    ghost var ps := Points(src);
    k := 0;
    var i, j: nat := 0, 0;
    assert src[0..] == src && ps[0..] == ps && ps[..0] == [];
    NothingEncoded();
    assert dest[..0] == [];
    while i < |src|
      invariant i <= |src| && k <= |ps| && Points(src[i..]) == ps[k..] && j == |EncodeAll(ps[..k])|
      invariant (k == 0 || j < destLen) && j <= destLen && dest[..j] == EncodeAll(ps[..k])
      invariant dest[j..] == old(dest[..])[j..]
    {
      var c, next := NextPoint(src, i, ps, k);
      EncodeNext(ps, k);
      if j + Utf8EncodeLen(c) >= destLen {
        if j < destLen {
          dest[j] := 0;
        }
        ghost var written := dest[..j];
        var rest := LengthOf(src, i, ps, k);
        EncodeAppend(ps[..k], ps[k..]);
        assert ps[..k] + ps[k..] == ps;
        n := j + rest;
        if n < destLen { WholeString(src, k, destLen); }
        return;
      }
      var len := Utf8Encode(dest, j, c);
      j := j + len;
      i := next;
      k := k + 1;
    }
    PointsEnd(src[i..], ps, k);
    if j < destLen {
      dest[j] := 0;
      WholeString(src, k, destLen);
    }
    n := j;
  }

  lemma NothingEncoded()
    ensures EncodeAll([]) == []
  {
  }

  lemma PointsEnd(u: seq<unit>, ps: seq<nat>, k: nat)
    requires u == [] && k <= |ps| && Points(u) == ps[k..]
    ensures k == |ps| && ps[..k] == ps
  {
  }

  /** The loop that only counts, after an overflow. */
  method LengthOf(src: seq<unit>, i0: nat, ghost ps: seq<nat>, ghost k0: nat) returns (n: nat)
    requires i0 <= |src| && k0 <= |ps| && Points(src[i0..]) == ps[k0..]
    ensures n == |EncodeAll(ps[k0..])|
  {
    hide EncodeAll, Points, Encoding;
    n := 0;
    var i := i0;
    ghost var k := k0;
    while i < |src|
      invariant i <= |src| && k0 <= k <= |ps| && Points(src[i..]) == ps[k..]
      invariant n + |EncodeAll(ps[k..])| == |EncodeAll(ps[k0..])|
    {
      var c, next := NextPoint(src, i, ps, k);
      EncodeNext(ps, k);
      n := n + Utf8EncodeLen(c);
      i := next;
      k := k + 1;
    }
    PointsEnd(src[i..], ps, k);
    assert ps[k..] == [];
    NothingEncoded();
  }

  /** With room for everything, decoding the written bytes gives back the string. */
  lemma WholeString(src: seq<unit>, k: nat, destLen: nat)
    requires WholeCharacters(Points(src), k, destLen) && |Utf8(src)| < destLen
    ensures k == |Points(src)| && EncodeAll(Points(src)[..k]) == Utf8(src) && Utf16(EncodeAll(Points(src)[..k])) == src
  {
    hide EncodeAll, Points, Encoding, Utf16;
    var ps := Points(src);
    if k < |ps| {
      assert ps[..k + 1] + ps[k + 1..] == ps;
      EncodeAppend(ps[..k + 1], ps[k + 1..]);
    }
    assert ps[..|ps|] == ps;
    EncodeThenDecode(src);
  }
}
