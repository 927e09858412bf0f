/** UTF-8 and UTF-16: utf8_encode, utf8_decode, utf8_decode_len, utf8_scan, utf8_decode_buf16,
    utf8_encode_buf16 and the surrogate helpers. Surrogates are encoded like other code points. */
module Utf {
  import opened Words

  type unit = x: int | 0 <= x < 0x10000

  const REPLACEMENT := 0xFFFD
  const POINT_LIMIT := 0x110000

  // --- encoding one code point ---

  /** utf8_encode_len */
  function Utf8EncodeLen(c: nat): (n: nat)
    ensures n == |Encoding(c)|
  {
    if c < 0x80 then 1 else if c < 0x800 then 2 else if c < 0x10000 then 3 else if c < POINT_LIMIT then 4 else 3
  }

  /** The bytes of a code point (section 3 of RFC 3629, extended to surrogates). */
  function Encoding(c: nat): (s: seq<byte>)
    ensures 1 <= |s| <= 4
  {
    if c < 0x80 then [c]
    else if c < 0x800 then [0xC0 + c / 0x40, 0x80 + c % 0x40]
    else if c < 0x10000 then [0xE0 + c / 0x1000, 0x80 + c / 0x40 % 0x40, 0x80 + c % 0x40]
    else if c < POINT_LIMIT then [0xF0 + c / 0x40000, 0x80 + c / 0x1000 % 0x40, 0x80 + c / 0x40 % 0x40, 0x80 + c % 0x40]
    else [0xEF, 0xBF, 0xBD]
  }

  /** `now` is `was` with the bytes e written at position j. */
  predicate Written(now: seq<byte>, was: seq<byte>, j: nat, e: seq<byte>) {
    j + |e| <= |was| && now == was[..j] + e + was[j + |e|..]
  }

  method PutOne(buf: array<byte>, j: nat, b0: byte)
    requires j + 1 <= buf.Length
    modifies buf
    ensures Written(buf[..], old(buf[..]), j, [b0])
  {
    buf[j] := b0;
  }

  method PutTwo(buf: array<byte>, j: nat, b0: byte, b1: byte)
    requires j + 2 <= buf.Length
    modifies buf
    ensures Written(buf[..], old(buf[..]), j, [b0, b1])
  {
    buf[j] := b0;
    buf[j + 1] := b1;
  }

  method PutThree(buf: array<byte>, j: nat, b0: byte, b1: byte, b2: byte)
    requires j + 3 <= buf.Length
    modifies buf
    ensures Written(buf[..], old(buf[..]), j, [b0, b1, b2])
  {
    buf[j] := b0;
    buf[j + 1] := b1;
    buf[j + 2] := b2;
  }

  method PutFour(buf: array<byte>, j: nat, b0: byte, b1: byte, b2: byte, b3: byte)
    requires j + 4 <= buf.Length
    modifies buf
    ensures Written(buf[..], old(buf[..]), j, [b0, b1, b2, b3])
  {
    buf[j] := b0;
    buf[j + 1] := b1;
    buf[j + 2] := b2;
    buf[j + 3] := b3;
  }

  lemma EncodingIs(c: nat)
    ensures c < 0x80 ==> Encoding(c) == [c]
    ensures c >= POINT_LIMIT ==> Encoding(c) == [0xEF, 0xBF, 0xBD]
  {
  }

  lemma EncodingTwo(c: nat)
    requires 0x80 <= c < 0x800
    ensures c / 0x40 + 0xC0 < 0x100 && Encoding(c) == [c / 0x40 + 0xC0, c % 0x40 + 0x80]
  {
  }

  lemma EncodingThree(c: nat)
    requires 0x800 <= c < 0x10000
    ensures c / 0x1000 + 0xE0 < 0x100 && Encoding(c) == [c / 0x1000 + 0xE0, c / 0x40 % 0x40 + 0x80, c % 0x40 + 0x80]
  {
  }

  lemma EncodingFour(c: nat)
    requires 0x10000 <= c < POINT_LIMIT
    ensures c / 0x40000 + 0xF0 < 0x100
    ensures Encoding(c) == [c / 0x40000 + 0xF0, c / 0x1000 % 0x40 + 0x80, c / 0x40 % 0x40 + 0x80, c % 0x40 + 0x80]
  {
  }

  /** utf8_encode: writes the bytes of c at position j. */
  method Utf8Encode(buf: array<byte>, j: nat, c: nat) returns (n: nat)
    requires j + 4 <= buf.Length || j + |Encoding(c)| <= buf.Length
    modifies buf
    ensures n == |Encoding(c)| && buf[..j + n] == old(buf[..j]) + Encoding(c) && buf[j + n..] == old(buf[j + n..])
  {
    ghost var was := buf[..];
    hide Written, Encoding;
    EncodingIs(c);
    if c < 0x80 {
      PutOne(buf, j, c);
      n := 1;
    } else if c < 0x800 {
      EncodingTwo(c);
      PutTwo(buf, j, c / 0x40 + 0xC0, c % 0x40 + 0x80);
      n := 2;
    } else if c < 0x10000 {
      EncodingThree(c);
      PutThree(buf, j, c / 0x1000 + 0xE0, c / 0x40 % 0x40 + 0x80, c % 0x40 + 0x80);
      n := 3;
    } else if c < POINT_LIMIT {
      EncodingFour(c);
      PutFour(buf, j, c / 0x40000 + 0xF0, c / 0x1000 % 0x40 + 0x80, c / 0x40 % 0x40 + 0x80, c % 0x40 + 0x80);
      n := 4;
    } else {
      PutThree(buf, j, 0xFFFD / 0x1000 + 0xE0, 0xFFFD / 0x40 % 0x40 + 0x80, 0xFFFD % 0x40 + 0x80);
      n := 3;
    }
    Appended(buf[..], was, j, Encoding(c));
  }

  lemma Appended(now: seq<byte>, was: seq<byte>, j: nat, e: seq<byte>)
    requires Written(now, was, j, e)
    ensures now[..j + |e|] == was[..j] + e && now[j + |e|..] == was[j + |e|..]
  {
  }

  // --- decoding one code point ---

  /** The code point c is encoded at the start of s. */
  predicate Starts(s: seq<byte>, c: nat) {
    c < POINT_LIMIT && Encoding(c) <= s
  }

  /** No encoding is the start of another one. */
  lemma StartsUnique(s: seq<byte>, c: nat, d: nat)
    requires Starts(s, c) && Starts(s, d)
    ensures c == d
  {
    var e, f := Encoding(c), Encoding(d);
    assert e[0] == s[0] == f[0];
    assert |e| == |f|;
    assert e == s[..|e|] == f;
    SameEncoding(c, d);
  }

  function Two(a: int, b: int): int {
    (a - 0xC0) * 0x40 + (b - 0x80)
  }

  function Three(a: int, b: int, c: int): int {
    (a - 0xE0) * 0x1000 + (b - 0x80) * 0x40 + (c - 0x80)
  }

  function Four(a: int, b: int, c: int, d: int): int {
    (a - 0xF0) * 0x40000 + (b - 0x80) * 0x1000 + (c - 0x80) * 0x40 + (d - 0x80)
  }

  lemma TwoSextets(c: nat)
    ensures c == c / 0x1000 * 0x1000 + c / 0x40 % 0x40 * 0x40 + c % 0x40
  {
    assert c / 0x1000 == c / 0x40 / 0x40;
  }

  lemma ThreeSextets(c: nat)
    ensures c == c / 0x40000 * 0x40000 + c / 0x1000 % 0x40 * 0x1000 + c / 0x40 % 0x40 * 0x40 + c % 0x40
  {
    TwoSextets(c);
    assert c / 0x40000 == c / 0x1000 / 0x40;
  }

  lemma TwoParts(x: nat, y: nat, z: nat)
    requires y < 0x40 && z < 0x40
    ensures var c := x * 0x1000 + y * 0x40 + z; c / 0x1000 == x && c / 0x40 % 0x40 == y && c % 0x40 == z
  {
    var c := x * 0x1000 + y * 0x40 + z;
    assert c / 0x40 == x * 0x40 + y;
  }

  lemma ThreeParts(w: nat, x: nat, y: nat, z: nat)
    requires x < 0x40 && y < 0x40 && z < 0x40
    ensures var c := w * 0x40000 + x * 0x1000 + y * 0x40 + z;
      c / 0x40000 == w && c / 0x1000 % 0x40 == x && c / 0x40 % 0x40 == y && c % 0x40 == z
  {
    TwoParts(w * 0x40 + x, y, z);
  }

  /** The arithmetic of utf8_decode undoes that of utf8_encode. */
  lemma EncodingValue(c: nat)
    requires c < POINT_LIMIT
    ensures var e := Encoding(c);
      c == if |e| == 1 then e[0] else if |e| == 2 then Two(e[0], e[1]) else if |e| == 3 then Three(e[0], e[1], e[2]) else Four(e[0], e[1], e[2], e[3])
  {
    if c < 0x800 {
    } else if c < 0x10000 {
      TwoSextets(c);
    } else {
      ThreeSextets(c);
    }
  }

  lemma SameEncoding(c: nat, d: nat)
    requires c < POINT_LIMIT && d < POINT_LIMIT && Encoding(c) == Encoding(d)
    ensures c == d
  {
    EncodingValue(c);
    EncodingValue(d);
    hide Encoding;
  }

  /** The code point at the start of s, and its length; REPLACEMENT and 1 if there is none. */
  ghost function First(s: seq<byte>): (r: (nat, nat))
    requires s != []
    ensures 1 <= r.1 <= |s| && r.0 < POINT_LIMIT
    ensures (Starts(s, r.0) && r.1 == |Encoding(r.0)|) || (r == (0xFFFD, 1) && Malformed(s))
  {
    if c: nat :| Starts(s, c) then (c, |Encoding(c)|) else (REPLACEMENT, 1)
  }

  ghost predicate Malformed(s: seq<byte>) {
    forall c: nat :: !Starts(s, c)
  }

  lemma FirstIs(s: seq<byte>, c: nat)
    requires s != [] && Starts(s, c)
    ensures First(s) == (c, |Encoding(c)|) && !Malformed(s)
  {
    forall d: nat
      ensures Starts(s, d) ==> d == c
    {
      if Starts(s, d) { StartsUnique(s, c, d); }
    }
  }

  /** How many bytes utf8_decode may look at. */
  function Lookahead(lead: byte): nat {
    if lead < 0xC0 then 1 else if lead < 0xE0 then 2 else if lead < 0xF0 then 3 else 4
  }

  predicate Continues(x: byte) {
    0x80 <= x <= 0xBF
  }

  /** The bytes that may follow a lead byte. */
  predicate Second(lead: byte, x: byte) {
    (if lead == 0xE0 then 0xA0 else if lead == 0xF0 then 0x90 else 0x80) <= x <= if lead == 0xF4 then 0x8F else 0xBF
  }

  /** The form of an encoding. */
  lemma StartsForm(s: seq<byte>, c: nat)
    requires Starts(s, c)
    ensures |s| >= 1 && (s[0] < 0x80 || 0xC2 <= s[0] <= 0xF4)
    ensures s[0] >= 0x80 ==> |s| >= Lookahead(s[0]) && Second(s[0], s[1])
    ensures s[0] >= 0xE0 ==> Continues(s[2])
    ensures s[0] >= 0xF0 ==> Continues(s[3])
  {
    var e := Encoding(c);
    assert e[0] == s[0];
    if |e| > 1 { assert e[1] == s[1]; }
    if |e| > 2 { assert e[2] == s[2]; }
    if |e| > 3 { assert e[3] == s[3]; }
  }

  /** Bytes of this form are an encoding. */
  lemma FormStarts(s: seq<byte>) returns (c: nat)
    requires |s| >= 1 && 0xC2 <= s[0] <= 0xF4 && |s| >= Lookahead(s[0]) && Second(s[0], s[1])
    requires (s[0] >= 0xE0 ==> Continues(s[2])) && (s[0] >= 0xF0 ==> Continues(s[3]))
    ensures Starts(s, c) && |Encoding(c)| == Lookahead(s[0])
    ensures c == if s[0] < 0xE0 then Two(s[0], s[1]) else if s[0] < 0xF0 then Three(s[0], s[1], s[2]) else Four(s[0], s[1], s[2], s[3])
  {
    if s[0] < 0xE0 {
      c := Two(s[0], s[1]);
      assert s[..2] == [s[0], s[1]] == Encoding(c);
    } else if s[0] < 0xF0 {
      c := Three(s[0], s[1], s[2]);
      TwoParts(s[0] as int - 0xE0, s[1] as int - 0x80, s[2] as int - 0x80);
      assert s[..3] == [s[0], s[1], s[2]];
    } else {
      c := Four(s[0], s[1], s[2], s[3]);
      ThreeParts(s[0] as int - 0xF0, s[1] as int - 0x80, s[2] as int - 0x80, s[3] as int - 0x80);
      assert s[..4] == [s[0], s[1], s[2], s[3]];
    }
  }

  /** Other bytes are not. */
  lemma OtherForm(s: seq<byte>)
    requires s != [] && s[0] >= 0x80
    requires !(0xC2 <= s[0] <= 0xF4 && |s| >= Lookahead(s[0]) && Second(s[0], s[1]) &&
               (s[0] >= 0xE0 ==> Continues(s[2])) && (s[0] >= 0xF0 ==> Continues(s[3])))
    ensures Malformed(s) && First(s) == (REPLACEMENT, 1)
  {
    forall c: nat
      ensures !Starts(s, c)
    {
      hide Starts;
      if Starts(s, c) { StartsForm(s, c); }
    }
  }

  /** The bytes that utf8_decode looks at are there: enough of them, or a terminating zero. */
  predicate Readable(s: seq<byte>, p: nat) {
    p < |s| && (p + Lookahead(s[p]) <= |s| || 0 in s[p..])
  }

  /** A zero byte stops utf8_decode before the end. */
  lemma ZeroStops(s: seq<byte>, p: nat)
    requires Readable(s, p)
    ensures s[p] >= 0xC0 ==> p + 1 < |s|
    ensures s[p] >= 0xE0 && s[p + 1] != 0 ==> p + 2 < |s|
    ensures s[p] >= 0xF0 && s[p + 1] != 0 && s[p + 2] != 0 ==> p + 3 < |s|
  {
    if p + Lookahead(s[p]) > |s| {
      var rest := s[p..];
      var k :| 0 <= k < |rest| && rest[k] == 0;
      assert s[p + k] == 0;
    }
  }

  /** utf8_decode */
  method Utf8Decode(s: seq<byte>, p0: nat) returns (c: nat, p: nat)
    requires Readable(s, p0)
    ensures (c, p - p0) == First(s[p0..])
  {
    hide Starts, Encoding, First, Malformed;
    ghost var rest := s[p0..];
    ZeroStops(s, p0);
    c := s[p0];
    p := p0 + 1;
    if c < 0x80 {
      AsciiStarts(rest);
      return;
    }
    if 0xC2 <= c <= 0xDF {
      if 0x80 <= s[p] <= 0xBF {
        c := Two(c, s[p]);
        p := p + 1;
        ghost var d := FormStarts(rest);
        FirstIs(rest, d);
        return;
      }
    } else if 0xE0 <= c <= 0xEF {
      var lower := if c == 0xE0 then 0xA0 else 0x80;
      if lower <= s[p] <= 0xBF && 0x80 <= s[p + 1] <= 0xBF {
        c := Three(c, s[p], s[p + 1]);
        p := p + 2;
        ghost var d := FormStarts(rest);
        FirstIs(rest, d);
        return;
      }
    } else if 0xF0 <= c <= 0xF4 {
      var lower := if c == 0xF0 then 0x90 else 0x80;
      var upper := if c == 0xF4 then 0x8F else 0xBF;
      if lower <= s[p] <= upper && 0x80 <= s[p + 1] <= 0xBF && 0x80 <= s[p + 2] <= 0xBF {
        c := Four(c, s[p], s[p + 1], s[p + 2]);
        p := p + 3;
        ghost var d := FormStarts(rest);
        FirstIs(rest, d);
        return;
      }
    }
    OtherForm(rest);
    c := REPLACEMENT;
  }

  lemma AsciiStarts(s: seq<byte>)
    requires s != [] && s[0] < 0x80
    ensures First(s) == (s[0], 1) && !Malformed(s)
  {
    assert Encoding(s[0]) == [s[0]] <= s;
    FirstIs(s, s[0]);
  }

  /** utf8_decode_len, with maxLen bytes left: it never looks beyond them. */
  method Utf8DecodeLen(s: seq<byte>, p0: nat, maxLen: nat) returns (c: nat, p: nat)
    requires p0 + maxLen <= |s|
    ensures if maxLen == 0 then (c, p) == (REPLACEMENT, p0) else (c, p - p0) == First(s[p0..p0 + maxLen])
  {
    if maxLen == 0 {
      return REPLACEMENT, p0;
    }
    ghost var rest := s[p0..p0 + maxLen];
    if (maxLen == 1 && s[p0] < 0x80) || (maxLen == 2 && s[p0] < 0xE0) || (maxLen == 3 && s[p0] < 0xF0) || maxLen >= 4 {
      c, p := Utf8Decode(s[..p0 + maxLen], p0);
      assert s[..p0 + maxLen][p0..] == rest;
    } else {
      OtherForm(rest);
      c, p := REPLACEMENT, p0 + 1;
    }
  }
}
