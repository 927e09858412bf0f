/** The subject string of the regular expression engine, and the cursor primitives
    that move over it (libregexp.c: GET_CHAR, PREV_CHAR and relatives; cutils.h:
    the surrogate helpers).

    Positions are indices into `units`. With `utf16` set (cbuf_type == 2) a high
    surrogate followed by a low surrogate is one character; otherwise
    (cbuf_type 0 and 1) every unit is a character. Lone surrogates are legal.
 */
module RegexInput {

  datatype Input = Input(units: seq<int>, utf16: bool)

  /** Units are 16 bits wide (or narrower). */
  predicate ValidInput(inp: Input) {
    forall i :: 0 <= i < |inp.units| ==> 0 <= inp.units[i] <= 0xFFFF
  }

  predicate IsHiSurrogate(c: int) { 0xD800 <= c < 0xDC00 }

  predicate IsLoSurrogate(c: int) { 0xDC00 <= c < 0xE000 }

  function FromSurrogate(hi: int, lo: int): int {
    65536 + 1024 * (hi % 1024) + lo % 1024
  }

  /** True when a surrogate pair starts at `p` and is not cut by `end`. */
  predicate PairAt(inp: Input, p: int, end: int)
    requires 0 <= p < end <= |inp.units|
  {
    inp.utf16 && IsHiSurrogate(inp.units[p]) && p + 1 < end && IsLoSurrogate(inp.units[p + 1])
  }

  /** GET_CHAR: the position after the character at `p`, never past `end`. */
  function NextPos(inp: Input, p: int, end: int): int
    requires 0 <= p < end <= |inp.units|
  {
    if PairAt(inp, p, end) then p + 2 else p + 1
  }

  /** GET_CHAR: the character at `p`. */
  function CharAt(inp: Input, p: int, end: int): int
    requires 0 <= p < end <= |inp.units|
  {
    if PairAt(inp, p, end) then FromSurrogate(inp.units[p], inp.units[p + 1]) else inp.units[p]
  }

  /** PREV_CHAR: the position of the character that ends at `p`, never before `start`. */
  function PrevPos(inp: Input, p: int, start: int): int
    requires 0 <= start < p <= |inp.units|
  {
    if inp.utf16 && IsLoSurrogate(inp.units[p - 1]) && p - 1 > start && IsHiSurrogate(inp.units[p - 2])
    then p - 2
    else p - 1
  }

  /** GET_PREV_CHAR: the character that ends at `p`. */
  function PrevCharAt(inp: Input, p: int, start: int): int
    requires 0 <= start < p <= |inp.units|
  {
    if inp.utf16 && IsLoSurrogate(inp.units[p - 1]) && p - 1 > start && IsHiSurrogate(inp.units[p - 2])
    then FromSurrogate(inp.units[p - 2], inp.units[p - 1])
    else inp.units[p - 1]
  }

  /** A position that does not split a surrogate pair. */
  predicate Boundary(inp: Input, p: int) {
    0 <= p <= |inp.units| &&
    !(inp.utf16 && 0 < p < |inp.units| && IsHiSurrogate(inp.units[p - 1]) && IsLoSurrogate(inp.units[p]))
  }

  /** Reading a character and stepping back over it returns to the same boundary,
      whatever lone surrogates surround it. */
  lemma PrevInvertsNext(inp: Input, p: int)
    requires Boundary(inp, p) && p < |inp.units|
    ensures var q := NextPos(inp, p, |inp.units|);
            Boundary(inp, q) && p < q && PrevPos(inp, q, 0) == p &&
            PrevCharAt(inp, q, 0) == CharAt(inp, p, |inp.units|)
  {
  }

  /** Stepping back and reading forward again returns to the same boundary. */
  lemma NextInvertsPrev(inp: Input, p: int)
    requires Boundary(inp, p) && 0 < p
    ensures var q := PrevPos(inp, p, 0);
            Boundary(inp, q) && 0 <= q < p && NextPos(inp, q, |inp.units|) == p &&
            CharAt(inp, q, |inp.units|) == PrevCharAt(inp, p, 0)
  {
  }

  /** There are `n` characters before `p`. */
  predicate CanBack(inp: Input, p: int, n: nat)
    requires 0 <= p <= |inp.units|
  {
    n == 0 || (p > 0 && CanBack(inp, PrevPos(inp, p, 0), n - 1))
  }

  /** Going back `n` characters (the loop of the greedy-quantifier state), or to the start
      of the text if there are fewer. */
  function Back(inp: Input, p: int, n: nat): int
    requires 0 <= p <= |inp.units|
    ensures 0 <= Back(inp, p, n) <= p
  {
    if n == 0 || p == 0 then p else Back(inp, PrevPos(inp, p, 0), n - 1)
  }

  lemma CharInRange(inp: Input, p: int, end: int)
    requires ValidInput(inp) && 0 <= p < end <= |inp.units|
    ensures 0 <= CharAt(inp, p, end) <= 0x10FFFF
  {
  }

  lemma {:induction false} BackAdd(inp: Input, p: int, a: nat, b: nat)
    requires 0 <= p <= |inp.units|
    ensures Back(inp, p, a + b) == Back(inp, Back(inp, p, a), b)
    ensures CanBack(inp, p, a) && CanBack(inp, Back(inp, p, a), b) ==> CanBack(inp, p, a + b)
  {
    if a > 0 && p > 0 {
      BackAdd(inp, PrevPos(inp, p, 0), a - 1, b);
    }
  }

  predicate IsLineTerminator(c: int) {
    c == 10 || c == 13 || c == 0x2028 || c == 0x2029
  }

  predicate IsWordChar(c: int) {
    48 <= c <= 57 || 97 <= c <= 122 || 65 <= c <= 90 || c == 95
  }
}
