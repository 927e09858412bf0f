/** What case folding does to the code points of each kind of run, and which runs a conversion
    can change at all. */
module CharFoldLaws {
  import opened Letters
  import opened CharCase

  /** Entry k of the table has the code points from e.code on. */
  ghost predicate EntryOf(t: CaseTable, k: nat, e: Entry) {
    WellFormed(t) && k < |t.entries| && t.entries[k] == e
  }

  /** From 128 on, the entry of a code point decides. */
  lemma FoldedByEntry(t: CaseTable, k: nat, e: Entry, c: nat, isUnicode: bool)
    requires EntryOf(t, k, e) && InEntry(e, c)
    ensures ValidEntry(t, e) && Canonicalized(t, c, isUnicode) == FoldEntry(t, e, c, isUnicode)
  {
    CanonicalizedEntry(t, c, isUnicode, k);
  }

  // --- pairs and triples ---

  /** The two code points of a pair have one canonical form: the second one in unicode mode, the
      first one otherwise. */
  lemma PairFolded(t: CaseTable, k: nat, e: Entry, i: nat)
    requires EntryOf(t, k, e) && e.kind == UL && 2 * i + 1 < e.len && e.code + 2 * i >= 128
    ensures var c := e.code + 2 * i;
      Canonicalized(t, c, true) == c + 1 == Canonicalized(t, c + 1, true) && Canonicalized(t, c, false) == c == Canonicalized(t, c + 1, false)
  {
    hide Canonicalized, WellFormed, FoldEntry, ValidEntry;
    var c := e.code + 2 * i;
    FoldedByEntry(t, k, e, c, true);
    FoldedByEntry(t, k, e, c + 1, true);
    FoldedByEntry(t, k, e, c, false);
    FoldedByEntry(t, k, e, c + 1, false);
    PairEntry(t, e, i);
  }

  lemma PairEntry(t: CaseTable, e: Entry, i: nat)
    requires ValidEntry(t, e) && e.kind == UL && 2 * i + 1 < e.len && e.code + 2 * i >= 128
    ensures var c := e.code + 2 * i;
      FoldEntry(t, e, c, true) == c + 1 == FoldEntry(t, e, c + 1, true) && FoldEntry(t, e, c, false) == c == FoldEntry(t, e, c + 1, false)
  {
    assert 2 * i % 2 == 0 && (2 * i + 1) % 2 == 1;
  }

  /** The three code points of a capital, a title-case letter and a small one have one canonical
      form: the last one in unicode mode, the first one otherwise. */
  lemma TripleFolded(t: CaseTable, k: nat, e: Entry, c: nat)
    requires EntryOf(t, k, e) && e.kind == LSU && InEntry(e, c) && e.code >= 128
    ensures Canonicalized(t, c, true) == e.code + 2 && Canonicalized(t, c, false) == e.code
  {
    FoldedByEntry(t, k, e, c, true);
    FoldedByEntry(t, k, e, c, false);
    hide Canonicalized;
  }

  // --- runs ---

  /** Whether a plain run is moved: those for folding in unicode mode, those for capitals
      otherwise. */
  predicate Moved(kind: RunType, isUnicode: bool) {
    if isUnicode then kind == UF || kind == LF else kind == U || kind == UF
  }

  /** A plain run is carried onto the run that it refers to, in order, or stays where it is.
      Outside unicode mode nothing is carried into ASCII. */
  lemma RunFolded(t: CaseTable, k: nat, e: Entry, target: Entry, i: nat, isUnicode: bool)
    requires EntryOf(t, k, e) && (e.kind == U || e.kind == L || e.kind == UF || e.kind == LF)
    requires EntryOf(t, e.data, target) && i < e.len && e.code + i >= 128
    ensures Canonicalized(t, e.code + i, isUnicode) ==
      if Moved(e.kind, isUnicode) && (isUnicode || target.code + i >= 128) then target.code + i else e.code + i
  {
    FoldedByEntry(t, k, e, e.code + i, isUnicode);
    hide Canonicalized;
  }

  // --- code points with a form of their own ---

  /** Kinds whose data are a code point or the place of one: the capital form is it, the folded
      form follows it at the distance of the kind. */
  lemma SingleFolded(t: CaseTable, k: nat, e: Entry, c: nat)
    requires EntryOf(t, k, e) && InEntry(e, c) && c >= 128
    ensures e.kind == UF_D20 ==> Folds(t, c, e.data + 32, e.data)
    ensures e.kind == UF_D1_EXT ==> e.data < |t.ext| && Folds(t, c, t.ext[e.data] + 1, t.ext[e.data])
    ensures e.kind == U_EXT ==> e.data < |t.ext| && Folds(t, c, c, t.ext[e.data])
    ensures e.kind == LF_EXT ==> e.data < |t.ext| && Folds(t, c, t.ext[e.data], c)
    ensures e.kind == U2L_399_EXT2 ==> e.data % 64 < |t.ext| && Folds(t, c, t.ext[e.data % 64] + (c - e.code), c)
  {
    FoldedByEntry(t, k, e, c, true);
    FoldedByEntry(t, k, e, c, false);
    hide Canonicalized;
  }

  /** In unicode mode c folds to `folded`, otherwise to `capital`, unless that is in ASCII. */
  ghost predicate Folds(t: CaseTable, c: nat, folded: int, capital: int)
    requires WellFormed(t)
  {
    Canonicalized(t, c, true) == folded && Canonicalized(t, c, false) == if capital >= 128 then capital else c
  }

  /** What would become several code points stays, but for three ligatures and letters with two
      accents that fold to another one. */
  lemma SeveralFolded(t: CaseTable, k: nat, e: Entry, c: nat)
    requires EntryOf(t, k, e) && InEntry(e, c) && c >= 128 && (e.kind == UF_EXT2 || e.kind == LF_EXT2 || e.kind == UF_EXT3)
    ensures Folds(t, c, if c == 0xFB06 then 0xFB05 else if c == 0x1FD3 then 0x0390 else if c == 0x1FE3 then 0x03B0 else c, c)
  {
    FoldedByEntry(t, k, e, c, true);
    FoldedByEntry(t, k, e, c, false);
    hide Canonicalized;
  }

  // --- the rest ---

  /** ASCII: the small letters in unicode mode, the capitals otherwise. */
  lemma AsciiFolded(t: CaseTable, i: nat, isUnicode: bool)
    requires WellFormed(t) && i < 26
    ensures Canonicalized(t, UPPER[i] as int, isUnicode) == Canonicalized(t, LOWER[i] as int, isUnicode) ==
      if isUnicode then LOWER[i] as int else UPPER[i] as int
  {
    UpperAt(i);
    LowerAt(i);
    hide WellFormed;
  }

  lemma OtherAscii(t: CaseTable, c: nat, isUnicode: bool)
    requires WellFormed(t) && c < 128 && !Among(c, UPPER) && !Among(c, LOWER)
    ensures Canonicalized(t, c, isUnicode) == c
  {
    AmongRanges(c);
  }

  /** Code points in no run stay. */
  lemma OtherFolded(t: CaseTable, c: nat, isUnicode: bool)
    requires WellFormed(t) && forall k :: 0 <= k < |t.entries| ==> !InEntry(t.entries[k], c)
    ensures Canonicalized(t, c, isUnicode) == c
  {
    CanonicalizedOther(t, c, isUnicode);
  }

  /** Outside unicode mode, no code point from 128 on has a canonical form below. */
  lemma NoneIntoAscii(t: CaseTable, c: nat)
    requires WellFormed(t) && c >= 128
    ensures Canonicalized(t, c, false) >= 128
  {
    if HasEntry(t, c) {
      var k :| 0 <= k < |t.entries| && InEntry(t.entries[k], c);
      FoldedByEntry(t, k, t.entries[k], c, false);
    } else {
      CanonicalizedOther(t, c, false);
    }
  }

  // --- which runs a conversion can change ---

  /** Some table has an entry with these code points that the conversion changes at c. */
  ghost predicate CanChange(kind: RunType, code: nat, len: nat, c: nat, conv: ConvType) {
    exists t: CaseTable, e: Entry :: Changes(t, e, c, conv) && e.kind == kind && e.code == code && e.len == len
  }

  ghost predicate Changes(t: CaseTable, e: Entry, c: nat, conv: ConvType) {
    ValidEntry(t, e) && InEntry(e, c) && ConvEntry(t, e, c, conv) != One(c)
  }

  /** What unicode_case1 takes to be affected are exactly the code points that the conversion can
      change. */
  lemma AffectedExact(kind: RunType, code: nat, len: nat, c: nat, conv: ConvType)
    requires code <= c < code + len && code + len <= 0x20000
    requires (kind == UL ==> len % 2 == 0) && (kind == LSU ==> len == 3 && code >= 2)
    ensures Affected(kind, c - code, conv) <==> CanChange(kind, code, len, c, conv)
  {
    hide ConvEntry, Affected, ValidEntry, FarTargets, Changes;
    if Affected(kind, c - code, conv) {
      var t, e := Witness(kind, code, len, c);
      WitnessChanges(t, e, c, conv);
    }
    if CanChange(kind, code, len, c, conv) {
      var t, e :| Changes(t, e, c, conv) && e.kind == kind && e.code == code && e.len == len;
      OnlyAffected(t, e, c, conv);
    }
  }

  lemma OnlyAffected(t: CaseTable, e: Entry, c: nat, conv: ConvType)
    requires Changes(t, e, c, conv)
    ensures Affected(e.kind, c - e.code, conv)
  {
    hide ConvEntry, Affected, ValidEntry;
    if !Affected(e.kind, c - e.code, conv) { UnaffectedStays(t, e, c, conv); }
  }

  lemma WitnessChanges(t: CaseTable, e: Entry, c: nat, conv: ConvType)
    requires FarTargets(t, e, c) && Affected(e.kind, c - e.code, conv)
    ensures Changes(t, e, c, conv)
  {
  }

  /** What the entry refers to lies elsewhere. */
  predicate FarTargets(t: CaseTable, e: Entry, c: nat) {
    ValidEntry(t, e) && InEntry(e, c) &&
    match e.kind
    case UF_D20 => e.data > 0x20000
    case UF_D1_EXT | U_EXT | LF_EXT => t.ext[e.data] > 0x20000
    case U2L_399_EXT2 => t.ext[e.data % 0x40] > 0x20000
    case U | L | UF | LF => t.entries[e.data].code != e.code
    case _ => true
  }

  /** A table with targets far away from the code points. */
  lemma Witness(kind: RunType, code: nat, len: nat, c: nat) returns (t: CaseTable, e: Entry)
    requires code <= c < code + len && code + len <= 0x20000
    requires (kind == UL ==> len % 2 == 0) && (kind == LSU ==> len == 3 && code >= 2)
    ensures e.kind == kind && e.code == code && e.len == len && FarTargets(t, e, c)
  {
    e := Entry(code, len, kind, if kind == UF_D20 then 0x30000 else 0);
    t := CaseTable([Entry(code + 1, 1, U, 0)], [0x30000]);
  }
}
