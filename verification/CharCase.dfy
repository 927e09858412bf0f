/** The case conversion table: lre_case_conv_entry, lre_case_folding_entry, lre_canonicalize and
    unicode_case1 (libunicode.c). The table is a parameter. */
module CharCase {
  import opened CharPoints
  import opened CharRanges

  /** RUN_TYPE_U ... RUN_TYPE_UF_EXT3 */
  datatype RunType = U | L | UF | LF | UL | LSU | U2L_399_EXT2 | UF_D20 | UF_D1_EXT | U_EXT | LF_EXT | UF_EXT2 | LF_EXT2 | UF_EXT3

  /** One entry of case_conv_table1 and case_conv_table2: the code points from `code` on. */
  datatype Entry = Entry(code: nat, len: nat, kind: RunType, data: nat)

  /** The entries, and case_conv_ext. */
  datatype CaseTable = CaseTable(entries: seq<Entry>, ext: seq<nat>)

  /** 0 = to upper, 1 = to lower, 2 = case folding */
  datatype ConvType = ToUpper | ToLower | Folding

  /** The result of a conversion: one code point, or more than one. */
  datatype Conv = One(c: int) | Several

  predicate InEntry(e: Entry, c: nat) {
    e.code <= c < e.code + e.len
  }

  /** The references of an entry into the tables. */
  predicate ValidEntry(t: CaseTable, e: Entry) {
    1 <= e.len && e.code + e.len <= 0x20000 &&
    match e.kind
    case U | L | UF | LF => e.data < |t.entries|
    case UL => e.len % 2 == 0
    case LSU => e.len == 3 && e.code >= 2
    case U2L_399_EXT2 => e.data % 0x40 < |t.ext|
    case UF_D1_EXT | U_EXT | LF_EXT => e.data < |t.ext|
    case _ => true
  }

  /** lre_case_conv_entry; of several code points it is only said that they are several. */
  function ConvEntry(t: CaseTable, e: Entry, c: nat, conv: ConvType): Conv
    requires ValidEntry(t, e) && InEntry(e, c)
  {
    var isLower := conv != ToUpper;
    var a := c - e.code;
    match e.kind
    case U => if conv == ToUpper then One(a + t.entries[e.data].code) else One(c)
    case L => if conv == ToLower then One(a + t.entries[e.data].code) else One(c)
    case UF => if conv != ToLower then One(a + t.entries[e.data].code) else One(c)
    case LF => if conv != ToUpper then One(a + t.entries[e.data].code) else One(c)
    case UL => if a % 2 != (if isLower then 0 else 1) then One(c) else One((if a % 2 == 0 then a + 1 else a - 1) + e.code)
    case LSU =>
      if a == 1 then One(if isLower then c + 1 else c - 1)
      else if a == (if isLower then 0 else 2) then One(if isLower then c + 2 else c - 2)
      else One(c)
    case U2L_399_EXT2 => if !isLower then Several else One(a + t.ext[e.data % 0x40])
    case UF_D20 => if conv == ToLower then One(c) else One(e.data + if conv == Folding then 0x20 else 0)
    case UF_D1_EXT => if conv == ToLower then One(c) else One(t.ext[e.data] + if conv == Folding then 1 else 0)
    case U_EXT => if isLower then One(c) else One(t.ext[e.data])
    case LF_EXT => if !isLower then One(c) else One(t.ext[e.data])
    case UF_EXT2 => if conv == ToLower then One(c) else Several
    case LF_EXT2 => if !isLower then One(c) else Several
    case UF_EXT3 => if conv == ToLower then One(c) else Several
  }

  /** The rule for ASCII letters. */
  function AsciiFold(c: nat, isUnicode: bool): nat {
    if isUnicode then (if 'A' as int <= c <= 'Z' as int then c + 32 else c)
    else if 'a' as int <= c <= 'z' as int then c - 32 else c
  }

  /** lre_case_folding_entry */
  function FoldEntry(t: CaseTable, e: Entry, c: nat, isUnicode: bool): int
    requires ValidEntry(t, e) && InEntry(e, c)
  {
    if isUnicode then
      match ConvEntry(t, e, c, Folding)
      case One(d) => d
      case Several => if c == 0xfb06 then 0xfb05 else if c == 0x01fd3 then 0x390 else if c == 0x01fe3 then 0x3b0 else c
    else if c < 128 then AsciiFold(c, false)
    else
      match ConvEntry(t, e, c, ToUpper)
      case One(d) => if d >= 128 then d else c
      case Several => c
  }

  /** Entries are sorted and disjoint, and agree with the rule for ASCII letters. */
  ghost predicate WellFormed(t: CaseTable) {
    && (forall k :: 0 <= k < |t.entries| ==> ValidEntry(t, t.entries[k]))
    && (forall k, l :: 0 <= k < l < |t.entries| ==> t.entries[k].code + t.entries[k].len <= t.entries[l].code)
    && (forall k, c :: 0 <= k < |t.entries| && InEntry(t.entries[k], c) && c < 128 ==> AsciiEntry(t, t.entries[k], c))
    && (forall c: nat :: c < 128 && (exists u :: AsciiFold(c, u) != c) ==> HasEntry(t, c))
    && (forall k, c, u :: 0 <= k < |t.entries| && InEntry(t.entries[k], c) ==> 0 <= FoldEntry(t, t.entries[k], c, u) < 0x110000)
  }

  predicate AsciiEntry(t: CaseTable, e: Entry, c: nat)
    requires ValidEntry(t, e) && InEntry(e, c)
  {
    ConvEntry(t, e, c, ToUpper) == One(AsciiFold(c, false)) && ConvEntry(t, e, c, Folding) == One(AsciiFold(c, true))
  }

  predicate HasEntry(t: CaseTable, c: nat) {
    exists k :: 0 <= k < |t.entries| && InEntry(t.entries[k], c)
  }

  /** At most one entry has c. */
  lemma EntryUnique(t: CaseTable, c: nat, k: int, l: int)
    requires WellFormed(t) && 0 <= k < |t.entries| && 0 <= l < |t.entries| && InEntry(t.entries[k], c) && InEntry(t.entries[l], c)
    ensures k == l
  {
  }

  /** What lre_canonicalize computes. */
  ghost function Canonicalized(t: CaseTable, c: nat, isUnicode: bool): int
    requires WellFormed(t)
  {
    if c < 128 then AsciiFold(c, isUnicode)
    else if k :| 0 <= k < |t.entries| && InEntry(t.entries[k], c) then FoldEntry(t, t.entries[k], c, isUnicode)
    else c
  }

  lemma CanonicalizedEntry(t: CaseTable, c: nat, isUnicode: bool, k: int)
    requires WellFormed(t) && 0 <= k < |t.entries| && InEntry(t.entries[k], c)
    ensures FoldEntry(t, t.entries[k], c, isUnicode) == Canonicalized(t, c, isUnicode)
  {
    if c < 128 {
      assert AsciiEntry(t, t.entries[k], c);
    } else {
      forall l | 0 <= l < |t.entries| && InEntry(t.entries[l], c)
        ensures l == k
      {
        EntryUnique(t, c, k, l);
      }
    }
  }

  lemma CanonicalizedOther(t: CaseTable, c: nat, isUnicode: bool)
    requires WellFormed(t) && !HasEntry(t, c)
    ensures Canonicalized(t, c, isUnicode) == c
  {
    assert c < 128 ==> AsciiFold(c, isUnicode) == c;
  }

  /** lre_canonicalize: binary search for the entry. */
  method LreCanonicalize(t: CaseTable, c: nat, isUnicode: bool) returns (d: int)
    requires WellFormed(t)
    ensures d == Canonicalized(t, c, isUnicode)
  {
    if c < 128 {
      return AsciiFold(c, isUnicode);
    }
    var idxMin, idxMax := 0, |t.entries| - 1;
    while idxMin <= idxMax
      invariant 0 <= idxMin <= |t.entries| && -1 <= idxMax < |t.entries|
      invariant forall k :: 0 <= k < idxMin ==> c >= t.entries[k].code + t.entries[k].len
      invariant forall k :: idxMax < k < |t.entries| ==> c < t.entries[k].code
      decreases idxMax - idxMin
    {
      var idx := (idxMax + idxMin) / 2;
      var e := t.entries[idx];
      if c < e.code {
        idxMax := idx - 1;
      } else if c >= e.code + e.len {
        idxMin := idx + 1;
      } else {
        CanonicalizedEntry(t, c, isUnicode, idx);
        return FoldEntry(t, e, c, isUnicode);
      }
    }
    CanonicalizedOther(t, c, isUnicode);
    d := c;
  }

  // --- unicode_case1 ---

  /** CASE_U, CASE_L, CASE_F */
  datatype CaseMask = CaseMask(u: bool, l: bool, f: bool)

  /** tab_run_mask: which kinds of runs a conversion changes. */
  predicate RunMask(kind: RunType, conv: ConvType) {
    match conv
    case ToUpper => kind in {U, UF, UL, LSU, U2L_399_EXT2, UF_D20, UF_D1_EXT, U_EXT, UF_EXT2, UF_EXT3}
    case ToLower => kind in {L, LF, UL, LSU, U2L_399_EXT2, LF_EXT, LF_EXT2}
    case Folding => kind in {UF, LF, UL, LSU, U2L_399_EXT2, LF_EXT, LF_EXT2, UF_D20, UF_D1_EXT, UF_EXT2, UF_EXT3}
  }

  /** Which code points of a run it changes: every second one of UL runs, two of LSU runs. */
  predicate Affected(kind: RunType, a: nat, conv: ConvType) {
    RunMask(kind, conv) && (kind == UL ==> a % 2 == if conv == ToUpper then 1 else 0) &&
    (kind == LSU ==> a == 1 || a == if conv == ToUpper then 2 else 0)
  }

  predicate AffectedBy(e: Entry, c: nat, m: CaseMask) {
    InEntry(e, c) && ((m.u && Affected(e.kind, c - e.code, ToUpper)) || (m.l && Affected(e.kind, c - e.code, ToLower)) ||
                      (m.f && Affected(e.kind, c - e.code, Folding)))
  }

  /** Code points that are not affected keep their value. */
  lemma UnaffectedStays(t: CaseTable, e: Entry, c: nat, conv: ConvType)
    requires ValidEntry(t, e) && InEntry(e, c) && !Affected(e.kind, c - e.code, conv)
    ensures ConvEntry(t, e, c, conv) == One(c)
  {
  }

  /** ... also under folding as regular expressions do it. */
  lemma UnaffectedFold(t: CaseTable, c: nat, isUnicode: bool, k: int)
    requires WellFormed(t) && 0 <= k < |t.entries| && InEntry(t.entries[k], c)
    requires !Affected(t.entries[k].kind, c - t.entries[k].code, if isUnicode then Folding else ToUpper)
    ensures Canonicalized(t, c, isUnicode) == c
  {
    var e := t.entries[k];
    CanonicalizedEntry(t, c, isUnicode, k);
    UnaffectedStays(t, e, c, if isUnicode then Folding else ToUpper);
    if c < 128 { assert AsciiEntry(t, e, c); }
  }

  /** Everything put so far lies below `limit`. */
  ghost predicate Below(s: seq<nat>, limit: nat) {
    Ranges(s) && (s != [] ==> s[|s| - 1] <= limit)
  }

  /** Adds an interval behind all others. */
  method Put(cr: CharRange, a: nat, b: nat)
    requires Below(cr.points, a) && a <= b
    modifies cr
    ensures Below(cr.points, b)
    ensures forall c: nat :: Contains(cr.points, c) <==> Contains(old(cr.points), c) || a <= c < b
  {
    ghost var s := cr.points;
    cr.AddInterval(a, b);
    forall c: nat
      ensures Contains(cr.points, c) <==> Contains(s, c) || a <= c < b
    {
      ContainsMore(s, a, b, c);
    }
    hide Contains;
  }

  /** Every second code point of an UL run. */
  method PutAlternate(cr: CharRange, code: nat, len: nat)
    requires Below(cr.points, code) && len % 2 == 0
    modifies cr
    ensures len > 0 ==> Below(cr.points, code + len - 1)
    ensures Below(cr.points, code + len)
    ensures forall c: nat :: Contains(cr.points, c) <==> Contains(old(cr.points), c) || (code <= c < code + len && (c - code) % 2 == 0)
  {
    hide Contains;
    var i := 0;
    while i < len
      invariant 0 <= i <= len && i % 2 == 0 && Below(cr.points, code + i) && (i > 0 ==> Below(cr.points, code + i - 1))
      invariant forall c: nat :: Contains(cr.points, c) <==> Contains(old(cr.points), c) || (code <= c < code + i && (c - code) % 2 == 0)
    {
      Put(cr, code + i, code + i + 1);
      i := i + 2;
    }
  }

  /** Three neighbouring code points; the middle one and one of the others. */
  method PutTriple(cr: CharRange, code: nat, upper: bool)
    requires Below(cr.points, code)
    modifies cr
    ensures Below(cr.points, code + 3)
    ensures forall c: nat :: Contains(cr.points, c) <==> Contains(old(cr.points), c) || c == code + 1 || c == if upper then code + 2 else code
  {
    hide Contains;
    if !upper {
      Put(cr, code, code + 1);
    }
    Put(cr, code + 1, code + 2);
    if upper {
      Put(cr, code + 2, code + 3);
    }
  }

  /** The body of the loop of unicode_case1. */
  method CaseEntry(cr: CharRange, t: CaseTable, e: Entry, m: CaseMask)
    requires ValidEntry(t, e) && Below(cr.points, e.code)
    modifies cr
    ensures Below(cr.points, e.code + e.len)
    ensures forall c: nat :: Contains(cr.points, c) <==> Contains(old(cr.points), c) || AffectedBy(e, c, m)
  {
    hide Contains;
    if (m.u && RunMask(e.kind, ToUpper)) || (m.l && RunMask(e.kind, ToLower)) || (m.f && RunMask(e.kind, Folding)) {
      if e.kind == UL && !(m.u && (m.l || m.f)) {
        PutAlternate(cr, e.code + (if m.u then 1 else 0), e.len);
      } else if e.kind == LSU && !(m.u && (m.l || m.f)) {
        PutTriple(cr, e.code, m.u);
      } else {
        Put(cr, e.code, e.code + e.len);
      }
    }
  }

  ghost predicate AffectedSomewhere(t: CaseTable, n: nat, c: nat, m: CaseMask) {
    exists k :: 0 <= k < n && k < |t.entries| && AffectedBy(t.entries[k], c, m)
  }

  /** unicode_case1: the set of the code points that the conversions in the mask affect. */
  method UnicodeCase1(cr: CharRange, t: CaseTable, m: CaseMask)
    requires WellFormed(t) && cr.points == []
    modifies cr
    ensures Below(cr.points, 0x20000)
    ensures forall c: nat :: Contains(cr.points, c) <==> AffectedSomewhere(t, |t.entries|, c, m)
  {
    hide Contains, AffectedBy, AffectedSomewhere;
    NothingAffected(t, m);
    NoneContained();
    if !m.u && !m.l && !m.f {
      NoMask(t, m);
      return;
    }
    ghost var limit: nat := 0;
    for idx := 0 to |t.entries|
      invariant Below(cr.points, limit) && limit <= 0x20000
      invariant idx < |t.entries| ==> limit <= t.entries[idx].code
      invariant forall c: nat :: Contains(cr.points, c) <==> AffectedSomewhere(t, idx, c, m)
    {
      var e := t.entries[idx];
      CaseEntry(cr, t, e, m);
      limit := e.code + e.len;
      forall c: nat
        ensures AffectedSomewhere(t, idx + 1, c, m) <==> AffectedSomewhere(t, idx, c, m) || AffectedBy(e, c, m)
      {
        AffectedNext(t, idx, c, m);
      }
    }
  }

  lemma NothingAffected(t: CaseTable, m: CaseMask)
    ensures forall c: nat :: !AffectedSomewhere(t, 0, c, m)
  {
  }

  lemma NoneContained()
    ensures forall c: nat :: !Contains([], c)
  {
  }

  lemma NoMask(t: CaseTable, m: CaseMask)
    requires !m.u && !m.l && !m.f
    ensures forall c: nat :: !AffectedSomewhere(t, |t.entries|, c, m)
  {
  }

  lemma AffectedNext(t: CaseTable, idx: nat, c: nat, m: CaseMask)
    requires idx < |t.entries|
    ensures AffectedSomewhere(t, idx + 1, c, m) <==> AffectedSomewhere(t, idx, c, m) || AffectedBy(t.entries[idx], c, m)
  {
    hide AffectedBy;
  }
}
