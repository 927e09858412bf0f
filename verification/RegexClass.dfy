/** The end of re_parse_char_class: a class as it was written becomes an instruction. */
module RegexClass {
  import opened Words
  import opened CharPoints
  import opened CharRanges
  import opened CharCase
  import opened CharFold
  import opened RegexTerm
  import opened RegexCode
  import opened RegexMachine
  import opened RegexBytes
  import opened RegexRanges
  import opened RegexEmitter

  /** Whether c is in the class: one of the members of `s` is c, or has the same canonical form
      when case is ignored; or none of them, for an inverted class. */
  ghost predicate InClass(t: CaseTable, s: seq<nat>, ignoreCase: bool, isUnicode: bool, invert: bool, c: nat)
    requires WellFormed(t)
  {
    invert != if ignoreCase then exists x: nat :: Contains(s, x) && Canonicalized(t, x, isUnicode) == Canonicalized(t, c, isUnicode)
              else Contains(s, c)
  }

  /** The flags of an expression canonicalize by the table. */
  ghost predicate FlagsOf(f: Flags, t: CaseTable, ignoreCase: bool, isUnicode: bool)
    requires WellFormed(t)
  {
    f.ignoreCase == ignoreCase && forall c: nat :: c <= 0x10FFFF ==> f.canonicalize(c) == Canonicalized(t, c, isUnicode)
  }

  /** `points` is the class `s` after cr_regexp_canonicalize and cr_invert, if they apply. */
  ghost predicate Finished(t: CaseTable, s: seq<nat>, ignoreCase: bool, isUnicode: bool, invert: bool, points: seq<nat>)
    requires WellFormed(t)
  {
    CanonicalPoints(points) &&
    forall d: nat :: d < UINT32_MAX ==> (Contains(points, d) <==> invert != if ignoreCase then FoldedSet(t, s, isUnicode, d) else Contains(s, d))
  }

  /** The instruction accepts exactly the characters of the class. */
  lemma ClassInstrExact(t: CaseTable, f: Flags, s: seq<nat>, isUnicode: bool, invert: bool, points: seq<nat>, c: nat)
    requires WellFormed(t) && FlagsOf(f, t, f.ignoreCase, isUnicode) && c <= 0x10FFFF
    requires Finished(t, s, f.ignoreCase, isUnicode, invert, points)
    ensures InstrAccepts(f, RangeInstr(points), c) <==> InClass(t, s, f.ignoreCase, isUnicode, invert, c)
  {
    CanonicalCode(t, c, isUnicode);
    hide WellFormed, Canonicalized, CanonicalPoints, InstrAccepts, RangeInstr, Contains;
    assert 0 <= Canon(f, c) <= 0x10FFFF;
    RangeInstrExact(f, points, c);
  }

  lemma CanonicalCode(t: CaseTable, c: nat, isUnicode: bool)
    requires WellFormed(t) && c <= 0x10FFFF
    ensures 0 <= Canonicalized(t, c, isUnicode) <= 0x10FFFF
  {
    if HasEntry(t, c) {
      var k :| 0 <= k < |t.entries| && InEntry(t.entries[k], c);
      CanonicalizedEntry(t, c, isUnicode, k);
      hide Canonicalized;
    } else {
      CanonicalizedOther(t, c, isUnicode);
    }
  }

  /** Canonicalizes and inverts the class if that is asked for. */
  method FinishClass(cr: CharRange, t: CaseTable, ignoreCase: bool, isUnicode: bool, invert: bool)
    requires WellFormed(t) && CanonicalPoints(cr.points)
    modifies cr
    ensures Finished(t, old(cr.points), ignoreCase, isUnicode, invert, cr.points)
  {
    ghost var s := cr.points;
    StrictRises(s);
    hide WellFormed, FoldedSet, Contains, Canonicalized;
    if ignoreCase {
      CrRegexpCanonicalize(cr, t, isUnicode);
      StrictRises(cr.points);
    }
    if invert {
      cr.Invert();
    }
  }

  /** The bytes of a class, and what they stand for. */
  method EmitClass(em: Emitter, cr: CharRange, t: CaseTable, ignoreCase: bool, isUnicode: bool, invert: bool) returns (r: EmitResult)
    requires WellFormed(t) && CanonicalPoints(cr.points)
    modifies cr, em`byteCode
    ensures CanonicalPoints(cr.points) && (r.Done? || r.TooManyRanges?)
    ensures r.Done? <==> |cr.points| / 2 < 65535
    ensures r.Done? ==> em.byteCode == old(em.byteCode) + Encode(RangeInstr(cr.points))
    ensures r.Done? ==> forall f: Flags, c: nat :: (FlagsOf(f, t, ignoreCase, isUnicode) && c <= 0x10FFFF ==>
      (InstrAccepts(f, RangeInstr(cr.points), c) <==> InClass(t, old(cr.points), ignoreCase, isUnicode, invert, c)))
  {
    ghost var s := cr.points;
    hide WellFormed, RangeInstr, Encode, Contains, Canonicalized, InClass, InstrAccepts;
    FinishClass(cr, t, ignoreCase, isUnicode, invert);
    r := em.EmitRange(cr.points);
    forall f: Flags, c: nat | FlagsOf(f, t, ignoreCase, isUnicode) && c <= 0x10FFFF
      ensures InstrAccepts(f, RangeInstr(cr.points), c) <==> InClass(t, s, ignoreCase, isUnicode, invert, c)
    {
      ClassInstrExact(t, f, s, isUnicode, invert, cr.points, c);
    }
  }
}
