/** Run-length tables with an index: get_index_pos, lre_is_in_table, unicode_prop1 and
    unicode_get_cc (libunicode.c). The tables are parameters. */
module CharIndex {
  import opened Words
  import opened CharPoints
  import opened CharRanges

  const INDEX_BLOCK_LEN := 32
  const CODE_LIMIT := 0x20_0000

  /** get_le24: three bytes of an index table. */
  function Le24(index: seq<byte>, k: nat): nat
    requires 3 * k + 2 < |index|
  {
    ByteAt(index, 3 * k) + 0x100 * ByteAt(index, 3 * k + 1) + 0x1_0000 * ByteAt(index, 3 * k + 2)
  }

  function ByteAt(table: seq<byte>, p: nat): nat {
    if p < |table| then table[p] else 0
  }

  /** The code point of an index entry, and the offset in its block. */
  function IndexCode(index: seq<byte>, k: nat): nat
    requires 3 * k + 2 < |index|
  {
    Le24(index, k) % CODE_LIMIT
  }

  function IndexPos(index: seq<byte>, k: nat): nat
    requires 3 * k + 2 < |index|
  {
    (k + 1) * INDEX_BLOCK_LEN + Le24(index, k) / CODE_LIMIT
  }

  /** Index entries are sorted; the last one, whose code point is the limit of the table, has
      no offset. */
  ghost predicate IndexShape(index: seq<byte>, n: nat) {
    n >= 1 && |index| == 3 * n && Le24(index, n - 1) < CODE_LIMIT &&
    forall k, l :: 0 <= k < l < n ==> IndexCode(index, k) < IndexCode(index, l)
  }

  /** Where get_index_pos starts: nothing for code points beyond the table, otherwise a position
      and its code point. */
  datatype Start = Outside | At(pos: nat, code: nat)

  /** What get_index_pos finds: the last entry that is not above c, or the start of the table. */
  ghost predicate FoundStart(index: seq<byte>, n: nat, c: nat, r: Start)
    requires IndexShape(index, n)
  {
    match r
    case Outside => c >= IndexCode(index, n - 1) && c >= IndexCode(index, 0)
    case At(pos, code) =>
      if c < IndexCode(index, 0) then pos == 0 && code == 0
      else exists k :: 0 <= k < n - 1 && IndexCode(index, k) <= c < IndexCode(index, k + 1) && pos == IndexPos(index, k) && code == IndexCode(index, k)
  }

  /** get_index_pos */
  method GetIndexPos(index: seq<byte>, n: nat, c: nat) returns (r: Start)
    requires IndexShape(index, n)
    ensures FoundStart(index, n, c, r) && (r.Outside? <==> c >= IndexCode(index, n - 1))
  {
    hide Le24;
    var idxMin: nat := 0;
    if c < IndexCode(index, 0) {
      return At(0, 0);
    }
    var idxMax: nat := n - 1;
    if c >= Le24(index, idxMax) {
      return Outside;
    }
    while idxMax - idxMin > 1
      invariant 0 <= idxMin <= idxMax < n && IndexCode(index, idxMin) <= c < IndexCode(index, idxMax)
    {
      var idx := (idxMax + idxMin) / 2;
      if c < IndexCode(index, idx) {
        idxMax := idx;
      } else {
        idxMin := idx;
      }
    }
    r := At(IndexPos(index, idxMin), IndexCode(index, idxMin));
  }

  // --- property tables ---

  /** A group of bytes: one or two runs, and the length of the group. */
  datatype Group = Short(first: nat, second: nat) | Run(len: nat, size: nat)

  /** The group at p; three bytes at most. */
  function GroupAt(table: seq<byte>, p: nat): (g: Group)
    requires p < |table|
    ensures 1 <= Size(g) <= 3
  {
    var b := ByteAt(table, p);
    if b < 64 then Short(b / 8 + 1, b % 8 + 1)
    else if b >= 0x80 then Run(b - 0x80 + 1, 1)
    else if b < 0x60 then Run((b - 0x40) * 0x100 + ByteAt(table, p + 1) + 1, 2)
    else Run((b - 0x60) * 0x1_0000 + ByteAt(table, p + 1) * 0x100 + ByteAt(table, p + 2) + 1, 3)
  }

  function Size(g: Group): nat {
    if g.Short? then 1 else g.size
  }

  function Length(g: Group): nat {
    if g.Short? then g.first + g.second else g.len
  }

  /** Groups fit the table. */
  predicate WholeGroups(table: seq<byte>, p: nat)
    decreases |table| - p
  {
    p == |table| || (p < |table| && WholeGroups(table, p + Size(GroupAt(table, p))))
  }

  /** Whether c is in the set, decoding from p with `code` code points behind and the runs
      alternating from `bit` on; nothing is in the set beyond the table. */
  function Member(table: seq<byte>, p: nat, code: nat, bit: bool, c: nat): bool
    decreases |table| - p
  {
    if p >= |table| then false
    else
      match GroupAt(table, p)
      case Short(first, second) =>
        if c < code + first then bit
        else if c < code + first + second then !bit
        else Member(table, p + 1, code + first + second, bit, c)
      case Run(len, size) =>
        if c < code + len then bit
        else Member(table, p + size, code + len, !bit, c)
  }

  /** The set of a table, decoded from its start. */
  function InTable(table: seq<byte>, c: nat): bool {
    Member(table, 0, 0, false, c)
  }

  /** Decoding from the start reaches position q with q's code point, between runs, and with the
      bit cleared. */
  predicate Reaches(table: seq<byte>, p: nat, code: nat, bit: bool, q: nat, codeQ: nat)
    decreases |table| - p
  {
    (p == q && code == codeQ && !bit) ||
    (p < |table| &&
     Reaches(table, p + Size(GroupAt(table, p)), code + Length(GroupAt(table, p)), if GroupAt(table, p).Short? then bit else !bit, q, codeQ))
  }

  /** Decoding may start at any position that is reached. */
  lemma {:induction false} MemberFrom(table: seq<byte>, p: nat, code: nat, bit: bool, q: nat, codeQ: nat, c: nat)
    requires Reaches(table, p, code, bit, q, codeQ) && c >= codeQ
    ensures codeQ >= code && Member(table, p, code, bit, c) == Member(table, q, codeQ, false, c)
    decreases |table| - p
  {
    hide *;
    if !(p == q && code == codeQ && !bit) {
      ReachesNext(table, p, code, bit, q, codeQ);
      var g := GroupAt(table, p);
      MemberFrom(table, p + Size(g), code + Length(g), if g.Short? then bit else !bit, q, codeQ, c);
      MemberNow(table, p, code, bit, c);
    }
  }

  lemma ReachesNext(table: seq<byte>, p: nat, code: nat, bit: bool, q: nat, codeQ: nat)
    requires Reaches(table, p, code, bit, q, codeQ) && !(p == q && code == codeQ && !bit)
    ensures p < |table|
    ensures var g := GroupAt(table, p);
      Reaches(table, p + Size(g), code + Length(g), if g.Short? then bit else !bit, q, codeQ)
  {
    hide GroupAt;
  }

  /** The index of a table: all its entries but the last are reached, and the last code point is
      where the table ends. */
  ghost predicate Indexed(table: seq<byte>, index: seq<byte>, n: nat) {
    IndexShape(index, n) && WholeGroups(table, 0) && TotalLength(table, 0) == IndexCode(index, n - 1) &&
    forall k :: 0 <= k < n - 1 ==> Reaches(table, 0, 0, false, IndexPos(index, k), IndexCode(index, k))
  }

  function TotalLength(table: seq<byte>, p: nat): nat
    decreases |table| - p
  {
    if p < |table| then Length(GroupAt(table, p)) + TotalLength(table, p + Size(GroupAt(table, p))) else 0
  }

  lemma {:induction false} BeyondEnd(table: seq<byte>, p: nat, code: nat, bit: bool, c: nat)
    requires WholeGroups(table, p) && c >= code + TotalLength(table, p)
    ensures !Member(table, p, code, bit, c)
    decreases |table| - p
  {
    if p < |table| {
      var g := GroupAt(table, p);
      BeyondEnd(table, p + Size(g), code + Length(g), if g.Short? then bit else !bit, c);
    }
  }

  /** The rest of a table from a position that is reached. */
  lemma {:induction false} RestOfTable(table: seq<byte>, p: nat, code: nat, bit: bool, q: nat, codeQ: nat)
    requires WholeGroups(table, p) && Reaches(table, p, code, bit, q, codeQ)
    ensures q <= |table| && WholeGroups(table, q) && code + TotalLength(table, p) == codeQ + TotalLength(table, q)
    decreases |table| - p
  {
    if !(p == q && code == codeQ && !bit) {
      var g := GroupAt(table, p);
      RestOfTable(table, p + Size(g), code + Length(g), if g.Short? then bit else !bit, q, codeQ);
    }
  }

  /** lre_is_in_table: decodes from the position that the index gives. */
  method LreIsInTable(c: nat, table: seq<byte>, index: seq<byte>, n: nat) returns (r: bool)
    requires Indexed(table, index, n)
    ensures r == InTable(table, c)
  {
    hide IndexCode, IndexPos, GroupAt;
    var start := GetIndexPos(index, n, c);
    if start.Outside? {
      BeyondEnd(table, 0, 0, false, c);
      return false;
    }
    StartReached(table, index, n, c, start);
    MemberFrom(table, 0, 0, false, start.pos, start.code, c);
    RestOfTable(table, 0, 0, false, start.pos, start.code);
    var p: nat, code: nat, bit := start.pos, start.code, false;
    while true
      invariant p <= |table| && WholeGroups(table, p) && code <= c < code + TotalLength(table, p)
      invariant Member(table, p, code, bit, c) == InTable(table, c)
      decreases |table| - p
    {
      var g := GroupAt(table, p);
      if g.Short? {
        code := code + g.first;
        if c < code {
          return bit;
        }
        bit := !bit;
        code := code + g.second;
      } else {
        code := code + g.len;
      }
      p := p + Size(g);
      if c < code {
        return bit;
      }
      bit := !bit;
    }
  }

  lemma StartReached(table: seq<byte>, index: seq<byte>, n: nat, c: nat, r: Start)
    requires Indexed(table, index, n) && FoundStart(index, n, c, r) && c < IndexCode(index, n - 1) && r.At?
    ensures r.code <= c && Reaches(table, 0, 0, false, r.pos, r.code)
  {
    hide IndexCode, IndexPos;
  }

  // --- unicode_prop1 ---

  /** The intervals so far, and whether c is in them or in the rest of the table. */
  ghost predicate Decoded(table: seq<byte>, points: seq<nat>, p: nat, code: nat, bit: bool) {
    Ranges(points) && (points != [] ==> points[|points| - 1] <= code) && WholeGroups(table, p) &&
    forall c: nat :: InTable(table, c) == (if c < code then Contains(points, c) else Member(table, p, code, bit, c))
  }

  /** unicode_prop1: the set as a list of intervals, decoded from the start. */
  method UnicodeProp1(cr: CharRange, table: seq<byte>)
    requires cr.points == [] && WholeGroups(table, 0)
    modifies cr
    ensures Ranges(cr.points) && forall c: nat :: Contains(cr.points, c) == InTable(table, c)
  {
    hide GroupAt, Contains;
    var p: nat, c: nat, bit := 0, 0, false;
    while p < |table|
      invariant p <= |table| && Decoded(table, cr.points, p, c, bit)
      decreases |table| - p
    {
      var c0 := c;
      var g := GroupAt(table, p);
      ghost var pts := cr.points;
      if g.Short? {
        c := c + g.first;
        if bit {
          cr.AddInterval(c0, c);
        }
        bit := !bit;
        c0 := c;
        c := c + g.second;
      } else {
        c := c + g.len;
      }
      if bit {
        cr.AddInterval(c0, c);
      }
      bit := !bit;
      DecodedNext(table, pts, p, if g.Short? then c - g.first - g.second else c - g.len, if g.Short? then bit else !bit, cr.points);
      p := p + Size(g);
    }
    AllDecoded(table, cr.points, p, c, bit);
  }

  /** The points after the group at p. */
  function NextPoints(points: seq<nat>, g: Group, code: nat, bit: bool): seq<nat> {
    match g
    case Short(first, second) => if bit then points + [code, code + first] else points + [code + first, code + first + second]
    case Run(len, _) => if bit then points + [code, code + len] else points
  }

  lemma DecodedNext(table: seq<byte>, points: seq<nat>, p: nat, code: nat, bit: bool, now: seq<nat>)
    requires p < |table| && Decoded(table, points, p, code, bit) && now == NextPoints(points, GroupAt(table, p), code, bit)
    ensures var g := GroupAt(table, p);
      Decoded(table, now, p + Size(g), code + Length(g), if g.Short? then bit else !bit)
  {
    hide *;
    var g := GroupAt(table, p);
    DecodedParts(table, points, p, code, bit);
    NextRanges(points, g, code, bit);
    forall c: nat
      ensures InTable(table, c) == (if c < code + Length(g) then Contains(now, c) else Member(table, p + Size(g), code + Length(g), if g.Short? then bit else !bit, c))
    {
      DecodedAt(table, points, p, code, bit, c);
      NextContains(points, g, code, bit, c);
      if c >= code {
        NotBeyond(points, code, c);
        MemberNow(table, p, code, bit, c);
      } else {
        GroupBounds(g, code, bit, c);
      }
    }
    DecodedIs(table, now, p + Size(g), code + Length(g), if g.Short? then bit else !bit);
  }

  lemma DecodedParts(table: seq<byte>, points: seq<nat>, p: nat, code: nat, bit: bool)
    requires p < |table| && Decoded(table, points, p, code, bit)
    ensures Ranges(points) && Even(points) && (points != [] ==> points[|points| - 1] <= code)
    ensures WholeGroups(table, p + Size(GroupAt(table, p)))
  {
  }

  lemma DecodedAt(table: seq<byte>, points: seq<nat>, p: nat, code: nat, bit: bool, c: nat)
    requires Decoded(table, points, p, code, bit)
    ensures InTable(table, c) == (if c < code then Contains(points, c) else Member(table, p, code, bit, c))
  {
  }

  lemma DecodedIs(table: seq<byte>, points: seq<nat>, p: nat, code: nat, bit: bool)
    requires Ranges(points) && (points != [] ==> points[|points| - 1] <= code) && WholeGroups(table, p)
    requires forall c: nat :: InTable(table, c) == (if c < code then Contains(points, c) else Member(table, p, code, bit, c))
    ensures Decoded(table, points, p, code, bit)
  {
  }

  lemma NextRanges(points: seq<nat>, g: Group, code: nat, bit: bool)
    requires Ranges(points) && (points != [] ==> points[|points| - 1] <= code)
    ensures var now := NextPoints(points, g, code, bit);
      Ranges(now) && (now != [] ==> now[|now| - 1] <= code + Length(g))
  {
    match g
    case Short(first, second) =>
      RangesMore(points, code, code + first);
      RangesMore(points, code + first, code + first + second);
    case Run(len, _) =>
      RangesMore(points, code, code + len);
  }

  lemma RangesMore(points: seq<nat>, a: nat, b: nat)
    requires Ranges(points) && (points != [] ==> points[|points| - 1] <= a) && a <= b
    ensures Ranges(points + [a, b])
  {
  }

  lemma MemberNow(table: seq<byte>, p: nat, code: nat, bit: bool, c: nat)
    requires p < |table| && c >= code
    ensures var g := GroupAt(table, p);
      Member(table, p, code, bit, c) ==
      if c < code + Length(g) then InGroup(g, code, bit, c) else Member(table, p + Size(g), code + Length(g), if g.Short? then bit else !bit, c)
  {
    hide GroupAt;
  }

  lemma GroupBounds(g: Group, code: nat, bit: bool, c: nat)
    ensures InGroup(g, code, bit, c) ==> code <= c < code + Length(g)
  {
  }

  /** c is in the set, and in the group that starts at `code`. */
  predicate InGroup(g: Group, code: nat, bit: bool, c: nat) {
    if bit then code <= c < code + (if g.Short? then g.first else g.len)
    else g.Short? && code + g.first <= c < code + Length(g)
  }

  lemma NextContains(points: seq<nat>, g: Group, code: nat, bit: bool, c: nat)
    requires Even(points)
    ensures Contains(NextPoints(points, g, code, bit), c) <==> Contains(points, c) || InGroup(g, code, bit, c)
  {
    match g
    case Short(first, second) =>
      ContainsMore(points, code, code + first, c);
      ContainsMore(points, code + first, code + first + second, c);
    case Run(len, _) =>
      ContainsMore(points, code, code + len, c);
  }

  lemma NotBeyond(points: seq<nat>, code: nat, c: nat)
    requires Ranges(points) && (points != [] ==> points[|points| - 1] <= code) && c >= code
    ensures !Contains(points, c)
  {
  }

  lemma AllDecoded(table: seq<byte>, points: seq<nat>, p: nat, code: nat, bit: bool)
    requires p == |table| && Decoded(table, points, p, code, bit)
    ensures Ranges(points) && forall c: nat :: Contains(points, c) == InTable(table, c)
  {
    forall c: nat
      ensures Contains(points, c) == InTable(table, c)
    {
      if c >= code { NotBeyond(points, code, c); }
      hide Contains;
    }
  }

  // --- combining classes ---

  /** A run of the table of combining classes: how the class follows from `base`, how many code
      points, and how many bytes. */
  datatype CcRun = CcRun(kind: nat, len: nat, base: nat, size: nat)

  function OrBytes(a: nat, b: nat): nat
    requires a < 0x100 && b < 0x100
  {
    ((a as bv8) | (b as bv8)) as int
  }

  lemma ByteBound(table: seq<byte>, p: nat)
    ensures ByteAt(table, p) < 0x100
  {
  }

  /** The run at p; four bytes at most. */
  function CcRunAt(table: seq<byte>, p: nat): (r: CcRun)
    requires p < |table|
    ensures 1 <= r.size <= 4 && r.len >= 1 && r.kind <= 3
  {
    ByteBound(table, p);
    ByteBound(table, p + 1);
    var b := ByteAt(table, p);
    var kind, n := b / 0x40, b % 0x40;
    var (count, size) :=
      if n < 48 then (n, 1)
      else if n < 56 then ((n - 48) * 0x100 + ByteAt(table, p + 1) + 48, 2)
      else (OrBytes(n - 56, ByteAt(table, p + 1)) * 0x100 + ByteAt(table, p + 2) + 48 + 0x800, 3);
    if kind <= 1 then CcRun(kind, count + 1, ByteAt(table, p + size), size + 1) else CcRun(kind, count + 1, 0, size)
  }

  /** The class of the code point that is `offset` behind the start of the run. */
  function CcOf(r: CcRun, offset: nat): nat {
    if r.kind == 0 then r.base else if r.kind == 1 then r.base + offset else if r.kind == 2 then 0 else 230
  }

  /** The class of c, decoding from p; 0 beyond the table. */
  function CcFrom(table: seq<byte>, p: nat, code: nat, c: nat): nat
    decreases |table| - p
  {
    if p >= |table| then 0
    else
      var r := CcRunAt(table, p);
      if code <= c < code + r.len then CcOf(r, c - code) else CcFrom(table, p + r.size, code + r.len, c)
  }

  /** The class of c, decoded from the start of the table. */
  function CombiningClass(table: seq<byte>, c: nat): nat {
    CcFrom(table, 0, 0, c)
  }

  predicate CcReaches(table: seq<byte>, p: nat, code: nat, q: nat, codeQ: nat)
    decreases |table| - p
  {
    (p == q && code == codeQ) ||
    (p < |table| && CcReaches(table, p + CcRunAt(table, p).size, code + CcRunAt(table, p).len, q, codeQ))
  }

  /** Runs fit the table, and end at `limit`. */
  predicate CcWhole(table: seq<byte>, p: nat, code: nat, limit: nat)
    decreases |table| - p
  {
    (p == |table| && code == limit) ||
    (p < |table| && CcWhole(table, p + CcRunAt(table, p).size, code + CcRunAt(table, p).len, limit))
  }

  ghost predicate CcIndexed(table: seq<byte>, index: seq<byte>, n: nat) {
    IndexShape(index, n) && CcWhole(table, 0, 0, IndexCode(index, n - 1)) &&
    forall k :: 0 <= k < n - 1 ==> CcReaches(table, 0, 0, IndexPos(index, k), IndexCode(index, k))
  }

  lemma {:induction false} CcSame(table: seq<byte>, p: nat, code: nat, q: nat, codeQ: nat, c: nat, limit: nat)
    requires CcReaches(table, p, code, q, codeQ) && CcWhole(table, p, code, limit) && c >= codeQ
    ensures codeQ >= code && CcFrom(table, p, code, c) == CcFrom(table, q, codeQ, c) && CcWhole(table, q, codeQ, limit)
    decreases |table| - p
  {
    if !(p == q && code == codeQ) {
      var r := CcRunAt(table, p);
      CcSame(table, p + r.size, code + r.len, q, codeQ, c, limit);
    }
  }

  lemma {:induction false} CcBeyond(table: seq<byte>, p: nat, code: nat, c: nat, limit: nat)
    requires CcWhole(table, p, code, limit) && c >= limit
    ensures CcFrom(table, p, code, c) == 0 && limit >= code
    decreases |table| - p
  {
    if p < |table| {
      var r := CcRunAt(table, p);
      CcBeyond(table, p + r.size, code + r.len, c, limit);
    }
  }

  lemma {:induction false} CcInside(table: seq<byte>, p: nat, code: nat, limit: nat)
    requires CcWhole(table, p, code, limit) && code < limit
    ensures p < |table|
    decreases |table| - p
  {
  }

  /** unicode_get_cc: decodes from the position that the index gives. */
  method UnicodeGetCc(c: nat, table: seq<byte>, index: seq<byte>, n: nat) returns (cc: nat)
    requires CcIndexed(table, index, n)
    ensures cc == CombiningClass(table, c)
  {
    hide IndexCode, IndexPos, CcRunAt;
    var start := GetIndexPos(index, n, c);
    ghost var limit := IndexCode(index, n - 1);
    if start.Outside? {
      CcBeyond(table, 0, 0, c, limit);
      return 0;
    }
    CcStartReached(table, index, n, c, start);
    CcSame(table, 0, 0, start.pos, start.code, c, limit);
    var p: nat, code: nat := start.pos, start.code;
    while true
      invariant code <= c < limit && CcWhole(table, p, code, limit) && CcFrom(table, p, code, c) == CombiningClass(table, c)
      decreases |table| - p
    {
      CcInside(table, p, code, limit);
      var r := CcRunAt(table, p);
      p := p + r.size;
      if c < code + r.len {
        return CcOf(r, c - code);
      }
      code := code + r.len;
    }
  }

  lemma CcStartReached(table: seq<byte>, index: seq<byte>, n: nat, c: nat, r: Start)
    requires CcIndexed(table, index, n) && FoundStart(index, n, c, r) && c < IndexCode(index, n - 1) && r.At?
    ensures r.code <= c && CcReaches(table, 0, 0, r.pos, r.code)
  {
    hide IndexCode, IndexPos;
  }
}
