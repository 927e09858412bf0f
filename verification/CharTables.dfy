/** Tables as an encoder writes them: run lengths in the forms that the tables have, and index
    entries as words of three bytes. Decoding gives back what was encoded. */
module CharTables {
  import opened Words
  import opened CharIndex

  function Sum(s: seq<nat>): nat {
    if s == [] then 0 else s[0] + Sum(s[1..])
  }

  lemma {:induction false} SumAppend(s: seq<nat>, t: seq<nat>)
    ensures Sum(s + t) == Sum(s) + Sum(t)
  {
    if s == [] {
      assert s + t == t;
    } else {
      assert (s + t)[1..] == s[1..] + t;
      SumAppend(s[1..], t);
    }
  }

  // --- property tables ---

  /** Run lengths in one of four forms: two of at most 8 in one byte, or one of at most 128, 8192
      or 2097152 in one, two or three bytes. */
  datatype Piece = Pair(first: nat, second: nat) | Small(len: nat) | Medium(len: nat) | Large(len: nat)

  predicate ValidPiece(x: Piece) {
    match x
    case Pair(a, b) => 1 <= a <= 8 && 1 <= b <= 8
    case Small(n) => 1 <= n <= 128
    case Medium(n) => 1 <= n <= 8192
    case Large(n) => 1 <= n <= 2097152
  }

  predicate ValidPieces(xs: seq<Piece>) {
    forall i :: 0 <= i < |xs| ==> ValidPiece(xs[i])
  }

  /** The bytes of a piece: three bits each, or the length less one behind a mark, the most
      significant byte first. */
  function PieceBytes(x: Piece): (s: seq<byte>)
    requires ValidPiece(x)
    ensures 1 <= |s| <= 3
  {
    match x
    case Pair(a, b) => [8 * (a - 1) + (b - 1)]
    case Small(n) => [0x80 + (n - 1)]
    case Medium(n) => [0x40 + (n - 1) / 256, (n - 1) % 256]
    case Large(n) => [0x60 + (n - 1) / 65536, (n - 1) / 256 % 256, (n - 1) % 256]
  }

  function TableBytes(xs: seq<Piece>): seq<byte>
    requires ValidPieces(xs)
  {
    if xs == [] then [] else PieceBytes(xs[0]) + TableBytes(xs[1..])
  }

  function PieceRuns(x: Piece): seq<nat> {
    if x.Pair? then [x.first, x.second] else [x.len]
  }

  /** The run lengths of a list of pieces. */
  function Runs(xs: seq<Piece>): seq<nat> {
    if xs == [] then [] else PieceRuns(xs[0]) + Runs(xs[1..])
  }

  /** c lies in run number k. */
  predicate InRun(runs: seq<nat>, k: nat, c: nat)
    requires k < |runs|
  {
    Sum(runs[..k]) <= c < Sum(runs[..k + 1])
  }

  /** c lies in a run of odd number: the first run, number 0, is outside the set. */
  predicate InOddRun(runs: seq<nat>, c: nat) {
    exists k: nat :: k < |runs| && k % 2 == 1 && InRun(runs, k, c)
  }

  /** The same, run by run: `bit` says whether the first run is in the set. */
  predicate Alternating(runs: seq<nat>, bit: bool, c: nat) {
    runs != [] && if c < runs[0] then bit else Alternating(runs[1..], !bit, c - runs[0])
  }

  /** The run that c lies in, if any. */
  lemma {:induction false} AlternatingIs(runs: seq<nat>, bit: bool, c: nat)
    ensures Alternating(runs, bit, c) <==> exists k: nat :: k < |runs| && (k % 2 == 1) != bit && InRun(runs, k, c)
  {
    if runs != [] {
      var rest := runs[1..];
      forall k: nat | k < |runs| ensures InRun(runs, k, c) <==> if k == 0 then c < runs[0] else c >= runs[0] && InRun(rest, k - 1, c - runs[0]) {
        RunShift(runs, k, c);
      }
      if c < runs[0] {
        if bit { assert InRun(runs, 0, c); }
      } else {
        AlternatingIs(rest, !bit, c - runs[0]);
        if Alternating(rest, !bit, c - runs[0]) {
          var j: nat :| j < |rest| && (j % 2 == 1) != !bit && InRun(rest, j, c - runs[0]);
          assert InRun(runs, j + 1, c);
        }
        if k: nat :| k < |runs| && (k % 2 == 1) != bit && InRun(runs, k, c) {
          assert InRun(rest, k - 1, c - runs[0]) && ((k - 1) % 2 == 1) != !bit;
        }
      }
    }
  }

  lemma RunShift(runs: seq<nat>, k: nat, c: nat)
    requires k < |runs|
    ensures InRun(runs, k, c) <==> if k == 0 then c < runs[0] else c >= runs[0] && InRun(runs[1..], k - 1, c - runs[0])
  {
    assert runs[..k + 1][1..] == runs[1..][..k];
    if k == 0 {
      assert runs[..1] == [runs[0]] && runs[..0] == [];
    } else {
      assert runs[..k][1..] == runs[1..][..k - 1];
      assert runs[1..][..k - 1 + 1] == runs[1..][..k];
    }
  }

  /** What stands at the place of a piece. */
  lemma GroupOfPiece(table: seq<byte>, p: nat, x: Piece)
    requires ValidPiece(x) && p + |PieceBytes(x)| <= |table| && table[p..p + |PieceBytes(x)|] == PieceBytes(x)
    ensures GroupAt(table, p) == if x.Pair? then Short(x.first, x.second) else Run(x.len, |PieceBytes(x)|)
  {
    var s := table[p..p + |PieceBytes(x)|];
    assert table[p] == s[0];
    if x.Medium? || x.Large? { assert table[p + 1] == s[1]; }
    if x.Large? {
      assert table[p + 2] == s[2];
      var n := x.len - 1;
      assert n == n / 65536 * 65536 + n / 256 % 256 * 256 + n % 256 by { ThreeBytes(n); }
    }
  }

  lemma ThreeBytes(n: nat)
    ensures n == n / 65536 * 65536 + n / 256 % 256 * 256 + n % 256
  {
    assert n / 65536 == n / 256 / 256;
  }

  /** The bytes from p on are those of the pieces. */
  predicate Holds(table: seq<byte>, p: nat, xs: seq<Piece>)
    requires ValidPieces(xs)
  {
    p <= |table| && table[p..] == TableBytes(xs)
  }

  lemma HoldsFirst(table: seq<byte>, p: nat, xs: seq<Piece>)
    requires ValidPieces(xs) && Holds(table, p, xs) && xs != []
    ensures var n := |PieceBytes(xs[0])|;
      p + n <= |table| && table[p..p + n] == PieceBytes(xs[0]) && ValidPieces(xs[1..]) && Holds(table, p + n, xs[1..])
  {
    var s, n := table[p..], |PieceBytes(xs[0])|;
    assert s == PieceBytes(xs[0]) + TableBytes(xs[1..]);
    assert table[p..p + n] == s[..n] && table[p + n..] == s[n..];
  }

  lemma HoldsNothing(table: seq<byte>, p: nat, xs: seq<Piece>)
    requires ValidPieces(xs) && Holds(table, p, xs)
    ensures xs == [] <==> p == |table|
  {
    if xs != [] { HoldsFirst(table, p, xs); }
  }

  lemma {:induction false} MemberOfRuns(table: seq<byte>, p: nat, xs: seq<Piece>, code: nat, bit: bool, c: nat)
    requires ValidPieces(xs) && Holds(table, p, xs) && c >= code
    ensures Member(table, p, code, bit, c) == Alternating(Runs(xs), bit, c - code)
    decreases |xs|
  {
    hide GroupAt, PieceBytes, TableBytes, Holds, Member, Alternating, Runs;
    HoldsNothing(table, p, xs);
    if xs == [] {
      NoRuns(table, p, code, bit, c, c - code);
    } else {
      var x := xs[0];
      HoldsFirst(table, p, xs);
      GroupOfPiece(table, p, x);
      FirstRuns(xs);
      RunsOfPiece(x, Runs(xs[1..]), bit, c - code);
      MemberStep(table, p, code, bit, c);
      var n := |PieceBytes(x)|;
      if x.Pair? {
        if c >= code + x.first + x.second { MemberOfRuns(table, p + n, xs[1..], code + x.first + x.second, bit, c); }
        SizeOfPair(x);
      } else if c >= code + x.len {
        MemberOfRuns(table, p + n, xs[1..], code + x.len, !bit, c);
      }
    }
  }

  lemma NoRuns(table: seq<byte>, p: nat, code: nat, bit: bool, c: nat, d: nat)
    requires p == |table|
    ensures !Member(table, p, code, bit, c) && !Alternating(Runs([]), bit, d)
  {
  }

  lemma FirstRuns(xs: seq<Piece>)
    requires xs != []
    ensures Runs(xs) == PieceRuns(xs[0]) + Runs(xs[1..])
  {
  }

  lemma SizeOfPair(x: Piece)
    requires ValidPiece(x) && x.Pair?
    ensures |PieceBytes(x)| == 1
  {
  }

  lemma MemberStep(table: seq<byte>, p: nat, code: nat, bit: bool, c: nat)
    requires p < |table|
    ensures Member(table, p, code, bit, c) ==
      match GroupAt(table, p)
      case Short(first, second) =>
        if c < code + first then bit else if c < code + first + second then !bit else Member(table, p + 1, code + first + second, bit, c)
      case Run(len, size) => if c < code + len then bit else Member(table, p + size, code + len, !bit, c)
  {
    hide GroupAt;
  }

  lemma RunsOfPiece(x: Piece, rest: seq<nat>, bit: bool, c: nat)
    ensures Alternating(PieceRuns(x) + rest, bit, c) ==
      if x.Pair? then
        if c < x.first then bit else if c < x.first + x.second then !bit else Alternating(rest, bit, c - x.first - x.second)
      else if c < x.len then bit else Alternating(rest, !bit, c - x.len)
  {
    var runs := PieceRuns(x) + rest;
    if x.Pair? {
      assert runs[1..] == [x.second] + rest && ([x.second] + rest)[1..] == rest;
    } else {
      assert runs[1..] == rest;
    }
  }

  /** A table that an encoder has written contains exactly the code points in its runs of odd
      number, whatever the forms in which the lengths are written. */
  lemma TableDecoded(xs: seq<Piece>, c: nat)
    requires ValidPieces(xs)
    ensures InTable(TableBytes(xs), c) <==> InOddRun(Runs(xs), c)
  {
    hide Member, Alternating, InRun;
    MemberOfRuns(TableBytes(xs), 0, xs, 0, false, c);
    AlternatingIs(Runs(xs), false, c);
  }

  // --- indexes ---

  /** An entry of an index: a code point of 21 bits and an offset of three, least significant
      byte first. */
  function EntryBytes(code: nat, offset: nat): seq<byte>
    requires code < 2097152 && offset < 8
  {
    [code % 256, code / 256 % 256, code / 65536 + 32 * offset]
  }

  /** A place in a table: so many pieces lie before it. */
  type Cuts = seq<nat>

  function CutCode(xs: seq<Piece>, j: nat): nat
    requires j <= |xs|
  {
    Sum(Runs(xs[..j]))
  }

  function CutPos(xs: seq<Piece>, j: nat): nat
    requires ValidPieces(xs) && j <= |xs|
  {
    |TableBytes(xs[..j])|
  }

  /** Places that an index can have: the entry number k lies at most 7 bytes behind the start of
      block k + 1, between two runs, and in front of a run outside the set. */
  predicate ValidCuts(xs: seq<Piece>, cuts: Cuts) {
    ValidPieces(xs) && CutCode(xs, |xs|) < 2097152 &&
    (forall k :: 0 <= k < |cuts| ==> cuts[k] < |xs| && |Runs(xs[..cuts[k]])| % 2 == 0) &&
    (forall k :: 0 <= k < |cuts| ==> 32 * (k + 1) <= CutPos(xs, cuts[k]) < 32 * (k + 1) + 8) &&
    forall k, l :: 0 <= k < l < |cuts| ==> cuts[k] < cuts[l]
  }

  /** The index with these places, from entry number k on; the last entry says where the table
      ends. */
  function IndexFrom(xs: seq<Piece>, cuts: Cuts, k: nat): seq<byte>
    requires ValidCuts(xs, cuts) && k <= |cuts|
    decreases |cuts| - k
  {
    if k == |cuts| then EntryBytes(CutCode(xs, |xs|), 0)
    else
      CutBefore(xs, cuts[k], |xs|);
      EntryBytes(CutCode(xs, cuts[k]), CutPos(xs, cuts[k]) - 32 * (k + 1)) + IndexFrom(xs, cuts, k + 1)
  }

  function IndexBytes(xs: seq<Piece>, cuts: Cuts): seq<byte>
    requires ValidCuts(xs, cuts)
  {
    IndexFrom(xs, cuts, 0)
  }

  lemma {:induction false} RunsAppend(xs: seq<Piece>, ys: seq<Piece>)
    ensures Runs(xs + ys) == Runs(xs) + Runs(ys)
  {
    if xs == [] {
      assert xs + ys == ys;
    } else {
      assert (xs + ys)[1..] == xs[1..] + ys;
      RunsAppend(xs[1..], ys);
    }
  }

  /** Later places have greater code points. */
  lemma {:induction false} CutBefore(xs: seq<Piece>, i: nat, j: nat)
    requires ValidPieces(xs) && i < j <= |xs|
    ensures CutCode(xs, i) < CutCode(xs, j)
    decreases j - i
  {
    var x := xs[j - 1];
    assert xs[..j] == xs[..j - 1] + [x];
    RunsAppend(xs[..j - 1], [x]);
    SumAppend(Runs(xs[..j - 1]), Runs([x]));
    OnePiece(x);
    if i < j - 1 { CutBefore(xs, i, j - 1); }
  }

  lemma OnePiece(x: Piece)
    requires ValidPiece(x)
    ensures Runs([x]) == PieceRuns(x) && Sum(PieceRuns(x)) == (if x.Pair? then x.first + x.second else x.len) > 0
  {
    assert [x][1..] == [];
    if x.Pair? {
      assert [x.first, x.second][1..] == [x.second];
      SumOne(x.second);
    } else {
      SumOne(x.len);
    }
  }

  lemma SumOne(n: nat)
    ensures Sum([n]) == n
  {
    assert [n][1..] == [];
  }

  /** Where the entry number k stands, and what it says. */
  lemma {:induction false} EntryRead(xs: seq<Piece>, cuts: Cuts, k: nat, i: nat)
    requires ValidCuts(xs, cuts) && k <= i <= |cuts|
    ensures var index := IndexFrom(xs, cuts, k); var m := i - k;
      |index| == 3 * (|cuts| + 1 - k) &&
      IndexCode(index, m) == CutCode(xs, if i < |cuts| then cuts[i] else |xs|) &&
      Le24(index, m) / 2097152 == if i < |cuts| then CutPos(xs, cuts[i]) - 32 * (i + 1) else 0
    decreases i - k, |cuts| - k
  {
    hide ValidCuts, EntryBytes, CutPos, CutCode, Le24;
    CutsFit(xs, cuts, k);
    if k == |cuts| {
      EntryWord(CutCode(xs, |xs|), 0, []);
      assert EntryBytes(CutCode(xs, |xs|), 0) + [] == EntryBytes(CutCode(xs, |xs|), 0);
    } else {
      var rest := IndexFrom(xs, cuts, k + 1);
      var code, offset := CutCode(xs, cuts[k]), CutPos(xs, cuts[k]) - 32 * (k + 1);
      EntryRead(xs, cuts, k + 1, if i == k then k + 1 else i);
      EntryWord(code, offset, rest);
      if i > k { WordShift(EntryBytes(code, offset), rest, i - k); }
    }
  }

  lemma CutsFit(xs: seq<Piece>, cuts: Cuts, k: nat)
    requires ValidCuts(xs, cuts) && k <= |cuts|
    ensures ValidPieces(xs) && CutCode(xs, |xs|) < 2097152
    ensures k < |cuts| ==> cuts[k] < |xs| && CutCode(xs, cuts[k]) < 2097152 && 0 <= CutPos(xs, cuts[k]) - 32 * (k + 1) < 8
  {
    if k < |cuts| { CutBefore(xs, cuts[k], |xs|); }
  }

  lemma EntryWord(code: nat, offset: nat, rest: seq<byte>)
    requires code < 2097152 && offset < 8
    ensures var index := EntryBytes(code, offset) + rest;
      |EntryBytes(code, offset)| == 3 && IndexCode(index, 0) == code && Le24(index, 0) / 2097152 == offset
  {
    var index := EntryBytes(code, offset) + rest;
    assert index[0] == code % 256 && index[1] == code / 256 % 256 && index[2] == code / 65536 + 32 * offset;
    ThreeBytes(code);
    assert Le24(index, 0) == code + 2097152 * offset;
  }

  lemma WordShift(first: seq<byte>, rest: seq<byte>, m: nat)
    requires |first| == 3 && m >= 1 && 3 * m + 2 < |first + rest|
    ensures Le24(first + rest, m) == Le24(rest, m - 1)
  {
  }

  /** Decoding passes every place between two runs. */
  lemma {:induction false} PlaceReached(table: seq<byte>, p: nat, xs: seq<Piece>, code: nat, bit: bool, j: nat)
    requires ValidPieces(xs) && Holds(table, p, xs) && j <= |xs| && (|Runs(xs[..j])| % 2 == 1) == bit
    ensures Reaches(table, p, code, bit, p + |TableBytes(xs[..j])|, code + Sum(Runs(xs[..j])))
    decreases j
  {
    hide GroupAt, PieceBytes, Holds, Reaches, Runs, TableBytes;
    if j == 0 {
      assert xs[..0] == [];
      AtPlace(table, p, code);
    } else {
      var x := xs[0];
      HoldsFirst(table, p, xs);
      GroupOfPiece(table, p, x);
      assert xs[..j][1..] == xs[1..][..j - 1];
      FirstBytes(xs[..j]);
      var size, len := |PieceBytes(x)|, Sum(PieceRuns(x));
      PlaceReached(table, p + size, xs[1..], code + len, if x.Pair? then bit else !bit, j - 1);
      ReachesMore(table, p, code, bit, p + |TableBytes(xs[..j])|, code + Sum(Runs(xs[..j])));
    }
  }

  lemma AtPlace(table: seq<byte>, p: nat, code: nat)
    ensures TableBytes([]) == [] && Runs([]) == [] && Reaches(table, p, code, false, p, code)
  {
  }

  lemma ReachesMore(table: seq<byte>, p: nat, code: nat, bit: bool, q: nat, codeQ: nat)
    requires p < |table|
    requires var g := GroupAt(table, p); Reaches(table, p + Size(g), code + Length(g), if g.Short? then bit else !bit, q, codeQ)
    ensures Reaches(table, p, code, bit, q, codeQ)
  {
    hide GroupAt;
  }

  lemma FirstBytes(xs: seq<Piece>)
    requires ValidPieces(xs) && xs != []
    ensures ValidPieces(xs[1..]) && |TableBytes(xs)| == |PieceBytes(xs[0])| + |TableBytes(xs[1..])|
    ensures Sum(Runs(xs)) == Sum(PieceRuns(xs[0])) + Sum(Runs(xs[1..])) && |Runs(xs)| == |PieceRuns(xs[0])| + |Runs(xs[1..])|
    ensures var x := xs[0];
      (if x.Pair? then |PieceBytes(x)| == 1 && |PieceRuns(x)| == 2 && Sum(PieceRuns(x)) == x.first + x.second
       else |PieceRuns(x)| == 1 && Sum(PieceRuns(x)) == x.len)
  {
    OnePiece(xs[0]);
    SumAppend(PieceRuns(xs[0]), Runs(xs[1..]));
  }

  lemma {:induction false} WholeTable(table: seq<byte>, p: nat, xs: seq<Piece>)
    requires ValidPieces(xs) && Holds(table, p, xs)
    ensures WholeGroups(table, p) && TotalLength(table, p) == Sum(Runs(xs))
    decreases |xs|
  {
    HoldsNothing(table, p, xs);
    hide GroupAt, PieceBytes, Holds, Runs, TableBytes;
    if xs != [] {
      HoldsFirst(table, p, xs);
      GroupOfPiece(table, p, xs[0]);
      FirstBytes(xs);
      WholeTable(table, p + |PieceBytes(xs[0])|, xs[1..]);
    } else {
      AtPlace(table, p, 0);
    }
  }

  /** An encoded table with an encoded index is one that the indexed look-up is right for. */
  lemma IndexDecoded(xs: seq<Piece>, cuts: Cuts)
    requires ValidCuts(xs, cuts)
    ensures Indexed(TableBytes(xs), IndexBytes(xs, cuts), |cuts| + 1)
  {
    hide *;
    IndexShaped(xs, cuts);
    WholeEncoded(xs, cuts);
    forall k | 0 <= k < |cuts|
      ensures PlaceIndexed(xs, cuts, k)
    {
      EntryPlace(xs, cuts, k);
    }
    AllIndexed(xs, cuts);
  }

  /** What the entry number k refers to is reached. */
  ghost predicate PlaceIndexed(xs: seq<Piece>, cuts: Cuts, k: nat)
    requires ValidCuts(xs, cuts) && 3 * k + 2 < |IndexBytes(xs, cuts)|
  {
    Reaches(TableBytes(xs), 0, 0, false, IndexPos(IndexBytes(xs, cuts), k), IndexCode(IndexBytes(xs, cuts), k))
  }

  lemma IndexShaped(xs: seq<Piece>, cuts: Cuts)
    requires ValidCuts(xs, cuts)
    ensures ValidPieces(xs) && |IndexBytes(xs, cuts)| == 3 * (|cuts| + 1) && IndexShape(IndexBytes(xs, cuts), |cuts| + 1)
    ensures IndexCode(IndexBytes(xs, cuts), |cuts|) == CutCode(xs, |xs|)
  {
    hide *;
    var index, n := IndexBytes(xs, cuts), |cuts| + 1;
    EntryCode(xs, cuts, |cuts|);
    LastWord(index, |cuts|);
    forall k, l | 0 <= k < l < n
      ensures IndexCode(index, k) < IndexCode(index, l)
    {
      EntryCode(xs, cuts, k);
      EntryCode(xs, cuts, l);
      CutOrder(xs, cuts, k, l);
    }
    ShapeIs(index, n);
  }

  lemma EntryCode(xs: seq<Piece>, cuts: Cuts, k: nat)
    requires ValidCuts(xs, cuts) && k <= |cuts|
    ensures ValidPieces(xs) && |IndexBytes(xs, cuts)| == 3 * (|cuts| + 1)
    ensures IndexCode(IndexBytes(xs, cuts), k) == CutCode(xs, if k < |cuts| then cuts[k] else |xs|)
    ensures k == |cuts| ==> Le24(IndexBytes(xs, cuts), k) / 2097152 == 0
  {
    EntryRead(xs, cuts, 0, k);
    hide Le24, CutPos, CutCode, IndexFrom, IndexCode;
  }

  lemma CutOrder(xs: seq<Piece>, cuts: Cuts, k: nat, l: nat)
    requires ValidCuts(xs, cuts) && k < l <= |cuts|
    ensures CutCode(xs, cuts[k]) < CutCode(xs, if l < |cuts| then cuts[l] else |xs|)
  {
    hide CutPos, CutCode, Runs;
    CutBefore(xs, cuts[k], if l < |cuts| then cuts[l] else |xs|);
  }

  lemma ShapeIs(index: seq<byte>, n: nat)
    requires n >= 1 && |index| == 3 * n && Le24(index, n - 1) < 2097152
    requires forall k, l :: 0 <= k < l < n ==> IndexCode(index, k) < IndexCode(index, l)
    ensures IndexShape(index, n)
  {
    hide Le24, IndexCode;
  }

  lemma LastWord(index: seq<byte>, k: nat)
    requires 3 * k + 2 < |index| && Le24(index, k) / 2097152 == 0
    ensures Le24(index, k) < 2097152
  {
    hide Le24;
  }

  lemma WholeEncoded(xs: seq<Piece>, cuts: Cuts)
    requires ValidCuts(xs, cuts)
    ensures WholeGroups(TableBytes(xs), 0) && TotalLength(TableBytes(xs), 0) == CutCode(xs, |xs|)
  {
    hide Runs, TableBytes;
    WholeTable(TableBytes(xs), 0, xs);
    assert xs[..|xs|] == xs;
  }

  lemma EntryPlace(xs: seq<Piece>, cuts: Cuts, k: nat)
    requires ValidCuts(xs, cuts) && k < |cuts| && 3 * k + 2 < |IndexBytes(xs, cuts)|
    ensures PlaceIndexed(xs, cuts, k)
  {
    hide Runs, TableBytes, Reaches, Le24, IndexFrom;
    EntryRead(xs, cuts, 0, k);
    PlaceReached(TableBytes(xs), 0, xs, 0, false, cuts[k]);
    hide ValidCuts, IndexCode;
    CutPosIs(xs, cuts[k]);
    PosOfEntry(IndexBytes(xs, cuts), k, CutPos(xs, cuts[k]));
  }

  lemma PosOfEntry(index: seq<byte>, k: nat, pos: nat)
    requires 3 * k + 2 < |index| && Le24(index, k) / 2097152 == pos - 32 * (k + 1)
    ensures IndexPos(index, k) == pos
  {
    hide Le24;
  }

  lemma AllIndexed(xs: seq<Piece>, cuts: Cuts)
    requires ValidCuts(xs, cuts) && |IndexBytes(xs, cuts)| == 3 * (|cuts| + 1) && IndexShape(IndexBytes(xs, cuts), |cuts| + 1)
    requires WholeGroups(TableBytes(xs), 0) && TotalLength(TableBytes(xs), 0) == CutCode(xs, |xs|)
    requires IndexCode(IndexBytes(xs, cuts), |cuts|) == CutCode(xs, |xs|)
    requires forall k: nat :: k < |cuts| ==> PlaceIndexed(xs, cuts, k)
    ensures Indexed(TableBytes(xs), IndexBytes(xs, cuts), |cuts| + 1)
  {
    hide TableBytes, IndexBytes, WholeGroups, TotalLength, CutCode, IndexCode, IndexPos, IndexShape, Reaches;
    forall k | 0 <= k < |cuts|
      ensures Reaches(TableBytes(xs), 0, 0, false, IndexPos(IndexBytes(xs, cuts), k), IndexCode(IndexBytes(xs, cuts), k))
    {
      assert PlaceIndexed(xs, cuts, k);
    }
  }

  lemma CutPosIs(xs: seq<Piece>, j: nat)
    requires ValidPieces(xs) && j <= |xs|
    ensures CutPos(xs, j) == |TableBytes(xs[..j])| && CutCode(xs, j) == Sum(Runs(xs[..j]))
  {
  }

  // --- combining classes ---

  /** A run of code points of one class (kind 0), of rising classes (kind 1), of class 0 (kind 2) or
      of class 230 (kind 3). */
  datatype CcPiece = CcPiece(kind: nat, len: nat, base: byte)

  predicate ValidCcPiece(x: CcPiece) {
    x.kind <= 3 && 1 <= x.len <= 67632
  }

  predicate ValidCcPieces(xs: seq<CcPiece>) {
    forall i :: 0 <= i < |xs| ==> ValidCcPiece(xs[i])
  }

  /** The length less one in six bits, in three and eight, or in sixteen behind a mark; then the
      class, if the kind has one. */
  function CcPieceBytes(x: CcPiece): (s: seq<byte>)
    requires ValidCcPiece(x)
    ensures 1 <= |s| <= 4
  {
    var n := x.len - 1;
    (if n < 48 then [64 * x.kind + n]
     else if n < 2096 then [64 * x.kind + 48 + (n - 48) / 256, (n - 48) % 256]
     else [64 * x.kind + 56, (n - 2096) / 256, (n - 2096) % 256]) + if x.kind <= 1 then [x.base] else []
  }

  function CcBytes(xs: seq<CcPiece>): seq<byte>
    requires ValidCcPieces(xs)
  {
    if xs == [] then [] else CcPieceBytes(xs[0]) + CcBytes(xs[1..])
  }

  /** The class of the code point that is i behind the start of the run. */
  function CcClass(x: CcPiece, i: nat): nat
    requires x.kind <= 3
  {
    match x.kind
    case 0 => x.base
    case 1 => x.base + i
    case 2 => 0
    case 3 => 230
  }

  function Lengths(xs: seq<CcPiece>): nat {
    if xs == [] then 0 else xs[0].len + Lengths(xs[1..])
  }

  predicate CcHolds(table: seq<byte>, p: nat, xs: seq<CcPiece>)
    requires ValidCcPieces(xs)
  {
    p <= |table| && table[p..] == CcBytes(xs)
  }

  lemma OrNothing(b: nat)
    requires b < 256
    ensures OrBytes(0, b) == b
  {
    assert (0 as bv8) | (b as bv8) == b as bv8;
  }

  lemma CcRunOfPiece(table: seq<byte>, p: nat, x: CcPiece)
    requires ValidCcPiece(x) && p + |CcPieceBytes(x)| <= |table| && table[p..p + |CcPieceBytes(x)|] == CcPieceBytes(x)
    ensures var r := CcRunAt(table, p);
      r.kind == x.kind && r.len == x.len && r.size == |CcPieceBytes(x)| && r.base == if x.kind <= 1 then x.base else 0
  {
    var s := table[p..p + |CcPieceBytes(x)|];
    var n := x.len - 1;
    assert table[p] == s[0];
    hide CcRunAt;
    if n < 48 {
      if x.kind <= 1 { assert table[p + 1] == s[1]; }
      CcShort(table, p, x.kind, n);
    } else if n < 2096 {
      assert table[p + 1] == s[1];
      if x.kind <= 1 { assert table[p + 2] == s[2]; }
      CcMedium(table, p, x.kind, n - 48);
    } else {
      assert table[p + 1] == s[1] && table[p + 2] == s[2];
      if x.kind <= 1 { assert table[p + 3] == s[3]; }
      CcLarge(table, p, x.kind, n - 2096);
    }
  }

  lemma CcShort(table: seq<byte>, p: nat, kind: nat, n: nat)
    requires p < |table| && kind <= 3 && n < 48 && table[p] == 64 * kind + n
    ensures CcRunAt(table, p) == CcRun(kind, n + 1, if kind <= 1 then ByteAt(table, p + 1) else 0, if kind <= 1 then 2 else 1)
  {
    DivMod64(kind, n);
    hide OrBytes;
  }

  lemma CcMedium(table: seq<byte>, p: nat, kind: nat, n: nat)
    requires p + 1 < |table| && kind <= 3 && n < 2048 && table[p] == 64 * kind + 48 + n / 256 && table[p + 1] == n % 256
    ensures CcRunAt(table, p) == CcRun(kind, n + 49, if kind <= 1 then ByteAt(table, p + 2) else 0, if kind <= 1 then 3 else 2)
  {
    DivMod64(kind, 48 + n / 256);
    hide OrBytes;
  }

  lemma CcLarge(table: seq<byte>, p: nat, kind: nat, n: nat)
    requires p + 2 < |table| && kind <= 3 && n < 65536 && table[p] == 64 * kind + 56 && table[p + 1] == n / 256 && table[p + 2] == n % 256
    ensures CcRunAt(table, p) == CcRun(kind, n + 2097, if kind <= 1 then ByteAt(table, p + 3) else 0, if kind <= 1 then 4 else 3)
  {
    DivMod64(kind, 56);
    OrNothing(n / 256);
    hide OrBytes;
  }

  lemma DivMod64(k: nat, n: nat)
    requires k <= 3 && n < 64
    ensures 64 * k + n < 256 && (64 * k + n) / 64 == k && (64 * k + n) % 64 == n
  {
  }

  lemma CcHoldsFirst(table: seq<byte>, p: nat, xs: seq<CcPiece>)
    requires ValidCcPieces(xs) && CcHolds(table, p, xs)
    ensures xs == [] <==> p == |table|
    ensures xs != [] ==> (var n := |CcPieceBytes(xs[0])|;
      p + n <= |table| && table[p..p + n] == CcPieceBytes(xs[0]) && ValidCcPieces(xs[1..]) && CcHolds(table, p + n, xs[1..]))
  {
    if xs != [] {
      var s, n := table[p..], |CcPieceBytes(xs[0])|;
      assert s == CcPieceBytes(xs[0]) + CcBytes(xs[1..]);
      assert table[p..p + n] == s[..n] && table[p + n..] == s[n..];
    }
  }

  /** The class of the code point i in run number k, and of those beyond all runs. */
  lemma {:induction false} CcOfPiece(table: seq<byte>, p: nat, xs: seq<CcPiece>, code: nat, k: nat, i: nat)
    requires ValidCcPieces(xs) && CcHolds(table, p, xs) && k <= |xs| && (k < |xs| ==> i < xs[k].len)
    ensures CcFrom(table, p, code, code + Lengths(xs[..k]) + i) == if k < |xs| then CcClass(xs[k], i) else 0
    decreases |xs|
  {
    hide CcRunAt, CcPieceBytes, CcBytes, CcHolds;
    CcHoldsFirst(table, p, xs);
    if xs != [] {
      var x := xs[0];
      CcRunOfPiece(table, p, x);
      if k == 0 {
        assert xs[..0] == [];
      } else {
        assert xs[..k][1..] == xs[1..][..k - 1];
        CcOfPiece(table, p + |CcPieceBytes(x)|, xs[1..], code + x.len, k - 1, i);
      }
    }
  }

  /** A table of combining classes that an encoder has written gives every code point the class of
      its run, and 0 beyond the runs. */
  lemma ClassesDecoded(xs: seq<CcPiece>, k: nat, i: nat)
    requires ValidCcPieces(xs) && k <= |xs| && (k < |xs| ==> i < xs[k].len)
    ensures CombiningClass(CcBytes(xs), Lengths(xs[..k]) + i) == if k < |xs| then CcClass(xs[k], i) else 0
  {
    hide CcFrom, CcBytes, Lengths, CcClass, ValidCcPiece;
    var table := CcBytes(xs);
    assert table[0..] == table;
    CcOfPiece(table, 0, xs, 0, k, i);
  }

  /** The first two bytes of the longest form are OR-ed into the same place: a run never has more
      than 67632 code points, although there would be room for 2^19 and more, and different
      bytes stand for the same run. */
  lemma LongRunsCollide(table: seq<byte>, p: nat)
    requires p < |table|
    ensures CcRunAt(table, p).len <= 67632
    ensures CcRunAt([56 + 128, 1, 0], 0) == CcRunAt([57 + 128, 1, 0], 0) == CcRunAt([57 + 128, 0, 0], 0)
  {
    OrNothing(1);
    OrOne();
    hide OrBytes;
    OrBound(table, p);
  }

  lemma OrOne()
    ensures OrBytes(1, 1) == 1 && OrBytes(1, 0) == 1
  {
  }

  lemma OrBound(table: seq<byte>, p: nat)
    ensures ByteAt(table, p) < 256 && ByteAt(table, p + 1) < 256 && ByteAt(table, p + 2) < 256
    ensures forall a, b :: 0 <= a < 256 && 0 <= b < 256 ==> 0 <= OrBytes(a, b) < 256
  {
  }
}
