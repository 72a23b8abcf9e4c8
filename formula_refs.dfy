/** What a single R1C1 reference becomes. The match is parsed greedily;
    these lemmas show that a reference written out from its parts is read
    back as exactly those parts, and then what address it resolves to. */
module FormulaRefs {

  import opened Wrappers
  import opened Strings
  import opened Columns
  import opened Formula

  /** Nothing at `e` can extend a group: the text ends, or the character
      is none of `[`, `-`, a digit or `]`. */
  predicate Stops(s: string, e: nat)
    requires e <= |s|
  {
    e == |s| || !(s[e] == '[' || s[e] == '-' || s[e] == ']' || IsDigit(s[e]))
  }

  predicate AllDigits(d: string) {
    forall k :: 0 <= k < |d| ==> IsDigit(d[k])
  }

  /** The digit run is determined by where the digits stop. */
  lemma {:induction false} DigitRunExact(s: string, i: nat, n: nat)
    requires i + n <= |s|
    requires forall k :: i <= k < i + n ==> IsDigit(s[k])
    requires i + n == |s| || !IsDigit(s[i + n])
    ensures DigitRun(s, i) == n
    decreases n
  {
    if n > 0 {
      DigitRunExact(s, i + 1, n - 1);
    }
  }

  /** A group written out and followed by something that cannot extend
      it is parsed back as that group. */
  lemma {:induction false} ParsePartExact(s: string, i: nat, e: nat, p: Part)
    requires e == i + Width(p) && e <= |s|
    requires s[i..e] == PartText(p)
    requires AllDigits(p.digits)
    requires Stops(s, e)
    ensures ParsePart(s, i) == p
  {
    var j := i + Flag(p.open);
    var k := j + Flag(p.minus);
    var m := k + |p.digits|;
    WidthText(p);
    PartSlices(s, i, j, k, m, e, p);
    ParsePartPieces(s, i, j, k, m, e, p);
  }

  lemma {:induction false} ParsePartPieces(s: string, i: nat, j: nat, k: nat, m: nat, e: nat, p: Part)
    requires j == i + Flag(p.open) && k == j + Flag(p.minus)
    requires m == k + |p.digits| && e == m + Flag(p.close) && e <= |s|
    requires s[i..j] == Optional(p.open, '[') && s[j..k] == Optional(p.minus, '-')
    requires s[k..m] == p.digits && s[m..e] == Optional(p.close, ']')
    requires AllDigits(p.digits)
    requires Stops(s, e)
    ensures ParsePart(s, i) == p
  {
    PartFlags(s, i, j, k, m, e, p);
    ParsePartIs(s, i, p.open, p.minus, |p.digits|, p.close);
  }

  /** What is found at each position of a written-out group. */
  lemma {:induction false} PartFlags(s: string, i: nat, j: nat, k: nat, m: nat, e: nat, p: Part)
    requires j == i + Flag(p.open) && k == j + Flag(p.minus)
    requires m == k + |p.digits| && e == m + Flag(p.close) && e <= |s|
    requires s[i..j] == Optional(p.open, '[') && s[j..k] == Optional(p.minus, '-')
    requires s[k..m] == p.digits && s[m..e] == Optional(p.close, ']')
    requires AllDigits(p.digits)
    requires Stops(s, e)
    ensures (i < |s| && s[i] == '[') == p.open
    ensures (j < |s| && s[j] == '-') == p.minus
    ensures DigitRun(s, k) == |p.digits|
    ensures (m < |s| && s[m] == ']') == p.close
  {
    if p.open { assert s[i..j][0] == s[i]; }
    if p.minus { assert s[j..k][0] == s[j]; }
    if p.close { assert s[m..e][0] == s[m]; }
    if k < m { assert s[k..m][0] == s[k]; }
    if j < k { assert s[j..k][0] == s[j]; }
    forall x | k <= x < m ensures IsDigit(s[x]) { assert s[k..m][x - k] == s[x]; }
    DigitRunExact(s, k, |p.digits|);
  }

  /** `ParsePart` in terms of what it finds at each position. */
  lemma {:induction false} ParsePartIs(s: string, i: nat, open: bool, minus: bool, n: nat, close: bool)
    requires i <= |s|
    requires open == (i < |s| && s[i] == '[')
    requires minus == (i + Flag(open) < |s| && s[i + Flag(open)] == '-')
    requires i + Flag(open) + Flag(minus) <= |s|
    requires DigitRun(s, i + Flag(open) + Flag(minus)) == n
    requires close == (i + Flag(open) + Flag(minus) + n < |s| && s[i + Flag(open) + Flag(minus) + n] == ']')
    ensures ParsePart(s, i) == Part(open, minus, s[i + Flag(open) + Flag(minus)..i + Flag(open) + Flag(minus) + n], close)
  {
  }

  /** The four pieces of a written-out group, as slices of the text. */
  lemma {:induction false} PartSlices(s: string, i: nat, j: nat, k: nat, m: nat, e: nat, p: Part)
    requires j == i + Flag(p.open) && k == j + Flag(p.minus)
    requires m == k + |p.digits| && e == m + Flag(p.close)
    requires e <= |s| && s[i..e] == PartText(p)
    ensures e == i + Width(p)
    ensures s[i..j] == Optional(p.open, '[') && s[j..k] == Optional(p.minus, '-')
    ensures s[k..m] == p.digits && s[m..e] == Optional(p.close, ']')
  {
    var t := PartText(p);
    assert |t| == e - i;
    SliceFourWays(s, i, j, k, m, e);
    var x := s[i..j];
    var y := s[j..k];
    var z := s[k..m];
    var w := s[m..e];
    assert x + y + z + w == Optional(p.open, '[') + Optional(p.minus, '-') + p.digits + Optional(p.close, ']');
    ConcatEqual(x, y, z, w, Optional(p.open, '['), Optional(p.minus, '-'), p.digits, Optional(p.close, ']'));
  }

  lemma {:induction false} ConcatEqual(x: string, y: string, z: string, w: string, a: string, b: string, c: string, d: string)
    requires |x| == |a| && |y| == |b| && |z| == |c| && |w| == |d|
    requires x + y + z + w == a + b + c + d
    ensures x == a && y == b && z == c && w == d
  {
    var l := x + y + z + w;
    assert x == l[..|x|] == a;
    assert y == l[|x|..|x| + |y|] == b;
    assert z == l[|x| + |y|..|x| + |y| + |z|] == c;
    assert w == l[|x| + |y| + |z|..] == d;
  }

  lemma {:induction false} SliceFourWays(s: string, i: nat, j: nat, k: nat, m: nat, e: nat)
    requires i <= j <= k <= m <= e <= |s|
    ensures s[i..e] == s[i..j] + s[j..k] + s[k..m] + s[m..e]
  {
    SliceSplit(s, i, j, e);
    SliceSplit(s, j, k, e);
    SliceSplit(s, k, m, e);
  }

  /** The text of a reference made of two groups. */
  function RefString(row: Part, col: Part): string {
    "R" + PartText(row) + "C" + PartText(col)
  }

  /** A reference written out, followed by something that cannot extend its
      column group, is the match found there. */
  lemma {:induction false} RefAtExact(s: string, i: nat, e: nat, row: Part, col: Part)
    requires e == i + |RefString(row, col)| && e <= |s|
    requires s[i..e] == RefString(row, col)
    requires AllDigits(row.digits) && AllDigits(col.digits)
    requires Stops(s, e)
    ensures RefAt(s, i) == Some(Ref(i, e, row, col))
  {
    var j := i + 1 + Width(row);
    WidthText(row);
    WidthText(col);
    RefPieces(s, i, j, e, PartText(row), PartText(col));
    RefAtFound(s, i, j, e, row, col);
  }

  lemma {:induction false} RefAtFound(s: string, i: nat, j: nat, e: nat, row: Part, col: Part)
    requires j == i + 1 + Width(row) && e == j + 1 + Width(col) && e <= |s|
    requires s[i] == 'R' && s[j] == 'C'
    requires s[i + 1..j] == PartText(row) && s[j + 1..e] == PartText(col)
    requires AllDigits(row.digits) && AllDigits(col.digits)
    requires Stops(s, e)
    ensures RefAt(s, i) == Some(Ref(i, e, row, col))
  {
    RowParsed(s, i, j, row);
    ColParsed(s, j, e, col);
    RefAtIs(s, i, j, e, row, col);
  }

  /** The row group ends at the `C`, which cannot extend it. */
  lemma {:induction false} RowParsed(s: string, i: nat, j: nat, row: Part)
    requires j == i + 1 + Width(row) && j < |s| && s[j] == 'C'
    requires s[i + 1..j] == PartText(row)
    requires AllDigits(row.digits)
    ensures ParsePart(s, i + 1) == row
  {
    ParsePartExact(s, i + 1, j, row);
  }

  lemma {:induction false} ColParsed(s: string, j: nat, e: nat, col: Part)
    requires e == j + 1 + Width(col) && e <= |s|
    requires s[j + 1..e] == PartText(col)
    requires AllDigits(col.digits)
    requires Stops(s, e)
    ensures ParsePart(s, j + 1) == col
  {
    ParsePartExact(s, j + 1, e, col);
  }

  /** `RefAt` in terms of what it finds at each position. */
  lemma {:induction false} RefAtIs(s: string, i: nat, j: nat, e: nat, row: Part, col: Part)
    requires i < |s| && s[i] == 'R'
    requires ParsePart(s, i + 1) == row
    requires j == i + 1 + Width(row) && j < |s| && s[j] == 'C'
    requires ParsePart(s, j + 1) == col
    requires e == j + 1 + Width(col)
    ensures RefAt(s, i) == Some(Ref(i, e, row, col))
  {
  }

  lemma {:induction false} RefPieces(s: string, i: nat, j: nat, e: nat, a: string, b: string)
    requires j == i + 1 + |a| && e == j + 1 + |b| && e <= |s|
    requires s[i..e] == "R" + a + "C" + b
    ensures s[i] == 'R' && s[j] == 'C'
    ensures s[i + 1..j] == a && s[j + 1..e] == b
  {
    SliceFourWays(s, i, i + 1, j, j + 1, e);
    ConcatEqual(s[i..i + 1], s[i + 1..j], s[j..j + 1], s[j + 1..e], "R", a, "C", b);
    assert s[i..i + 1][0] == s[i];
    assert s[j..j + 1][0] == s[j];
  }

  /** A segment holding one reference between text without `R` becomes
      that text around the reference's address, and fails when the address
      does not exist. */
  lemma {:induction false} ReferenceInContext(a: string, row: Part, col: Part, b: string, r: int, c: int)
    requires 'R' !in a && 'R' !in b
    requires AllDigits(row.digits) && AllDigits(col.digits)
    requires b == [] || !(b[0] == '[' || b[0] == '-' || b[0] == ']' || IsDigit(b[0]))
    ensures var ref := Ref(|a|, |a| + |RefString(row, col)|, row, col);
      TranslateSegment(a + RefString(row, col) + b, r, c) ==
        match Address(ref, r, c)
        case None => None
        case Some(x) => Some(a + x + b)
  {
    var t := RefString(row, col);
    Surrounded(a, t, b);
    ReferenceBetween(a + t + b, a, row, col, b, r, c);
  }

  lemma {:induction false} ReferenceBetween(s: string, a: string, row: Part, col: Part, b: string, r: int, c: int)
    requires |a| + |RefString(row, col)| <= |s|
    requires s[|a|..|a| + |RefString(row, col)|] == RefString(row, col)
    requires s[..|a|] == a && s[|a| + |RefString(row, col)|..] == b
    requires Stops(s, |a| + |RefString(row, col)|)
    requires forall p :: 0 <= p < |a| ==> s[p] != 'R'
    requires forall p :: |a| + |RefString(row, col)| <= p < |s| ==> s[p] != 'R'
    requires AllDigits(row.digits) && AllDigits(col.digits)
    ensures var ref := Ref(|a|, |a| + |RefString(row, col)|, row, col);
      TranslateSegment(s, r, c) ==
        match Address(ref, r, c)
        case None => None
        case Some(x) => Some(a + x + b)
  {
    var ref := Ref(|a|, |a| + |RefString(row, col)|, row, col);
    RefAtExact(s, |a|, ref.end, row, col);
    ReferenceAlone(s, ref, a, b, r, c);
  }

  /** A match with no `R` before or after it is replaced by its address. */
  lemma {:induction false} ReferenceAlone(s: string, ref: Ref, a: string, b: string, r: int, c: int)
    requires ref.start < ref.end <= |s| && RefAt(s, ref.start) == Some(ref)
    requires forall p :: 0 <= p < ref.start ==> s[p] != 'R'
    requires forall p :: ref.end <= p < |s| ==> s[p] != 'R'
    requires s[..ref.start] == a && s[ref.end..] == b
    ensures TranslateSegment(s, r, c) ==
      match Address(ref, r, c)
      case None => None
      case Some(x) => Some(a + x + b)
  {
    FindOne(s, ref);
    SpliceSingle(s, ref, r, c);
  }

  /** The text around `t` in `a + t + b`. */
  lemma {:induction false} Surrounded(a: string, t: string, b: string)
    requires 'R' !in a && 'R' !in b
    requires b == [] || !(b[0] == '[' || b[0] == '-' || b[0] == ']' || IsDigit(b[0]))
    ensures var s := a + t + b; var e := |a| + |t|;
      && s[|a|..e] == t && s[..|a|] == a && s[e..] == b
      && Stops(s, e)
      && (forall p :: 0 <= p < |a| ==> s[p] != 'R')
      && (forall p :: e <= p < |s| ==> s[p] != 'R')
  {
    var s := a + t + b;
    var e := |a| + |t|;
    assert s[|a|..e] == t && s[..|a|] == a && s[e..] == b;
    if e < |s| { assert s[e] == b[0]; }
    forall p | 0 <= p < |a| ensures s[p] != 'R' { assert s[p] == a[p]; }
    forall p | e <= p < |s| ensures s[p] != 'R' { assert s[p] == b[p - e]; }
  }

  /** A match with no `R` before or after it is the only one found. */
  lemma {:induction false} FindOne(s: string, r: Ref)
    requires r.start < r.end <= |s| && RefAt(s, r.start) == Some(r)
    requires forall p :: 0 <= p < r.start ==> s[p] != 'R'
    requires forall p :: r.end <= p < |s| ==> s[p] != 'R'
    ensures FindRefs(s, 0) == [r]
  {
    FindRefsSkip(s, 0, r.start);
    FindRefsSkip(s, r.end, |s|);
    assert FindRefs(s, r.start) == [r] + FindRefs(s, r.end);
  }

  /** Splicing one reference puts its address between the text before and
      the text after it. */
  lemma {:induction false} SpliceSingle(s: string, ref: Ref, r: int, c: int)
    requires ref.start <= ref.end <= |s|
    ensures Ordered([ref], 0, |s|) == (ref.start < ref.end)
    ensures ref.start < ref.end ==>
      Splice(s, [ref], r, c, 0) ==
        match Address(ref, r, c)
        case None => None
        case Some(x) => Some(s[..ref.start] + x + s[ref.end..])
  {
    assert [ref][1..] == [];
  }

  // ---------------------------------------------------------------------
  // The three forms of a group
  // ---------------------------------------------------------------------

  /** `[n]`: an offset from the cell. */
  function Offset(d: int): Part {
    Part(true, d < 0, NatToString(if d < 0 then -d else d), true)
  }

  /** `n`: an absolute row or column. */
  function Absolute(n: nat): Part {
    Part(false, false, NatToString(n), false)
  }

  /** Nothing: the cell's own row or column. */
  const Current := Part(false, false, "", false)

  lemma {:induction false} OffsetPart(d: int)
    ensures PartText(Offset(d)) == "[" + IntToString(d) + "]"
    ensures AllDigits(Offset(d).digits)
    ensures PartValue(Offset(d)) == d
  {
    var n := if d < 0 then -d else d;
    DigitsOfNat(n);
    assert |NatToString(n)| >= 1;
  }

  lemma {:induction false} AbsolutePart(n: nat)
    ensures PartText(Absolute(n)) == NatToString(n)
    ensures AllDigits(Absolute(n).digits)
    ensures PartValue(Absolute(n)) == n
  {
    DigitsOfNat(n);
    assert |NatToString(n)| >= 1;
  }

  /** A segment that is one reference becomes its address. */
  lemma {:induction false} WholeReference(row: Part, col: Part, r: int, c: int)
    requires AllDigits(row.digits) && AllDigits(col.digits)
    ensures TranslateSegment(RefString(row, col), r, c) ==
      Address(Ref(0, |RefString(row, col)|, row, col), r, c)
  {
    var t := RefString(row, col);
    assert t[0..|t|] == t && t[..0] == "" && t[|t|..] == "";
    ReferenceBetween(t, "", row, col, "", r, c);
    Unframed(Address(Ref(0, |t|, row, col), r, c));
  }

  lemma {:induction false} Unframed(o: Option<string>)
    ensures (match o case None => None case Some(x) => Some("" + x + "")) == o
  {
    match o
    case None =>
    case Some(x) => assert "" + x + "" == x;
  }

  /** `R[dr]C[dc]` at row `row`, column `col` is the cell `dr` rows
      and `dc` columns away; left of column A it has no address. */
  lemma {:induction false} RelativeReference(dr: int, dc: int, row: int, col: int)
    ensures TranslateSegment("R[" + IntToString(dr) + "]C[" + IntToString(dc) + "]", row, col) ==
      if col + dc >= 1 then Some(ColumnName(col + dc - 1) + IntToString(row + dr)) else None
  {
    OffsetPart(dr);
    OffsetPart(dc);
    OffsetString(dr, dc);
    WholeReference(Offset(dr), Offset(dc), row, col);
    OffsetAddress(dr, dc, row, col, 0, |RefString(Offset(dr), Offset(dc))|);
  }

  lemma {:induction false} OffsetString(dr: int, dc: int)
    ensures RefString(Offset(dr), Offset(dc)) == "R[" + IntToString(dr) + "]C[" + IntToString(dc) + "]"
  {
    OffsetText(dr);
    OffsetText(dc);
    Brackets(IntToString(dr), IntToString(dc));
  }

  lemma {:induction false} OffsetText(d: int)
    ensures PartText(Offset(d)) == "[" + IntToString(d) + "]"
  {
  }

  lemma {:induction false} Brackets(x: string, y: string)
    ensures "R" + ("[" + x + "]") + "C" + ("[" + y + "]") == "R[" + x + "]C[" + y + "]"
  {
  }

  lemma {:induction false} OffsetAddress(dr: int, dc: int, row: int, col: int, start: nat, end: nat)
    ensures Address(Ref(start, end, Offset(dr), Offset(dc)), row, col) ==
      if col + dc >= 1 then Some(ColumnName(col + dc - 1) + IntToString(row + dr)) else None
  {
    OffsetPart(dr);
    OffsetPart(dc);
  }

  /** `RnCm` is the fixed cell in column `m` and row `n`; the row digits are
      kept as written. */
  lemma {:induction false} AbsoluteReference(n: nat, m: nat, row: int, col: int)
    ensures TranslateSegment("R" + NatToString(n) + "C" + NatToString(m), row, col) ==
      if m >= 1 then Some(ColumnName(m - 1) + NatToString(n)) else None
  {
    AbsolutePart(n);
    AbsolutePart(m);
    WholeReference(Absolute(n), Absolute(m), row, col);
  }

  /** `RC` is the cell itself. */
  lemma {:induction false} CurrentReference(row: int, col: int)
    ensures TranslateSegment("RC", row, col) ==
      if col >= 1 then Some(ColumnName(col - 1) + IntToString(row)) else None
  {
    WholeReference(Current, Current, row, col);
    assert RefString(Current, Current) == "RC";
  }

  // ---------------------------------------------------------------------
  // Whole formulas
  // ---------------------------------------------------------------------

  /** A formula without string literals is one segment. */
  lemma {:induction false} UnquotedFormula(f: string, row: int, col: int)
    requires '"' !in Body(f)
    ensures Translate(f, row, col) ==
      if IsOfFormula(f) then Some(OfSegment(Body(f))) else TranslateSegment(f, row, col)
  {
    SplitPlain(Body(f), '"');
    var x := Body(f);
    assert [x][..0] == [];
    if !IsOfFormula(f) {
      RewriteEvenSingle(x, SegmentRewrite(row, col));
      assert SegmentRewrite(row, col)(x) == TranslateSegment(x, row, col);
      match TranslateSegment(x, row, col)
      case None =>
      case Some(y) => assert Join([y], '"') == y;
    } else {
      assert RewriteOf([x]) == [] + [OfSegment(x)] == [OfSegment(x)];
      assert Join([OfSegment(x)], '"') == OfSegment(x);
    }
  }

  lemma {:induction false} RewriteEvenSingle(x: string, f: string -> Option<string>)
    ensures RewriteEven([x], f) == match f(x) case None => None case Some(y) => Some([y])
  {
    assert [x][..0] == [];
    assert RewriteEven([], f) == Some([]);
    match f(x)
    case None =>
    case Some(y) => assert [] + [y] == [y];
  }

  /** An R1C1 formula without string literals that holds one reference. */
  lemma {:induction false} OneReferenceFormula(f: string, a: string, row: Part, col: Part, b: string, r: int, c: int)
    requires f == a + RefString(row, col) + b
    requires 'R' !in a && 'R' !in b && '"' !in a && '"' !in b
    requires AllDigits(row.digits) && AllDigits(col.digits)
    requires b == [] || !(b[0] == '[' || b[0] == '-' || b[0] == ']' || IsDigit(b[0]))
    requires !IsOfFormula(f)
    ensures var ref := Ref(|a|, |a| + |RefString(row, col)|, row, col);
      Translate(f, r, c) ==
        match Address(ref, r, c)
        case None => None
        case Some(x) => Some(a + x + b)
  {
    NoQuoteInRefString(row, col);
    NotInConcat(a, RefString(row, col), b, '"');
    UnquotedFormula(f, r, c);
    ReferenceInContext(a, row, col, b, r, c);
  }

  lemma {:induction false} NotInConcat(a: string, t: string, b: string, d: char)
    requires d !in a && d !in t && d !in b
    ensures d !in a + t + b
  {
    var f := a + t + b;
    forall k | 0 <= k < |f| ensures f[k] != d {
      if k < |a| { assert f[k] == a[k]; }
      else if k < |a| + |t| { assert f[k] == t[k - |a|]; }
      else { assert f[k] == b[k - |a| - |t|]; }
    }
  }

  lemma {:induction false} NoQuoteInRefString(row: Part, col: Part)
    requires AllDigits(row.digits) && AllDigits(col.digits)
    ensures '"' !in RefString(row, col)
  {
    assert '"' !in row.digits && '"' !in col.digits;
    NoQuoteInPart(row);
    NoQuoteInPart(col);
  }

  /** `=R[dr]C[dc]` entered in the cell at row `row`, column `col` is
      stored as `=` and the address `dr` rows and `dc` columns away. */
  lemma {:induction false} RelativeFormula(dr: int, dc: int, row: int, col: int)
    ensures Translate("=R[" + IntToString(dr) + "]C[" + IntToString(dc) + "]", row, col) ==
      if col + dc >= 1 then Some("=" + ColumnName(col + dc - 1) + IntToString(row + dr)) else None
  {
    var f := "=R[" + IntToString(dr) + "]C[" + IntToString(dc) + "]";
    var t := RefString(Offset(dr), Offset(dc));
    OffsetString(dr, dc);
    OffsetPart(dr);
    OffsetPart(dc);
    EqualsPrefixed(t, IntToString(dr), IntToString(dc));
    assert !IsOfFormula(f) by {
      assert f[..3][0] == '=';
    }
    OneReferenceFormula(f, "=", Offset(dr), Offset(dc), "", row, col);
    OffsetAddress(dr, dc, row, col, 1, 1 + |t|);
    var name := if col + dc >= 1 then ColumnName(col + dc - 1) else "";
    Framed(Address(Ref(1, 1 + |t|, Offset(dr), Offset(dc)), row, col), "=",
      name, IntToString(row + dr), col + dc >= 1);
  }

  lemma {:induction false} Framed(o: Option<string>, a: string, x: string, y: string, ok: bool)
    requires o == if ok then Some(x + y) else None
    ensures (match o case None => None case Some(z) => Some(a + z + "")) ==
      if ok then Some(a + x + y) else None
  {
    if ok { assert a + (x + y) + "" == a + x + y; }
  }

  lemma {:induction false} EqualsPrefixed(t: string, x: string, y: string)
    requires t == "R[" + x + "]C[" + y + "]"
    ensures "=" + t + "" == "=R[" + x + "]C[" + y + "]"
  {
  }

  /** `=R[-1]C[1]` in C5 refers to D4. */
  lemma {:induction false} RelativeExample()
    ensures Translate("=R[-1]C[1]", 5, 3) == Some("=D4")
  {
    RelativeFormula(-1, 1, 5, 3);
    assert IntToString(-1) == "-1" && IntToString(1) == "1" && IntToString(4) == "4";
    assert ColumnName(3) == "D";
    assert "=R[" + "-1" + "]C[" + "1" + "]" == "=R[-1]C[1]";
    assert "=" + "D" + "4" == "=D4";
  }
  /** `R2C2` is B2 wherever it is written, for instance in C5. */
  lemma {:induction false} AbsoluteExample()
    ensures TranslateSegment("R2C2", 5, 3) == Some("B2")
  {
    assert "R" + NatToString(2) + "C" + NatToString(2) == "R2C2" by {
      assert NatToString(2) == "2";
    }
    assert ColumnName(1) + NatToString(2) == "B2" by {
      assert NatToString(2) == "2" && ColumnName(1) == "B";
    }
    AbsoluteReference(2, 2, 5, 3);
  }
}
