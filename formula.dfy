/** Translation of a cell formula into the A1 notation the rest of the
    library works with. A formula is split on `"`; only the segments
    outside string literals (even positions) are rewritten, then the
    segments are joined again. Two dialects exist: `of:` formulas lose the
    prefix and every `[.`, `.` and `]`; all other formulas have their R1C1
    references rewritten relative to the cell. */
module Formula {

  import opened Wrappers
  import opened Strings
  import opened Columns

  // ---------------------------------------------------------------------
  // The pattern (R(\[?-?\d*\]?))(C(\[?-?\d*\]?))
  // ---------------------------------------------------------------------

  /** Length of the run of decimal digits starting at `i` (`\d*`). */
  function DigitRun(s: string, i: nat): (n: nat)
    requires i <= |s|
    ensures i + n <= |s|
    decreases |s| - i
  {
    if i < |s| && IsDigit(s[i]) then 1 + DigitRun(s, i + 1) else 0
  }

  /** The run is all digits and ends where the digits do. */
  lemma {:induction false} DigitRunSpec(s: string, i: nat)
    requires i <= |s|
    ensures forall k :: i <= k < i + DigitRun(s, i) ==> IsDigit(s[k])
    ensures i + DigitRun(s, i) == |s| || !IsDigit(s[i + DigitRun(s, i)])
    decreases |s| - i
  {
    if i < |s| && IsDigit(s[i]) {
      DigitRunSpec(s, i + 1);
    }
  }

  /** One `\[?-?\d*\]?` group: which optional pieces are present. */
  datatype Part = Part(open: bool, minus: bool, digits: string, close: bool)

  function PartText(p: Part): string {
    Optional(p.open, '[') + Optional(p.minus, '-') + p.digits + Optional(p.close, ']')
  }

  /** Number of characters of a group. */
  function Width(p: Part): nat {
    Flag(p.open) + Flag(p.minus) + |p.digits| + Flag(p.close)
  }

  function Flag(b: bool): nat {
    if b then 1 else 0
  }

  lemma {:induction false} WidthText(p: Part)
    ensures |PartText(p)| == Width(p)
  {
  }

  /** `c` if it is present, else nothing. */
  function Optional(present: bool, c: char): string {
    if present then [c] else []
  }

  lemma {:induction false} OptionalAt(s: string, i: nat, present: bool, c: char)
    requires present ==> i < |s| && s[i] == c
    requires i <= |s|
    ensures var j := if present then i + 1 else i; s[i..j] == Optional(present, c)
  {
  }

  /** The group matched at `i`. Every piece is taken greedily: giving one
      back would leave `[`, `-`, a digit or `]` where the pattern wants
      `C`, so no other split of the text can complete a match. */
  function ParsePart(s: string, i: nat): (p: Part)
    requires i <= |s|
    ensures i + Width(p) <= |s|
  {
    var open := i < |s| && s[i] == '[';
    var j := if open then i + 1 else i;
    var minus := j < |s| && s[j] == '-';
    var k := if minus then j + 1 else j;
    var m := k + DigitRun(s, k);
    var close := m < |s| && s[m] == ']';
    Part(open, minus, s[k..m], close)
  }

  /** The group parsed at `i` is the text found there. */
  lemma {:induction false} ParsePartText(s: string, i: nat, p: Part)
    requires i <= |s| && p == ParsePart(s, i)
    ensures s[i..i + Width(p)] == PartText(p)
  {
    var j := if p.open then i + 1 else i;
    var k := if p.minus then j + 1 else j;
    var m := k + DigitRun(s, k);
    assert p.digits == s[k..m];
    PartPieces(s, i, j, k, m, p.open, p.minus, p.close);
  }

  lemma {:induction false} PartPieces(s: string, i: nat, j: nat, k: nat, m: nat, open: bool, minus: bool, close: bool)
    requires i <= j <= k <= m <= |s|
    requires j == if open then i + 1 else i
    requires open ==> s[i] == '['
    requires k == if minus then j + 1 else j
    requires minus ==> s[j] == '-'
    requires close ==> m < |s| && s[m] == ']'
    ensures var t := PartText(Part(open, minus, s[k..m], close));
      m + (if close then 1 else 0) == i + |t| && s[i..i + |t|] == t
  {
    var e := if close then m + 1 else m;
    OptionalAt(s, i, open, '[');
    OptionalAt(s, j, minus, '-');
    OptionalAt(s, m, close, ']');
    SliceFour(s, i, j, k, m, e, Optional(open, '['), Optional(minus, '-'), Optional(close, ']'));
  }

  lemma {:induction false} SliceFour(s: string, i: nat, j: nat, k: nat, m: nat, e: nat, a: string, b: string, c: string)
    requires i <= j <= k <= m <= e <= |s|
    requires s[i..j] == a && s[j..k] == b && s[m..e] == c
    ensures s[i..e] == a + b + s[k..m] + c
  {
    assert s[i..e] == s[i..j] + s[j..k] + s[k..m] + s[m..e];
  }

  lemma {:induction false} SliceSplit(s: string, a: nat, b: nat, c: nat)
    requires a <= b <= c <= |s|
    ensures s[a..c] == s[a..b] + s[b..c]
  {
  }

  /** A match: `s[start..end]` is `R`, a row group, `C`, a column group. */
  datatype Ref = Ref(start: nat, end: nat, row: Part, col: Part)

  function RefText(r: Ref): string {
    "R" + PartText(r.row) + "C" + PartText(r.col)
  }

  /** The match that starts at `i`, if any. */
  function RefAt(s: string, i: nat): (r: Option<Ref>)
    requires i <= |s|
    ensures r.Some? ==> r.value.start == i < r.value.end <= |s|
  {
    if i < |s| && s[i] == 'R' then
      var row := ParsePart(s, i + 1);
      var j := i + 1 + Width(row);
      if j < |s| && s[j] == 'C' then
        var col := ParsePart(s, j + 1);
        Some(Ref(i, j + 1 + Width(col), row, col))
      else None
    else None
  }

  /** A match is the text `R`, row group, `C`, column group. */
  lemma {:induction false} RefAtText(s: string, i: nat)
    requires i <= |s| && RefAt(s, i).Some?
    ensures s[i..RefAt(s, i).value.end] == RefText(RefAt(s, i).value)
  {
    var r := RefAt(s, i).value;
    RefAtFields(s, i);
    FieldsText(s, i, i + 1 + Width(r.row), r.end, r.row, r.col);
  }

  /** The pieces a match is made of. */
  lemma {:induction false} RefAtFields(s: string, i: nat)
    requires i <= |s| && RefAt(s, i).Some?
    ensures var r := RefAt(s, i).value; var j := i + 1 + Width(r.row);
      && i < |s| && s[i] == 'R' && r.row == ParsePart(s, i + 1)
      && j < |s| && s[j] == 'C' && r.col == ParsePart(s, j + 1)
      && r.start == i && r.end == j + 1 + Width(r.col)
  {
  }

  lemma {:induction false} FieldsText(s: string, i: nat, j: nat, e: nat, row: Part, col: Part)
    requires i < |s| && s[i] == 'R' && row == ParsePart(s, i + 1)
    requires j == i + 1 + Width(row)
    requires j < |s| && s[j] == 'C' && col == ParsePart(s, j + 1)
    requires e == j + 1 + Width(col)
    ensures s[i..e] == "R" + PartText(row) + "C" + PartText(col)
  {
    GroupAt(s, i + 1, j, row);
    GroupAt(s, j + 1, e, col);
    SliceRef(s, i, j, e, PartText(row), PartText(col));
  }

  /** The group parsed at `i` spans `s[i..j]`. */
  lemma {:induction false} GroupAt(s: string, i: nat, j: nat, p: Part)
    requires i <= |s| && p == ParsePart(s, i) && j == i + Width(p)
    ensures j <= |s| && s[i..j] == PartText(p)
  {
    ParsePartText(s, i, p);
  }

  lemma {:induction false} SliceRef(s: string, i: nat, j: nat, e: nat, a: string, b: string)
    requires i < j < e <= |s|
    requires s[i] == 'R' && s[j] == 'C'
    requires s[i + 1..j] == a && s[j + 1..e] == b
    ensures s[i..e] == "R" + a + "C" + b
  {
    assert s[i..e] == s[i..i + 1] + s[i + 1..j] + s[j..j + 1] + s[j + 1..e];
  }

  /** Matches that follow each other, left to right, from `from` on. */
  predicate Ordered(refs: seq<Ref>, from: nat, len: nat) {
    if refs == [] then from <= len
    else from <= refs[0].start < refs[0].end <= len && Ordered(refs[1..], refs[0].end, len)
  }

  /** The matches of a text, by the position they start at. */
  function Matches(s: string): nat -> Option<Ref> {
    (i: nat) => if i <= |s| then RefAt(s, i) else None
  }

  /** `m` gives, for each position of a text of length `len`, at most one
      match, which starts there and is not empty. */
  ghost predicate Matcher(len: nat, m: nat -> Option<Ref>) {
    forall i: nat :: i <= len && m(i).Some? ==> m(i).value.start == i < m(i).value.end <= len
  }

  lemma {:induction false} MatchesMatcher(s: string)
    ensures Matcher(|s|, Matches(s))
  {
  }

  /** The search of `preg_match_all`, for any matcher: the leftmost match,
      then the next one after it. */
  function Scan(len: nat, m: nat -> Option<Ref>, from: nat): (refs: seq<Ref>)
    requires from <= len && Matcher(len, m)
    ensures Ordered(refs, from, len)
    decreases len - from
  {
    if from == len then []
    else
      match m(from)
      case Some(r) => [r] + Scan(len, m, r.end)
      case None => Scan(len, m, from + 1)
  }

  /** `preg_match_all` with the reference pattern. */
  function FindRefs(s: string, from: nat): (refs: seq<Ref>)
    requires from <= |s|
    ensures Ordered(refs, from, |s|)
  {
    MatchesMatcher(s);
    Scan(|s|, Matches(s), from)
  }

  // ---------------------------------------------------------------------
  // Resolution of one reference
  // ---------------------------------------------------------------------

  /** The number a group stands for: no digits count as 0 (PHP 7 reads
      `""` and `"-"` as 0 in arithmetic, and a trailing `]` is ignored). */
  function PartValue(p: Part): int
  {
    if p.digits == [] then 0
    else if p.minus then 0 - DigitsValue(p.digits)
    else DigitsValue(p.digits)
  }

  /** The row text: an empty group is the current row, a bracketed one is
      relative to it, and a bare one is kept as matched. */
  function RowText(p: Part, row: int): string
  {
    if PartText(p) == [] then IntToString(row)
    else if p.open then IntToString(row + PartValue(p))
    else PartText(p)
  }

  /** The 1-based column number: empty is the current column, bracketed
      is relative to it, bare is absolute. */
  function ColumnNumber(p: Part, col: int): int
  {
    if PartText(p) == [] then col
    else if p.open then col + PartValue(p)
    else PartValue(p)
  }

  /** The A1 address of a reference; `None` when its column number is
      below 1, where column naming is not defined. */
  function Address(r: Ref, row: int, col: int): Option<string>
  {
    var n := ColumnNumber(r.col, col);
    if n >= 1 then Some(ColumnName(n - 1) + RowText(r.row, row)) else None
  }

  // ---------------------------------------------------------------------
  // Rewriting a segment
  // ---------------------------------------------------------------------

  /** The segment from `from` on with every match replaced by its address,
      stated left to right. */
  function Splice(s: string, refs: seq<Ref>, row: int, col: int, from: nat): Option<string>
    requires Ordered(refs, from, |s|)
    decreases |refs|
  {
    if refs == [] then Some(s[from..])
    else
      match Address(refs[0], row, col)
      case None => None
      case Some(a) =>
        match Splice(s, refs[1..], row, col, refs[0].end)
        case None => None
        case Some(rest) => Some(s[from..refs[0].start] + a + rest)
  }

  /** One non-quoted segment of an R1C1 formula, rewritten. */
  function TranslateSegment(s: string, row: int, col: int): Option<string> {
    Splice(s, FindRefs(s, 0), row, col, 0)
  }

  /** Where the part of the segment after the first `k` matches begins. */
  function From(refs: seq<Ref>, k: nat): nat
    requires k <= |refs|
  {
    if k == 0 then 0 else refs[k - 1].end
  }

  lemma {:induction false} OrderedSuffix(refs: seq<Ref>, len: nat, k: nat)
    requires Ordered(refs, 0, len)
    requires k <= |refs|
    ensures Ordered(refs[k..], From(refs, k), len)
  {
    if k > 0 {
      OrderedSuffix(refs, len, k - 1);
      assert refs[k - 1..][1..] == refs[k..];
    }
  }

  lemma {:induction false} OrderedBound(refs: seq<Ref>, from: nat, len: nat)
    requires Ordered(refs, from, len)
    ensures from <= len
    ensures refs != [] ==> refs[0].end <= len
    decreases |refs|
  {
    if refs != [] {
      OrderedBound(refs[1..], refs[0].end, len);
    }
  }

  /** Splicing fails exactly when some match has no address. */
  lemma {:induction false} SpliceNone(s: string, refs: seq<Ref>, row: int, col: int, from: nat)
    requires Ordered(refs, from, |s|)
    ensures Splice(s, refs, row, col, from).None? <==> exists k :: 0 <= k < |refs| && Address(refs[k], row, col).None?
    decreases |refs|
  {
    if refs != [] {
      SpliceNone(s, refs[1..], row, col, refs[0].end);
      if exists k :: 0 <= k < |refs| && Address(refs[k], row, col).None? {
        var k :| 0 <= k < |refs| && Address(refs[k], row, col).None?;
        if k > 0 { assert refs[1..][k - 1] == refs[k]; }
      }
      if exists k :: 0 <= k < |refs[1..]| && Address(refs[1..][k], row, col).None? {
        var k :| 0 <= k < |refs[1..]| && Address(refs[1..][k], row, col).None?;
        assert refs[k + 1] == refs[1..][k];
      }
    }
  }

  /** The loop's state after rewriting every match from the `k`-th on:
      the head of the text is still the original, and the rest is the
      left-to-right splice of those matches. */
  ghost predicate Spliced(value: string, refs: seq<Ref>, row: int, col: int, k: nat, v: string) {
    && k <= |refs|
    && Ordered(refs[k..], From(refs, k), |value|)
   
    && From(refs, k) <= |value|
    && Splice(value, refs[k..], row, col, From(refs, k)).Some?
    && v == value[..From(refs, k)] + Splice(value, refs[k..], row, col, From(refs, k)).value
  }

  lemma {:induction false} SpliceInit(value: string, refs: seq<Ref>, row: int, col: int)
    requires Ordered(refs, 0, |value|)
    ensures Spliced(value, refs, row, col, |refs|, value)
  {
    var k := |refs|;
    OrderedSuffix(refs, |value|, k);
    OrderedBound(refs[k..], From(refs, k), |value|);
    assert refs[k..] == [];
  }

  /** Replacing the match before the first `k` ones (`substr_replace`)
      keeps the loop's state. */
  lemma {:induction false} SpliceStep(value: string, refs: seq<Ref>, row: int, col: int, k: nat, v: string)
    requires 0 < k <= |refs|
    requires Ordered(refs, 0, |value|)
    requires Address(refs[k - 1], row, col).Some?
    requires Spliced(value, refs, row, col, k, v)
    ensures refs[k - 1].start <= refs[k - 1].end <= |v|
    ensures Spliced(value, refs, row, col, k - 1,
      v[..refs[k - 1].start] + Address(refs[k - 1], row, col).value + v[refs[k - 1].end..])
  {
    var ref := refs[k - 1];
    var a := Address(ref, row, col).value;
    OrderedSuffix(refs, |value|, k - 1);
    assert refs[k - 1..][1..] == refs[k..];
    assert refs[k - 1..][0] == ref;
    var f0 := From(refs, k - 1);
    var tail := Splice(value, refs[k..], row, col, From(refs, k)).value;
    assert Splice(value, refs[k - 1..], row, col, f0) == Some(value[f0..ref.start] + a + tail);
    assert ref.end == From(refs, k);
    ReplaceInHead(value, v, tail, f0, ref.start, ref.end, a);
  }

  /** `substr_replace` on a text whose head is still the original. */
  lemma {:induction false} ReplaceInHead(value: string, v: string, tail: string, f0: nat, start: nat, f: nat, a: string)
    requires f0 <= start <= f <= |value|
    requires v == value[..f] + tail
    ensures v[..start] + a + v[f..] == value[..f0] + (value[f0..start] + a + tail)
  {
    assert v[..start] == value[..start];
    assert v[f..] == tail;
    assert value[..start] == value[..f0] + value[f0..start];
  }

  lemma {:induction false} SpliceDone(value: string, refs: seq<Ref>, row: int, col: int, v: string)
    requires Spliced(value, refs, row, col, 0, v)
    ensures Ordered(refs, 0, |value|)
    ensures Splice(value, refs, row, col, 0) == Some(v)
  {
    assert refs[0..] == refs;
    assert From(refs, 0) == 0;
    assert value[..0] == [];
    var rest := Splice(value, refs, row, col, 0).value;
    assert v == [] + rest;
    assert [] + rest == rest;
  }

  /** The rewrite of one segment as the reader does it: the matches are
      taken in reverse order and each is replaced in place
      (`substr_replace`), so the offsets of those still to come stay
      valid. */
  method RewriteSegment(value: string, row: int, col: int) returns (r: Option<string>)
    ensures r == TranslateSegment(value, row, col)
  {
    var refs := FindRefs(value, 0);
    var v := value;
    var k: nat := |refs|;
    SpliceInit(value, refs, row, col);
    while k > 0
      invariant Spliced(value, refs, row, col, k, v)
    {
      var ref := refs[k - 1];
      var a := Address(ref, row, col);
      if a.None? {
        SpliceNone(value, refs, row, col, 0);
        return None;
      }
      SpliceStep(value, refs, row, col, k, v);
      v := v[..ref.start] + a.value + v[ref.end..];
      k := k - 1;
    }
    SpliceDone(value, refs, row, col, v);
    r := Some(v);
  }

  // ---------------------------------------------------------------------
  // The of: dialect
  // ---------------------------------------------------------------------

  /** `str_replace(['[.', '.', ']'], '', $value)`: three passes, in order. */
  function OfSegment(v: string): string {
    ReplaceAll(ReplaceAll(ReplaceAll(v, "[.", ""), ".", ""), "]", "")
  }

  predicate IsOfFormula(f: string) {
    |f| >= 3 && f[..3] == "of:"
  }

  // ---------------------------------------------------------------------
  // The whole formula
  // ---------------------------------------------------------------------

  /** Segments with the even-indexed ones rewritten in the `of:` way. */
  function RewriteOf(segs: seq<string>): (r: seq<string>) {
    if segs == [] then []
    else
      var k := |segs| - 1;
      RewriteOf(segs[..k]) + [if k % 2 == 0 then OfSegment(segs[k]) else segs[k]]
  }

  /** Segments with the even-indexed ones rewritten by `f`, which may
      fail. */
  function RewriteEven(segs: seq<string>, f: string -> Option<string>): Option<seq<string>> {
    if segs == [] then Some([])
    else
      var k := |segs| - 1;
      match RewriteEven(segs[..k], f)
      case None => None
      case Some(init) =>
        if k % 2 == 1 then Some(init + [segs[k]])
        else
          match f(segs[k])
          case None => None
          case Some(t) => Some(init + [t])
  }

  /** The R1C1 rewrite of one segment, as a function value. */
  function SegmentRewrite(row: int, col: int): string -> Option<string> {
    s => TranslateSegment(s, row, col)
  }

  /** Segments with the even-indexed ones rewritten in the R1C1 way. */
  function RewriteR1C1(segs: seq<string>, row: int, col: int): Option<seq<string>> {
    RewriteEven(segs, SegmentRewrite(row, col))
  }

  /** The text after the dialect prefix, which is split on `"`. */
  function Body(f: string): string {
    if IsOfFormula(f) then f[3..] else f
  }

  /** The formula as it is stored for the cell at `row` and 1-based
      column `col`. */
  function Translate(f: string, row: int, col: int): Option<string> {
    var segs := Split(Body(f), '"');
    if IsOfFormula(f) then Some(Join(RewriteOf(segs), '"'))
    else
      match RewriteR1C1(segs, row, col)
      case None => None
      case Some(r) => Some(Join(r, '"'))
  }

  lemma {:induction false} RewriteEvenPrefix(segs: seq<string>, f: string -> Option<string>, k: nat)
    requires k <= |segs|
    requires RewriteEven(segs[..k], f).None?
    ensures RewriteEven(segs, f).None?
    decreases |segs|
  {
    if k < |segs| {
      assert segs[..|segs| - 1][..k] == segs[..k];
      RewriteEvenPrefix(segs[..|segs| - 1], f, k);
    } else {
      assert segs[..k] == segs;
    }
  }

  lemma {:induction false} RewriteOfStep(segs: seq<string>, k: nat)
    requires k < |segs|
    ensures RewriteOf(segs[..k + 1]) == RewriteOf(segs[..k]) + [if k % 2 == 0 then OfSegment(segs[k]) else segs[k]]
  {
    assert segs[..k + 1][..k] == segs[..k];
  }

  lemma {:induction false} RewriteEvenKeep(segs: seq<string>, f: string -> Option<string>, k: nat, init: seq<string>)
    requires k < |segs| && k % 2 == 1
    requires RewriteEven(segs[..k], f) == Some(init)
    ensures RewriteEven(segs[..k + 1], f) == Some(init + [segs[k]])
  {
    assert segs[..k + 1][..k] == segs[..k];
  }

  lemma {:induction false} RewriteEvenRewrite(segs: seq<string>, f: string -> Option<string>, k: nat, init: seq<string>, t: string)
    requires k < |segs| && k % 2 == 0
    requires RewriteEven(segs[..k], f) == Some(init)
    requires f(segs[k]) == Some(t)
    ensures RewriteEven(segs[..k + 1], f) == Some(init + [t])
  {
    assert segs[..k + 1][..k] == segs[..k];
  }

  lemma {:induction false} RewriteEvenFail(segs: seq<string>, f: string -> Option<string>, k: nat)
    requires k < |segs| && k % 2 == 0
    requires f(segs[k]).None?
    ensures RewriteEven(segs, f).None?
  {
    assert segs[..k + 1][..k] == segs[..k];
    assert RewriteEven(segs[..k + 1], f).None?;
    RewriteEvenPrefix(segs, f, k + 1);
  }

  lemma {:induction false} Parity(k: nat)
    ensures ((k + 1) % 2 == 1) == (k % 2 == 0)
  {
  }

  /** The `of:` loop over `$temp`: every other entry, starting with the
      first, loses `[.`, `.` and `]`. */
  method RewriteOfSegments(temp: array<string>)
    modifies temp
    ensures temp[..] == RewriteOf(old(temp[..]))
  {
    ghost var segs := temp[..];
    var key := false;
    for k := 0 to temp.Length
      invariant key == (k % 2 == 1)
      invariant temp[k..] == segs[k..]
      invariant temp[..k] == RewriteOf(segs[..k])
    {
      assert temp[k] == segs[k];
      RewriteOfStep(segs, k);
      Parity(k);
      key := !key;
      ghost var rest := temp[k + 1..];
      if key {
        temp[k] := OfSegment(temp[k]);
      }
      assert temp[k + 1..] == rest;
      assert temp[..k + 1] == temp[..k] + [temp[k]];
    }
    assert segs[..temp.Length] == segs && temp[..temp.Length] == temp[..];
  }

  /** One even entry of the R1C1 loop: the entry is rewritten in place,
      or `false` when one of its references has no address. */
  method RewriteEntry(temp: array<string>, k: nat, row: int, col: int, ghost segs: seq<string>)
      returns (ok: bool)
    requires k < temp.Length == |segs| && k % 2 == 0
    requires temp[k..] == segs[k..]
    requires RewriteR1C1(segs[..k], row, col) == Some(temp[..k])
    modifies temp
    ensures ok ==> temp[k + 1..] == segs[k + 1..]
    ensures ok ==> RewriteR1C1(segs[..k + 1], row, col) == Some(temp[..k + 1])
    ensures !ok ==> RewriteR1C1(segs, row, col).None?
  {
    ghost var f := SegmentRewrite(row, col);
    ghost var init := temp[..k];
    assert temp[k] == segs[k];
    var t := RewriteSegment(temp[k], row, col);
    assert t == f(segs[k]);
    if t.None? {
      RewriteEvenFail(segs, f, k);
      return false;
    }
    RewriteEvenRewrite(segs, f, k, init, t.value);
    temp[k] := t.value;
    assert temp[..k + 1] == init + [t.value];
    assert temp[k + 1..] == segs[k + 1..];
    ok := true;
  }

  /** The R1C1 loop over `$temp`: every other entry, starting with the
      first, has its references rewritten. `false` when a reference has
      no address, with the array then only partly rewritten. */
  method RewriteR1C1Segments(temp: array<string>, row: int, col: int) returns (ok: bool)
    modifies temp
    ensures ok <==> RewriteR1C1(old(temp[..]), row, col).Some?
    ensures ok ==> RewriteR1C1(old(temp[..]), row, col) == Some(temp[..])
  {
    ghost var segs := temp[..];
    var key := false;
    for k := 0 to temp.Length
      invariant key == (k % 2 == 1)
      invariant temp[k..] == segs[k..]
      invariant RewriteR1C1(segs[..k], row, col) == Some(temp[..k])
    {
      Parity(k);
      key := !key;
      if key {
        ok := RewriteEntry(temp, k, row, col, segs);
        if !ok {
          return;
        }
      } else {
        assert temp[k] == segs[k];
        RewriteEvenKeep(segs, SegmentRewrite(row, col), k, temp[..k]);
        assert temp[..k + 1] == temp[..k] + [segs[k]];
      }
    }
    assert segs[..temp.Length] == segs && temp[..temp.Length] == temp[..];
    ok := true;
  }

  /** The reader's translation: the segments live in an array (`$temp`)
      that is rewritten in place through a reference, then joined again. */
  method TranslateFormula(f: string, row: int, col: int) returns (r: Option<string>)
    ensures r == Translate(f, row, col)
  {
    var segs := Split(Body(f), '"');
    var temp := new string[|segs|](i requires 0 <= i < |segs| => segs[i]);
    assert temp[..] == segs;
    if IsOfFormula(f) {
      RewriteOfSegments(temp);
    } else {
      var ok := RewriteR1C1Segments(temp, row, col);
      if !ok {
        return None;
      }
    }
    r := Some(Join(temp[..], '"'));
  }

  // ---------------------------------------------------------------------
  // Properties
  // ---------------------------------------------------------------------

  /** `r` is the match that starts where `r` says it starts. */
  ghost predicate FoundAt(s: string, r: Ref) {
    r.start <= |s| && RefAt(s, r.start) == Some(r)
  }

  /** Every match found is the match at its own start. */
  lemma {:induction false} FindRefsMatch(s: string, from: nat)
    requires from <= |s|
    ensures forall k :: 0 <= k < |FindRefs(s, from)| ==> FoundAt(s, FindRefs(s, from)[k])
  {
    MatchesMatcher(s);
    var refs := FindRefs(s, from);
    ScanMatch(|s|, Matches(s), from);
    forall k | 0 <= k < |refs| ensures FoundAt(s, refs[k]) {
      assert Matches(s)(refs[k].start) == Some(refs[k]);
    }
  }

  lemma {:induction false} ScanMatch(len: nat, m: nat -> Option<Ref>, from: nat)
    requires from <= len && Matcher(len, m)
    ensures forall k :: 0 <= k < |Scan(len, m, from)| ==>
      Scan(len, m, from)[k].start <= len && m(Scan(len, m, from)[k].start) == Some(Scan(len, m, from)[k])
    decreases len - from
  {
    if from < len {
      match m(from)
      case Some(r) =>
        var rest := Scan(len, m, r.end);
        ScanMatch(len, m, r.end);
        forall k | 0 <= k < |[r] + rest| ensures ([r] + rest)[k].start <= len && m(([r] + rest)[k].start) == Some(([r] + rest)[k]) {
          if k > 0 { assert ([r] + rest)[k] == rest[k - 1]; }
        }
      case None =>
        ScanMatch(len, m, from + 1);
    }
  }

  /** Nothing is skipped: every position where a match could start lies in
      a match that was found (matches do not overlap, so a position inside
      one is not a start of its own). */
  lemma {:induction false} FindRefsCovers(s: string, from: nat, p: nat)
    requires from <= p < |s|
    requires RefAt(s, p).Some?
    ensures Covered(FindRefs(s, from), p)
  {
    MatchesMatcher(s);
    assert Matches(s)(p).Some?;
    ScanCovers(|s|, Matches(s), from, p);
  }

  lemma {:induction false} ScanCovers(len: nat, m: nat -> Option<Ref>, from: nat, p: nat)
    requires from <= p < len && Matcher(len, m)
    requires m(p).Some?
    ensures Covered(Scan(len, m, from), p)
    decreases len - from
  {
    match m(from)
    case Some(r) =>
      var rest := Scan(len, m, r.end);
      if p < r.end {
        assert ([r] + rest)[0] == r;
      } else {
        ScanCovers(len, m, r.end, p);
        var k :| 0 <= k < |rest| && rest[k].start <= p < rest[k].end;
        assert ([r] + rest)[k + 1] == rest[k];
      }
    case None =>
      ScanCovers(len, m, from + 1, p);
  }

  /** Position `p` lies inside one of `refs`. */
  ghost predicate Covered(refs: seq<Ref>, p: int) {
    exists k :: 0 <= k < |refs| && refs[k].start <= p < refs[k].end
  }

  /** Positions where nothing matches are passed over. */
  lemma {:induction false} ScanSkip(len: nat, m: nat -> Option<Ref>, from: nat, to: nat)
    requires from <= to <= len && Matcher(len, m)
    requires forall p :: from <= p < to ==> m(p).None?
    ensures Scan(len, m, from) == Scan(len, m, to)
    decreases (to as int) - (from as int)
  {
    if from < to {
      ScanSkip(len, m, from + 1, to);
    }
  }

  /** No match starts where there is no `R`. */
  lemma {:induction false} NoMatchWithoutR(s: string, p: nat)
    requires p <= |s| && (p == |s| || s[p] != 'R')
    ensures Matches(s)(p).None?
  {
  }

  /** Positions without an `R` are skipped by the search. */
  lemma {:induction false} FindRefsSkip(s: string, from: nat, to: nat)
    requires from <= to <= |s|
    requires forall p :: from <= p < to ==> s[p] != 'R'
    ensures FindRefs(s, from) == FindRefs(s, to)
  {
    MatchesMatcher(s);
    forall p | from <= p < to ensures Matches(s)(p).None? {
      NoMatchWithoutR(s, p);
    }
    ScanSkip(|s|, Matches(s), from, to);
  }

  /** No `"` is ever introduced by an address. */
  lemma {:induction false} NoQuoteInAddress(r: Ref, row: int, col: int)
    requires '"' !in r.row.digits
    requires Address(r, row, col).Some?
    ensures '"' !in Address(r, row, col).value
  {
    var n := ColumnNumber(r.col, col);
    NoQuoteInInt(row);
    if r.row.open { NoQuoteInInt(row + PartValue(r.row)); }
    NoQuoteInPart(r.row);
    assert '"' !in ColumnName(n - 1);
  }

  lemma {:induction false} NoQuoteInInt(i: int)
    ensures '"' !in IntToString(i)
  {
    var d := NatToString(if i < 0 then -i else i);
    assert '"' !in d;
  }

  lemma {:induction false} NoQuoteInPart(p: Part)
    requires '"' !in p.digits
    ensures '"' !in PartText(p)
  {
  }

  lemma {:induction false} NoQuoteInSplice(s: string, refs: seq<Ref>, row: int, col: int, from: nat)
    requires Ordered(refs, from, |s|)
    requires forall k :: 0 <= k < |refs| ==> '"' !in refs[k].row.digits
    requires '"' !in s
    requires Splice(s, refs, row, col, from).Some?
    ensures '"' !in Splice(s, refs, row, col, from).value
    decreases |refs|
  {
    if refs == [] {
      assert '"' !in s[from..];
    } else {
      NoQuoteInAddress(refs[0], row, col);
      NoQuoteInSplice(s, refs[1..], row, col, refs[0].end);
      assert '"' !in s[from..refs[0].start];
    }
  }

  /** An `of:` segment keeps no `.` and no `]`, and gains no `"`. */
  lemma {:induction false} OfSegmentShape(v: string)
    ensures '.' !in OfSegment(v) && ']' !in OfSegment(v)
    ensures '"' !in v ==> '"' !in OfSegment(v)
  {
    var a := ReplaceAll(v, "[.", "");
    var b := ReplaceAll(a, ".", "");
    ReplaceRemoves(a, '.');
    ReplaceKeepsAbsent(b, "]", "", '.');
    ReplaceRemoves(b, ']');
    if '"' !in v {
      ReplaceKeepsAbsent(v, "[.", "", '"');
      ReplaceKeepsAbsent(a, ".", "", '"');
      ReplaceKeepsAbsent(b, "]", "", '"');
    }
  }

  /** A segment without `[`, `.` or `]` comes through `of:` unchanged. */
  lemma {:induction false} OfSegmentPlain(v: string)
    requires '[' !in v && '.' !in v && ']' !in v
    ensures OfSegment(v) == v
  {
    ReplaceAbsent(v, "[.", "");
    ReplaceAbsent(v, ".", "");
    ReplaceAbsent(v, "]", "");
  }

  lemma {:induction false} FindRefsNone(s: string, from: nat)
    requires from <= |s|
    requires 'R' !in s
    ensures FindRefs(s, from) == []
  {
    FindRefsSkip(s, from, |s|);
  }

  /** A segment without `R` holds no reference and is kept as it is. */
  lemma {:induction false} SegmentWithoutReference(s: string, row: int, col: int)
    requires 'R' !in s
    ensures TranslateSegment(s, row, col) == Some(s)
  {
    FindRefsNone(s, 0);
    assert s[0..] == s;
  }

  lemma {:induction false} RewriteOfShape(segs: seq<string>)
    ensures |RewriteOf(segs)| == |segs|
    ensures forall k :: 0 <= k < |segs| ==>
      RewriteOf(segs)[k] == if k % 2 == 0 then OfSegment(segs[k]) else segs[k]
  {
    if segs != [] {
      var n := |segs| - 1;
      RewriteOfShape(segs[..n]);
    }
  }

  lemma {:induction false} RewriteEvenLast(segs: seq<string>, f: string -> Option<string>)
    requires segs != [] && RewriteEven(segs, f).Some?
    ensures var n := |segs| - 1;
      && RewriteEven(segs[..n], f).Some?
      && (n % 2 == 0 ==> f(segs[n]).Some?)
      && RewriteEven(segs, f).value == RewriteEven(segs[..n], f).value +
           [if n % 2 == 1 then segs[n] else f(segs[n]).value]
  {
  }

  lemma {:induction false} RewriteEvenShape(segs: seq<string>, f: string -> Option<string>)
    requires RewriteEven(segs, f).Some?
    ensures |RewriteEven(segs, f).value| == |segs|
    ensures forall k :: 0 <= k < |segs| && k % 2 == 1 ==> RewriteEven(segs, f).value[k] == segs[k]
    ensures forall k :: 0 <= k < |segs| && k % 2 == 0 ==>
      f(segs[k]) == Some(RewriteEven(segs, f).value[k])
  {
    if segs != [] {
      var n := |segs| - 1;
      var init := segs[..n];
      RewriteEvenLast(segs, f);
      RewriteEvenShape(init, f);
      var prev := RewriteEven(init, f).value;
      var out := RewriteEven(segs, f).value;
      forall k | 0 <= k < |segs| && k % 2 == 1 ensures out[k] == segs[k] {
        if k < n { assert out[k] == prev[k] && segs[k] == init[k]; }
      }
      forall k | 0 <= k < |segs| && k % 2 == 0 ensures f(segs[k]) == Some(out[k]) {
        if k < n { assert out[k] == prev[k] && segs[k] == init[k]; }
      }
    }
  }

  /** Both dialects: joining the rewritten segments and splitting again
      gives them back, the quoted (odd) segments are byte-identical, the
      unquoted (even) ones are the dialect's rewrite, and the number of
      `"` is unchanged. */
  lemma {:induction false} QuotedSegmentsKept(f: string, row: int, col: int)
    requires Translate(f, row, col).Some?
    ensures var t := Translate(f, row, col).value;
      var segs := Split(Body(f), '"');
      && |Split(t, '"')| == |segs|
      && (forall k :: 0 <= k < |segs| && k % 2 == 1 ==> Split(t, '"')[k] == segs[k])
      && (forall k :: 0 <= k < |segs| && k % 2 == 0 ==>
            if IsOfFormula(f) then Split(t, '"')[k] == OfSegment(segs[k])
            else TranslateSegment(segs[k], row, col) == Some(Split(t, '"')[k]))
      && Count(t, '"') == Count(Body(f), '"')
  {
    var segs := Split(Body(f), '"');
    var out: seq<string>;
    if IsOfFormula(f) {
      out := RewriteOf(segs);
      RewriteOfShape(segs);
      forall k | 0 <= k < |out| ensures '"' !in out[k] {
        OfSegmentShape(segs[k]);
      }
    } else {
      out := RewriteR1C1(segs, row, col).value;
      RewriteEvenShape(segs, SegmentRewrite(row, col));
      forall k | 0 <= k < |out| ensures '"' !in out[k] {
        if k % 2 == 0 {
          FindRefsNoQuote(segs[k], 0);
          NoQuoteInSplice(segs[k], FindRefs(segs[k], 0), row, col, 0);
        }
      }
    }
    assert Translate(f, row, col).value == Join(out, '"');
    SplitJoin(out, '"');
    JoinCount(out, '"');
    JoinSplit(Body(f), '"');
    JoinCount(segs, '"');
  }

  /** The digits of a match are text of the segment. */
  lemma {:induction false} FindRefsNoQuote(s: string, from: nat)
    requires from <= |s|
    requires '"' !in s
    ensures forall k :: 0 <= k < |FindRefs(s, from)| ==> '"' !in FindRefs(s, from)[k].row.digits
  {
    var refs := FindRefs(s, from);
    FindRefsMatch(s, from);
    forall k | 0 <= k < |refs| ensures '"' !in refs[k].row.digits {
      assert FoundAt(s, refs[k]);
      RowDigitsInText(s, refs[k].start);
    }
  }

  lemma {:induction false} RowDigitsInText(s: string, i: nat)
    requires i <= |s| && RefAt(s, i).Some?
    requires '"' !in s
    ensures '"' !in RefAt(s, i).value.row.digits
  {
    var p := ParsePart(s, i + 1);
    assert p == RefAt(s, i).value.row;
    var j := if p.open then i + 2 else i + 1;
    var k := if p.minus then j + 1 else j;
    var m := k + DigitRun(s, k);
    assert p.digits == s[k..m];
    SliceNotIn(s, k, m, '"');
  }

  lemma {:induction false} SliceNotIn(s: string, a: nat, b: nat, c: char)
    requires a <= b <= |s| && c !in s
    ensures c !in s[a..b]
  {
    forall x | 0 <= x < b - a ensures s[a..b][x] != c {
      assert s[a..b][x] == s[a + x];
    }
  }

}
