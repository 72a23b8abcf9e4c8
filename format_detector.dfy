/** `canRead`: decides from the first 2048 bytes of a file whether it is an
    XML Spreadsheet 2003 document, and finds the `encoding` declared in its
    prolog. */
module FormatDetector {

  import opened Wrappers
  import opened Strings

  /** Only this many bytes are read (`fread($fileHandle, 2048)`). */
  const SampleSize: nat := 2048

  const XmlProlog: string := "<?xml version=\"1.0\""
  const ApplicationInstruction: string := "<?mso-application progid=\"Excel.Sheet\"?>"

  /** Every entry must occur in the sample, in any order. */
  const Signature: seq<string> := [XmlProlog, ApplicationInstruction]

  /** The bytes `fread` returns: at most the first 2048. */
  function Sample(file: string): (r: string)
    ensures |r| <= SampleSize && |r| <= |file| && r == file[..|r|]
    ensures |file| >= SampleSize ==> |r| == SampleSize
    ensures |file| < SampleSize ==> r == file
  {
    if |file| <= SampleSize then file else file[..SampleSize]
  }

  /** `strtr($data, "'", '"')`: every single quote becomes a double quote. */
  function Normalise(s: string): (r: string)
    ensures |r| == |s|
    ensures forall i :: 0 <= i < |s| ==> r[i] == (if s[i] == '\'' then '"' else s[i])
    ensures '\'' !in r
  {
    if s == [] then [] else [if s[0] == '\'' then '"' else s[0]] + Normalise(s[1..])
  }

  /** The signature loop: every entry is looked for with `strpos`, and the
      first missing one stops the search. */
  method HasSignature(data: string) returns (valid: bool)
    ensures valid <==> forall k :: 0 <= k < |Signature| ==> Contains(data, Signature[k])
  {
    valid := true;
    var k := 0;
    while k < |Signature|
      invariant 0 <= k <= |Signature|
      invariant valid
      invariant forall m :: 0 <= m < k ==> Contains(data, Signature[m])
    {
      var pos := Find(data, Signature[k], 0);
      if pos.None? {
        valid := false;
        assert !Contains(data, Signature[k]);
        return;
      }
      assert OccursAt(data, Signature[k], pos.value as int);
      assert Contains(data, Signature[k]);
      k := k + 1;
    }
  }

  // ---------------------------------------------------------------------
  // The charset pattern `/<?xml.*encoding=['"](.*?)['"].*?>/um`, applied to
  // the normalised sample (so both quote classes are `"`). `<?` only makes
  // the `<` optional, so a match starts at an occurrence of `xml`; `.`
  // does not match a line feed, so the whole match lies on one line.
  // ---------------------------------------------------------------------

  const EncodingKey: string := "encoding=\""

  /** No line feed in `d[a..b]`. */
  ghost predicate NoLineFeed(d: string, a: int, b: int)
    requires 0 <= a && b <= |d|
  {
    forall i :: a <= i < b ==> d[i] != '\n'
  }

  /** One way the pattern can match: `xml` at `p`, the `encoding="` chosen
      by `.*` at `e`, the closing quote of the capture at `j`, then a `>`
      later on the same line. */
  ghost predicate Instance(d: string, p: int, e: int, j: int) {
    && 0 <= p
    && OccursAt(d, "xml", p)
    && p + 3 <= e
    && OccursAt(d, EncodingKey, e)
    && e + |EncodingKey| <= j < |d|
    && d[j] == '"'
    && NoLineFeed(d, p, j + 1)
    && exists g :: j < g < |d| && d[g] == '>' && NoLineFeed(d, j + 1, g)
  }

  /** The match PCRE reports: the leftmost start, then the longest `.*`,
      then the shortest lazy capture. */
  ghost predicate Chosen(d: string, p: int, e: int, j: int) {
    && Instance(d, p, e, j)
    && (forall p', e', j' :: Instance(d, p', e', j') ==> p <= p')
    && (forall e', j' :: Instance(d, p, e', j') ==> e' <= e)
    && (forall j' :: Instance(d, p, e, j') ==> j <= j')
  }

  /** Index of the line feed that ends the line holding `q`, or `|d|`. */
  function LineEnd(d: string, q: nat): (r: nat)
    requires q <= |d|
    ensures q <= r <= |d|
    ensures r < |d| ==> d[r] == '\n'
    ensures forall i :: q <= i < r ==> d[i] != '\n'
    decreases |d| - q
  {
    if q == |d| || d[q] == '\n' then q else LineEnd(d, q + 1)
  }

  function HasGreater(d: string, from: nat, end: nat): (b: bool)
    requires from <= end <= |d|
    ensures b <==> exists g :: from <= g < end && d[g] == '>'
    decreases end - from
  {
    if from == end then false else d[from] == '>' || HasGreater(d, from + 1, end)
  }

  function FirstQuote(d: string, from: nat, end: nat): (r: Option<nat>)
    requires from <= end <= |d|
    ensures r.Some? ==> from <= r.value < end && d[r.value] == '"'
    ensures r.Some? ==> forall i :: from <= i < r.value ==> d[i] != '"'
    ensures r.None? ==> forall i :: from <= i < end ==> d[i] != '"'
    decreases end - from
  {
    if from == end then None else if d[from] == '"' then Some(from) else FirstQuote(d, from + 1, end)
  }

  /** The lazy capture `(.*?)['"].*?>` starting at `from` on a line ending
      at `end`: the first quote, provided a `>` follows it on the line. */
  function CaptureEnd(d: string, from: nat, end: nat): (r: Option<nat>)
    requires from <= end <= |d|
    ensures r.Some? ==> from <= r.value < end
  {
    match FirstQuote(d, from, end)
    case None => None
    case Some(j) => if HasGreater(d, j + 1, end) then Some(j) else None
  }

  /** The rightmost position in `[q, hi]` that satisfies `ok`. */
  function Rightmost(q: nat, hi: nat, ok: nat -> bool): (r: Option<nat>)
    requires q <= hi
    ensures r.Some? ==> q <= r.value <= hi && ok(r.value)
    decreases hi
  {
    if ok(hi) then Some(hi) else if hi == q then None else Rightmost(q, hi - 1, ok)
  }

  /** Nothing to the right of what `Rightmost` finds satisfies `ok`. */
  lemma {:induction false} RightmostSpec(q: nat, hi: nat, ok: nat -> bool)
    requires q <= hi
    ensures Rightmost(q, hi, ok).Some? ==> forall e :: Rightmost(q, hi, ok).value < e <= hi ==> !ok(e)
    ensures Rightmost(q, hi, ok).None? ==> forall e :: q <= e <= hi ==> !ok(e)
    decreases hi
  {
    if !ok(hi) && hi > q {
      RightmostSpec(q, hi - 1, ok);
    }
  }

  /** An `encoding="` at `e` whose capture succeeds on the line ending at
      `end`. */
  function KeyCaptures(d: string, end: nat): nat -> bool {
    (e: nat) => e + |EncodingKey| <= end <= |d| && OccursAt(d, EncodingKey, e)
      && CaptureEnd(d, e + |EncodingKey|, end).Some?
  }

  /** The greedy `.*`: the rightmost `encoding="` in `[q, hi]` whose
      capture succeeds, with the closing quote of that capture. */
  function Greedy(d: string, q: nat, end: nat, hi: nat): (r: Option<(nat, nat)>)
    requires q <= hi && hi + |EncodingKey| <= end <= |d|
  {
    match Rightmost(q, hi, KeyCaptures(d, end))
    case None => None
    case Some(e) => Some((e, CaptureEnd(d, e + |EncodingKey|, end).value))
  }

  /** The rest of the match once `xml` is found at `p`. */
  function MatchAfter(d: string, p: nat): (r: Option<(nat, nat)>)
    requires p + 3 <= |d|
  {
    var end := LineEnd(d, p + 3);
    if p + 3 + |EncodingKey| > end then None else Greedy(d, p + 3, end, end - |EncodingKey|)
  }

  /** Leftmost match at or after `from`: positions of `xml`, of
      `encoding="` and of the closing quote. */
  function MatchFrom(d: string, from: nat): (r: Option<(nat, nat, nat)>)
    requires from <= |d|
    decreases |d| - from
  {
    if from + 3 > |d| then None
    else if OccursAt(d, "xml", from) && MatchAfter(d, from).Some? then
      Some((from, MatchAfter(d, from).value.0, MatchAfter(d, from).value.1))
    else MatchFrom(d, from + 1)
  }

  /** The captured `encoding` value, if the pattern matches the bytes. */
  function EncodingCapture(d: string): Option<string> {
    match MatchFrom(d, 0)
    case None => None
    case Some((p, e, j)) => if e + |EncodingKey| <= j <= |d| then Some(d[e + |EncodingKey|..j]) else None
  }

  /** `preg_match` with the `u` flag: a subject that is not valid UTF-8 is
      refused outright (the call returns false, so nothing is captured).
      On valid UTF-8 the pattern's `.` steps over whole characters, but no
      byte of a multi-byte character is a line feed, a quote or `>`, so
      the match found byte by byte is the one found character by
      character. */
  function EncodingDeclaration(d: string): Option<string> {
    if ValidUtf8(d) then EncodingCapture(d) else None
  }

  // ---------------------------------------------------------------------
  // UTF-8 validity (section 4 of RFC 3629), which the `u` flag checks
  // ---------------------------------------------------------------------

  /** The byte at `k` lies in `lo..hi`. */
  predicate ByteIn(d: string, k: nat, lo: int, hi: int) {
    k < |d| && lo <= d[k] as int <= hi
  }

  /** A continuation byte, `%x80-BF`. */
  predicate IsTail(c: char) {
    0x80 <= c as int <= 0xBF
  }

  /** The length of the UTF-8 character that starts at `i`, or 0 when the
      bytes there form none: overlong forms, surrogates and code points
      beyond U+10FFFF are refused, as the RFC's `UTF8-char` rule does.
      A character above `\xFF` is not a byte at all. */
  function CharLength(d: string, i: nat): (n: nat)
    requires i < |d|
    ensures i + n <= |d|
  {
    var b := d[i] as int;
    if b < 0x80 then 1
    else if 0xC2 <= b <= 0xDF then
      (if ByteIn(d, i + 1, 0x80, 0xBF) then 2 else 0)
    else if 0xE0 <= b <= 0xEF then
      var lo := if b == 0xE0 then 0xA0 else 0x80;
      var hi := if b == 0xED then 0x9F else 0xBF;
      (if ByteIn(d, i + 1, lo, hi) && ByteIn(d, i + 2, 0x80, 0xBF) then 3 else 0)
    else if 0xF0 <= b <= 0xF4 then
      var lo := if b == 0xF0 then 0x90 else 0x80;
      var hi := if b == 0xF4 then 0x8F else 0xBF;
      (if ByteIn(d, i + 1, lo, hi) && ByteIn(d, i + 2, 0x80, 0xBF) && ByteIn(d, i + 3, 0x80, 0xBF) then 4 else 0)
    else 0
  }

  /** The bytes from `i` on split into whole UTF-8 characters. */
  predicate ValidFrom(d: string, i: nat)
    requires i <= |d|
    decreases |d| - i
  {
    i == |d| || (CharLength(d, i) > 0 && ValidFrom(d, i + CharLength(d, i)))
  }

  predicate ValidUtf8(d: string) {
    ValidFrom(d, 0)
  }

  /** Every byte after the first of a character is a continuation byte,
      and the first is not. */
  lemma CharBytes(d: string, i: nat)
    requires i < |d| && CharLength(d, i) > 0
    ensures !IsTail(d[i])
    ensures forall k :: i < k < i + CharLength(d, i) ==> IsTail(d[k])
  {
  }

  /** Plain ASCII is valid UTF-8. */
  lemma {:induction false} AsciiValid(d: string, i: nat)
    requires i <= |d|
    requires forall k :: i <= k < |d| ==> d[k] as int < 0x80
    ensures ValidFrom(d, i)
    decreases |d| - i
  {
    if i < |d| {
      AsciiValid(d, i + 1);
    }
  }

  /** A byte that is not a continuation byte and starts no character
      makes the whole subject invalid: every split into characters from
      an earlier position has to start a character there. */
  lemma {:induction false} BadStartInvalid(d: string, i: nat, j: nat)
    requires j <= i < |d|
    requires !IsTail(d[i]) && CharLength(d, i) == 0
    ensures !ValidFrom(d, j)
    decreases i - j
  {
    if j < i && CharLength(d, j) > 0 {
      CharBytes(d, j);
      BadStartInvalid(d, i, j + CharLength(d, j));
    }
  }

  /** A Latin-1 letter (`\xC0` and above) followed by an ASCII byte is not
      UTF-8. */
  lemma Latin1Invalid(d: string, i: nat)
    requires i + 1 < |d|
    requires 0xC0 <= d[i] as int <= 0xFF && d[i + 1] as int < 0x80
    ensures !ValidUtf8(d)
  {
    BadStartInvalid(d, i, 0);
  }

  /** A subject whose last byte opens a multi-byte character, as when the
      2048-byte cut falls inside one, is not UTF-8. */
  lemma TruncatedInvalid(d: string)
    requires |d| > 0 && 0xC2 <= d[|d| - 1] as int <= 0xF4
    ensures !ValidUtf8(d)
  {
    BadStartInvalid(d, |d| - 1, 0);
  }

  /** With `xml` at `p`, an instance is exactly a key inside the line whose
      capture succeeds. */
  lemma {:induction false} InstanceOnLine(d: string, p: nat, e: int, j: int)
    requires OccursAt(d, "xml", p)
    ensures var end := LineEnd(d, p + 3);
      Instance(d, p, e, j) <==>
        (p + 3 <= e && OccursAt(d, EncodingKey, e) && e + |EncodingKey| <= j < end && d[j] == '"' && HasGreater(d, j + 1, end))
  {
    var end := LineEnd(d, p + 3);
    assert d[p] == 'x' && d[p + 1] == 'm' && d[p + 2] == 'l' by {
      assert d[p..p + 3] == "xml";
      assert d[p..p + 3][0] == d[p] && d[p..p + 3][1] == d[p + 1] && d[p..p + 3][2] == d[p + 2];
    }
    if Instance(d, p, e, j) {
      assert j < end;
      var g :| j < g < |d| && d[g] == '>' && NoLineFeed(d, j + 1, g);
      assert g < end;
    }
    if p + 3 <= e && OccursAt(d, EncodingKey, e) && e + |EncodingKey| <= j < end && d[j] == '"' && HasGreater(d, j + 1, end) {
      assert NoLineFeed(d, p, j + 1);
      var g :| j + 1 <= g < end && d[g] == '>';
      assert NoLineFeed(d, j + 1, g);
    }
  }

  /** With `xml` at `p`, the capture found for a key is the least closing
      quote of any instance with that key. */
  lemma {:induction false} CaptureIsLeast(d: string, p: nat, e: int)
    requires OccursAt(d, "xml", p) && p + 3 <= e && OccursAt(d, EncodingKey, e)
    ensures var end := LineEnd(d, p + 3);
      e + |EncodingKey| <= end ==>
      match CaptureEnd(d, e + |EncodingKey|, end)
      case None => forall j :: !Instance(d, p, e, j)
      case Some(j) => Instance(d, p, e, j) && forall j' :: Instance(d, p, e, j') ==> j <= j'
  {
    var end := LineEnd(d, p + 3);
    if e + |EncodingKey| <= end {
      var from := e + |EncodingKey|;
      InstanceOnLine(d, p, e, 0);
      forall j' | true ensures Instance(d, p, e, j') <==>
        (from <= j' < end && d[j'] == '"' && HasGreater(d, j' + 1, end)) {
        InstanceOnLine(d, p, e, j');
      }
      match FirstQuote(d, from, end)
      case None =>
      case Some(j) =>
        forall j' | from <= j' < end && d[j'] == '"' && HasGreater(d, j' + 1, end)
          ensures j <= j' && HasGreater(d, j + 1, end)
        {
          var g :| j' + 1 <= g < end && d[g] == '>';
          assert j + 1 <= g;
        }
    }
  }

  /** With `xml` at `p`, `MatchAfter` finds an instance exactly when one
      exists, and then the one with the rightmost key and least quote. */
  lemma {:induction false} MatchAfterSpec(d: string, p: nat)
    requires OccursAt(d, "xml", p)
    ensures MatchAfter(d, p).None? ==> NoneAt(d, p)
    ensures MatchAfter(d, p).Some? ==> BestAt(d, p, MatchAfter(d, p).value.0, MatchAfter(d, p).value.1)
  {
    var end := LineEnd(d, p + 3);
    InstancesOnLine(d, p);
    if p + 3 + |EncodingKey| <= end {
      GreedyBest(d, p, end, end - |EncodingKey|, MatchAfter(d, p));
    }
  }

  /** Every instance with `xml` at `p` has its key on the line, with a
      capture. */
  lemma {:induction false} InstancesOnLine(d: string, p: nat)
    requires OccursAt(d, "xml", p)
    ensures var end := LineEnd(d, p + 3);
      forall e, j :: Instance(d, p, e, j) ==>
        p + 3 <= e && p + 3 + |EncodingKey| <= end && e <= end - |EncodingKey| && KeyCaptures(d, end)(e)
  {
    var end := LineEnd(d, p + 3);
    forall e, j | Instance(d, p, e, j)
      ensures p + 3 <= e && p + 3 + |EncodingKey| <= end && e <= end - |EncodingKey|
      ensures KeyCaptures(d, end)(e)
    {
      InstanceOnLine(d, p, e, j);
      CaptureIsLeast(d, p, e);
    }
  }

  /** The greedy key search over the line yields the best instance. */
  lemma {:induction false} GreedyBest(d: string, p: nat, end: nat, hi: nat, r: Option<(nat, nat)>)
    requires OccursAt(d, "xml", p) && end == LineEnd(d, p + 3)
    requires p + 3 <= hi && hi + |EncodingKey| == end
    requires r == Greedy(d, p + 3, end, hi)
    requires forall e, j :: Instance(d, p, e, j) ==> p + 3 <= e <= hi && KeyCaptures(d, end)(e)
    ensures r.None? ==> NoneAt(d, p)
    ensures r.Some? ==> BestAt(d, p, r.value.0, r.value.1)
  {
    var ok := KeyCaptures(d, end);
    RightmostSpec(p + 3, hi, ok);
    match Rightmost(p + 3, hi, ok)
    case None =>
      GreedyNone(d, p, hi, ok);
    case Some(e) =>
      assert ok(e);
      var j := CaptureEnd(d, e + |EncodingKey|, end).value;
      assert r == Some((e, j));
      GreedyLeft(d, p, e, hi, ok);
      GreedySome(d, p, end, e, j);
  }

  lemma {:induction false} GreedyNone(d: string, p: nat, hi: nat, ok: nat -> bool)
    requires forall e, j :: Instance(d, p, e, j) ==> p + 3 <= e <= hi && ok(e)
    requires forall e :: p + 3 <= e <= hi ==> !ok(e)
    ensures NoneAt(d, p)
  {
  }

  lemma {:induction false} GreedyLeft(d: string, p: nat, e: nat, hi: nat, ok: nat -> bool)
    requires forall e', j' :: Instance(d, p, e', j') ==> e' <= hi && ok(e')
    requires forall e' :: e < e' <= hi ==> !ok(e')
    ensures forall e', j' :: Instance(d, p, e', j') ==> e' <= e
  {
  }

  lemma {:induction false} GreedySome(d: string, p: nat, end: nat, e: nat, j: nat)
    requires OccursAt(d, "xml", p) && end == LineEnd(d, p + 3)
    requires p + 3 <= e && OccursAt(d, EncodingKey, e) && e + |EncodingKey| <= end
    requires CaptureEnd(d, e + |EncodingKey|, end) == Some(j)
    requires forall e', j' :: Instance(d, p, e', j') ==> e' <= e
    ensures BestAt(d, p, e, j)
  {
    CaptureIsLeast(d, p, e);
  }

  /** No match of the pattern has its `xml` at `p`. */
  ghost predicate NoneAt(d: string, p: int) {
    forall e, j :: !Instance(d, p, e, j)
  }

  /** The match at `p` uses the rightmost key and the least quote. */
  ghost predicate BestAt(d: string, p: int, e: int, j: int) {
    && Instance(d, p, e, j)
    && (forall e', j' :: Instance(d, p, e', j') ==> e' <= e)
    && (forall j' :: Instance(d, p, e, j') ==> j <= j')
  }

  lemma NoneWithoutXml(d: string, p: int)
    requires !OccursAt(d, "xml", p)
    ensures NoneAt(d, p)
  {
  }

  /** `r` is the leftmost match at or after `from`, or none exists. */
  ghost predicate LeftmostFrom(d: string, from: nat, r: Option<(nat, nat, nat)>) {
    match r
    case None => forall p :: from <= p ==> NoneAt(d, p)
    case Some((p0, e, j)) => from <= p0 && BestAt(d, p0, e, j) && forall p :: from <= p < p0 ==> NoneAt(d, p)
  }

  /** `MatchFrom` is the leftmost instance at or after `from`. */
  lemma {:induction false} MatchFromSpec(d: string, from: nat)
    requires from <= |d|
    ensures LeftmostFrom(d, from, MatchFrom(d, from))
    decreases |d| - from
  {
    if from + 3 > |d| {
      forall p | from <= p ensures NoneAt(d, p) {
        NoneWithoutXml(d, p);
      }
    } else if OccursAt(d, "xml", from) && MatchAfter(d, from).Some? {
      MatchAfterSpec(d, from);
    } else {
      if OccursAt(d, "xml", from) {
        MatchAfterSpec(d, from);
      } else {
        NoneWithoutXml(d, from);
      }
      assert MatchFrom(d, from) == MatchFrom(d, from + 1);
      MatchFromSpec(d, from + 1);
      LeftmostStep(d, from, MatchFrom(d, from + 1));
    }
  }

  /** A position with no match does not change the leftmost match. */
  lemma {:induction false} LeftmostStep(d: string, from: nat, r: Option<(nat, nat, nat)>)
    requires NoneAt(d, from)
    requires LeftmostFrom(d, from + 1, r)
    ensures LeftmostFrom(d, from, r)
  {
    match r
    case None =>
      forall p | from <= p ensures NoneAt(d, p) {
        if p > from { assert from + 1 <= p; }
      }
    case Some((p0, e, j)) =>
      forall p | from <= p < p0 ensures NoneAt(d, p) {
        if p > from { assert from + 1 <= p; }
      }
  }

  /** The charset pattern matches iff some instance exists; the captured
      value is that of the match PCRE chooses, and it holds no quote and no
      line feed. */
  lemma EncodingCaptureSpec(d: string)
    ensures EncodingCapture(d).None? <==> forall p, e, j :: !Instance(d, p, e, j)
    ensures EncodingCapture(d).Some? ==>
      exists p, e, j :: Chosen(d, p, e, j) && EncodingCapture(d).value == d[e + |EncodingKey|..j]
    ensures EncodingCapture(d).Some? ==>
      '"' !in EncodingCapture(d).value && '\n' !in EncodingCapture(d).value
  {
    MatchFromSpec(d, 0);
    if MatchFrom(d, 0).None? {
      forall p, e, j ensures !Instance(d, p, e, j) {
        if p >= 0 {
          assert NoneAt(d, p);
        }
      }
    }
    if MatchFrom(d, 0).Some? {
      var (p, e, j) := MatchFrom(d, 0).value;
      assert BestAt(d, p, e, j);
      forall p', e', j' | 0 <= p' < p ensures !Instance(d, p', e', j') {
        assert NoneAt(d, p');
      }
      assert Chosen(d, p, e, j);
      var v := d[e + |EncodingKey|..j];
      forall k | e + |EncodingKey| <= k < j ensures d[k] != '"' && d[k] != '\n' {
        assert !Instance(d, p, e, k);
      }
      assert forall k :: 0 <= k < |v| ==> v[k] == d[e + |EncodingKey| + k];
    }
  }

  /** `preg_match` reports a capture exactly when the subject is valid
      UTF-8 and the pattern matches; the capture is that of the match PCRE
      chooses and holds no quote and no line feed. */
  lemma EncodingDeclarationSpec(d: string)
    ensures EncodingDeclaration(d).None? <==> !ValidUtf8(d) || forall p, e, j :: !Instance(d, p, e, j)
    ensures EncodingDeclaration(d).Some? ==> ValidUtf8(d)
    ensures EncodingDeclaration(d).Some? ==>
      exists p, e, j :: Chosen(d, p, e, j) && EncodingDeclaration(d).value == d[e + |EncodingKey|..j]
    ensures EncodingDeclaration(d).Some? ==>
      '"' !in EncodingDeclaration(d).value && '\n' !in EncodingDeclaration(d).value
  {
    EncodingCaptureSpec(d);
  }
}
