/** Custom document properties: each child of `CustomDocumentProperties`
    is handed to the document's property store with its name decoded
    (`_xHHHH_` escapes, through `hex2str`) and its text converted
    according to its `dt:dt` type. The property store itself is not part
    of this model; what is modelled is the triple the reader hands to it. */
module CustomProperties {

  import opened Wrappers
  import opened Strings
  import opened Tree

  // ---------------------------------------------------------------------
  // Name decoding: preg_replace_callback('/_x([0-9a-z]{4})_/', hex2str)
  // ---------------------------------------------------------------------

  /** The character class `[0-9a-z]` of the escape pattern. */
  predicate InClass(c: char) {
    '0' <= c <= '9' || 'a' <= c <= 'z'
  }

  /** What `hexdec` makes of one character; anything that is not a
      hexadecimal digit is skipped. */
  function HexDigit(c: char): Option<nat> {
    if '0' <= c <= '9' then Some(c as int - '0' as int)
    else if 'a' <= c <= 'f' then Some(c as int - 'a' as int + 10)
    else if 'A' <= c <= 'F' then Some(c as int - 'A' as int + 10)
    else None
  }

  /** `hexdec`: the hexadecimal digits of `s`, in order, read as a number
      (the other characters are ignored). */
  function HexDec(s: string): nat {
    if s == [] then 0
    else
      match HexDigit(s[|s| - 1])
      case Some(d) => HexDec(s[..|s| - 1]) * 16 + d
      case None => HexDec(s[..|s| - 1])
  }

  /** `hex2str`: `chr` of the captured digits; `chr` keeps the low byte. */
  function Hex2Str(hex: string): char {
    (HexDec(hex) % 256) as char
  }

  /** The escape pattern matches at `i`. */
  predicate EscapeAt(s: string, i: nat) {
    && i + 7 <= |s|
    && s[i] == '_' && s[i + 1] == 'x'
    && InClass(s[i + 2]) && InClass(s[i + 3]) && InClass(s[i + 4]) && InClass(s[i + 5])
    && s[i + 6] == '_'
  }

  /** The name as the reader passes it on: the text is scanned from the
      left; where the pattern matches, the seven characters become one,
      and the scan goes on after them. */
  function DecodeName(s: string): string
    decreases |s|
  {
    if |s| < 7 then s
    else if EscapeAt(s, 0) then [Hex2Str(s[2..6])] + DecodeName(s[7..])
    else [s[0]] + DecodeName(s[1..])
  }

  /** An escape that `DecodeName` reads back: lower-case hexadecimal. */
  function HexChar(d: nat): char
    requires d < 16
  {
    if d < 10 then ('0' as int + d) as char else ('a' as int + d - 10) as char
  }

  function Hex4(v: nat): string
    requires v < 0x1_0000
  {
    var q1 := v / 16;
    var q2 := q1 / 16;
    [HexChar(q2 / 16), HexChar(q2 % 16), HexChar(q1 % 16), HexChar(v % 16)]
  }

  function Escape(c: char): string
    requires c as int < 0x1_0000
  {
    "_x" + Hex4(c as int) + "_"
  }

  /** Every character written as an escape. */
  function EncodeName(s: string): string
    requires forall k :: 0 <= k < |s| ==> s[k] as int < 0x1_0000
  {
    if s == [] then [] else Escape(s[0]) + EncodeName(s[1..])
  }

  lemma {:induction false} HexCharDigit(d: nat)
    requires d < 16
    ensures InClass(HexChar(d)) && HexDigit(HexChar(d)) == Some(d)
  {
  }

  /** The four digits of `Hex4(v)` read back as `v`. */
  lemma {:induction false} HexDecHex4(v: nat)
    requires v < 0x1_0000
    ensures HexDec(Hex4(v)) == v
  {
    var q1 := v / 16;
    var q2 := q1 / 16;
    var a, b, c, d := HexChar(q2 / 16), HexChar(q2 % 16), HexChar(q1 % 16), HexChar(v % 16);
    HexCharDigit(q2 / 16);
    HexCharDigit(q2 % 16);
    HexCharDigit(q1 % 16);
    HexCharDigit(v % 16);
    HexDecSnoc([], a, q2 / 16);
    assert [] + [a] == [a];
    HexDecSnoc([a], b, q2 % 16);
    assert [a] + [b] == [a, b];
    HexDecSnoc([a, b], c, q1 % 16);
    assert [a, b] + [c] == [a, b, c];
    HexDecSnoc([a, b, c], d, v % 16);
    assert [a, b, c] + [d] == Hex4(v);
  }

  /** One more hexadecimal digit at the end of the text. */
  lemma HexDecSnoc(s: string, c: char, d: nat)
    requires HexDigit(c) == Some(d)
    ensures HexDec(s + [c]) == HexDec(s) * 16 + d
  {
    assert (s + [c])[..|s|] == s;
  }

  /** An escape of code `v` decodes to the character of `v`'s low byte:
      codes above 255 lose their high byte. */
  lemma {:induction false} DecodeEscape(v: nat, rest: string)
    requires v < 0x1_0000
    ensures DecodeName("_x" + Hex4(v) + "_" + rest) == [(v % 256) as char] + DecodeName(rest)
  {
    var s := "_x" + Hex4(v) + "_" + rest;
    HexCharDigit(v / 16 / 16 / 16);
    HexCharDigit(v / 16 / 16 % 16);
    HexCharDigit(v / 16 % 16);
    HexCharDigit(v % 16);
    assert s[2..6] == Hex4(v);
    assert s[7..] == rest;
    assert EscapeAt(s, 0);
    HexDecHex4(v);
  }

  /** Decoding undoes encoding for names made of single-byte characters. */
  lemma {:induction false} DecodeEncode(s: string)
    requires forall k :: 0 <= k < |s| ==> s[k] as int < 256
    ensures DecodeName(EncodeName(s)) == s
  {
    if s != [] {
      var c, tail := s[0], s[1..];
      DecodeEncode(tail);
      var t := EncodeName(tail);
      assert EncodeName(s) == Escape(c) + t;
      DecodeEscapeChar(c, t);
      assert [c] + tail == s;
    }
  }

  /** `DecodeEscape` for the escape of one single-byte character. */
  lemma {:induction false} DecodeEscapeChar(c: char, rest: string)
    requires c as int < 256
    ensures DecodeName(Escape(c) + rest) == [c] + DecodeName(rest)
  {
    var h := Hex4(c as int);
    DecodeEscape(c as int, rest);
    assert Escape(c) + rest == "_x" + h + "_" + rest;
    assert (c as int % 256) as char == c;
  }

  /** Each escape shortens the name by six characters; nothing else
      changes its length. */
  lemma {:induction false} DecodeShorter(s: string)
    ensures |DecodeName(s)| <= |s|
    ensures (exists i: nat :: EscapeAt(s, i)) ==> |DecodeName(s)| < |s|
    decreases |s|
  {
    if |s| >= 7 {
      if EscapeAt(s, 0) {
        DecodeShorter(s[7..]);
      } else {
        DecodeShorter(s[1..]);
        if exists i: nat :: EscapeAt(s, i) {
          var i: nat :| EscapeAt(s, i);
          assert i >= 1;
          assert EscapeAt(s[1..], i - 1);
        }
      }
    } else {
      assert forall i: nat :: !EscapeAt(s, i);
    }
  }

  /** A name is passed on unchanged exactly when the pattern matches
      nowhere in it. */
  lemma {:induction false} DecodeUnchanged(s: string)
    ensures DecodeName(s) == s <==> forall i: nat :: !EscapeAt(s, i)
    decreases |s|
  {
    DecodeShorter(s);
    if |s| >= 7 && forall i: nat :: !EscapeAt(s, i) {
      assert forall i: nat :: !EscapeAt(s[1..], i) by {
        forall i: nat ensures !EscapeAt(s[1..], i) {
          assert !EscapeAt(s, i + 1);
        }
      }
      DecodeUnchanged(s[1..]);
      assert [s[0]] + s[1..] == s;
    }
  }

  /** A prefix without `_` is passed over as it is. */
  lemma {:induction false} DecodePlainPrefix(p: string, t: string)
    requires '_' !in p
    ensures DecodeName(p + t) == p + DecodeName(t)
  {
    if p != [] {
      assert '_' !in p[1..] by {
        forall k | 0 <= k < |p| - 1 ensures p[1..][k] != '_' { assert p[1..][k] == p[k + 1]; }
      }
      DecodePlainPrefix(p[1..], t);
      var s := p + t;
      assert s[1..] == p[1..] + t;
      DecodePlain(s);
      assert [p[0]] + p[1..] == p;
    } else {
      assert p + t == t;
    }
  }

  /** A name that does not start with `_` keeps its first character. */
  lemma DecodePlain(s: string)
    requires s != [] && s[0] != '_'
    ensures DecodeName(s) == [s[0]] + DecodeName(s[1..])
  {
  }

  /** `Project_x0020_Name` is `Project Name`. */
  lemma ExampleSpace()
    ensures DecodeName("Project_x0020_Name") == "Project Name"
  {
    var e := Escape(' ');
    EscapeOfSpace();
    assert "Project_x0020_Name" == "Project" + (e + "Name");
    DecodePlainPrefix("Project", e + "Name");
    DecodeEscapeChar(' ', "Name");
    assert "Project" + ([' '] + "Name") == "Project Name";
  }

  lemma EscapeOfSpace()
    ensures Escape(' ') == "_x0020_"
  {
    assert Hex4(0x20) == "0020";
  }

  /** The pattern only knows lower-case digits: `_x00E9_` stays as it is. */
  lemma ExampleUpperCase()
    ensures DecodeName("_x00E9_") == "_x00E9_"
  {
    var s := "_x00E9_";
    forall i: nat ensures !EscapeAt(s, i) {
      if i == 0 { assert !InClass(s[4]); }
    }
    DecodeUnchanged(s);
  }

  // ---------------------------------------------------------------------
  // Text conversions
  // ---------------------------------------------------------------------

  /** The characters `trim` removes by default. */
  predicate IsTrimmed(c: char) {
    c == ' ' || c == '\t' || c == '\n' || c == '\r' || c == '\0' || c == '\U{000B}'
  }

  function TrimLeft(s: string): string
    decreases |s|
  {
    if s != [] && IsTrimmed(s[0]) then TrimLeft(s[1..]) else s
  }

  function TrimRight(s: string): string
    decreases |s|
  {
    if s != [] && IsTrimmed(s[|s| - 1]) then TrimRight(s[..|s| - 1]) else s
  }

  /** `trim`. */
  function Trim(s: string): string {
    TrimRight(TrimLeft(s))
  }

  predicate AllTrimmed(s: string) {
    forall k :: 0 <= k < |s| ==> IsTrimmed(s[k])
  }

  /** `TrimLeft` drops exactly a run of trimmed characters from the front. */
  lemma {:induction false} TrimLeftSpec(s: string)
    ensures |TrimLeft(s)| <= |s|
    ensures TrimLeft(s) == s[|s| - |TrimLeft(s)|..]
    ensures AllTrimmed(s[..|s| - |TrimLeft(s)|])
    ensures TrimLeft(s) != [] ==> !IsTrimmed(TrimLeft(s)[0])
    decreases |s|
  {
    if s != [] && IsTrimmed(s[0]) {
      TrimLeftSpec(s[1..]);
      var n := |s| - |TrimLeft(s)|;
      assert s[1..][n - 1..] == s[n..];
      assert forall k :: 1 <= k < n ==> s[k] == s[1..][..n - 1][k - 1];
    }
  }

  /** `TrimRight` drops exactly a run of trimmed characters from the back. */
  lemma {:induction false} TrimRightSpec(s: string)
    ensures |TrimRight(s)| <= |s|
    ensures TrimRight(s) == s[..|TrimRight(s)|]
    ensures AllTrimmed(s[|TrimRight(s)|..])
    ensures TrimRight(s) != [] ==> !IsTrimmed(TrimRight(s)[|TrimRight(s)| - 1])
    decreases |s|
  {
    if s != [] && IsTrimmed(s[|s| - 1]) {
      TrimRightSpec(s[..|s| - 1]);
      var n := |TrimRight(s)|;
      assert s[..|s| - 1][..n] == s[..n];
      assert forall k :: n <= k < |s| - 1 ==> s[k] == s[..|s| - 1][n..][k - n];
    }
  }

  /** `trim` keeps a middle slice of the text, cut where the trimmed
      characters end: nothing but those is removed, and the result neither
      starts nor ends with one. */
  lemma {:induction false} TrimSpec(s: string)
    ensures exists i, j :: 0 <= i <= j <= |s| && Trim(s) == s[i..j] && AllTrimmed(s[..i]) && AllTrimmed(s[j..])
    ensures Trim(s) != [] ==> !IsTrimmed(Trim(s)[0]) && !IsTrimmed(Trim(s)[|Trim(s)| - 1])
  {
    var l := TrimLeft(s);
    TrimLeftSpec(s);
    TrimRightSpec(l);
    var i := |s| - |l|;
    var j := i + |TrimRight(l)|;
    assert s[i..j] == l[..|TrimRight(l)|];
    assert s[j..] == l[|TrimRight(l)|..];
    if Trim(s) != [] {
      assert Trim(s)[0] == l[0];
    }
  }

  /** Trimming twice is trimming once. */
  lemma {:induction false} TrimIdempotent(s: string)
    ensures Trim(Trim(s)) == Trim(s)
  {
    TrimSpec(s);
    var t := Trim(s);
    if t != [] {
      assert TrimLeft(t) == t;
      TrimRightSpec(t);
      assert TrimRight(t) == t;
    }
  }

  /** The whitespace PHP skips before a number. */
  predicate IsLeadingSpace(c: char) {
    c == ' ' || c == '\t' || c == '\n' || c == '\r' || c == '\U{000B}' || c == '\U{000C}'
  }

  function SkipSpace(s: string): string
    decreases |s|
  {
    if s != [] && IsLeadingSpace(s[0]) then SkipSpace(s[1..]) else s
  }

  /** The longest prefix of decimal digits. */
  function LeadingDigits(s: string): (r: string)
    ensures |r| <= |s|
    decreases |s|
  {
    if s != [] && IsDigit(s[0]) then [s[0]] + LeadingDigits(s[1..]) else []
  }

  const IntMax: int := 0x7fff_ffff_ffff_ffff
  const IntMin: int := -0x8000_0000_0000_0000

  /** The 64-bit range, where out-of-range values saturate. */
  function Clamp(i: int): (r: int)
    ensures IntMin <= r <= IntMax
    ensures IntMin <= i <= IntMax ==> r == i
  {
    if i > IntMax then IntMax else if i < IntMin then IntMin else i
  }

  /** A numeral as PHP reads it at the head of a text: an optional sign,
      digits, an optional `.` with digits (one digit at least in all), and
      an optional exponent. */
  datatype Numeral = Numeral(negative: bool, whole: string, fraction: string, exponent: int)

  /** The text after an optional `+` or `-`. */
  function Unsigned(t: string): (r: string)
    ensures |r| <= |t|
  {
    if t != [] && (t[0] == '-' || t[0] == '+') then t[1..] else t
  }

  /** `e` or `E`, an optional sign and one digit at least; anything else
      is no exponent. */
  function ExponentOf(w: string): int {
    if w == [] || (w[0] != 'e' && w[0] != 'E') then 0
    else
      var digits := LeadingDigits(Unsigned(w[1..]));
      if digits == [] then 0
      else if w[1] == '-' then 0 - DigitsValue(digits)
      else DigitsValue(digits)
  }

  /** The numeral `is_numeric_string` finds at the head of `t` (text after
      it is allowed), or none when `t` does not start with one. */
  function ReadNumeral(t: string): Option<Numeral> {
    var u := Unsigned(t);
    var whole := LeadingDigits(u);
    var v := u[|whole|..];
    var dot := v != [] && v[0] == '.';
    var fraction := if dot then LeadingDigits(v[1..]) else [];
    if whole == [] && fraction == [] then None
    else Some(Numeral(t != [] && t[0] == '-', whole, fraction, ExponentOf(if dot then v[1 + |fraction|..] else v)))
  }

  function Pow10(n: nat): (r: nat)
    ensures r >= 1
  {
    if n == 0 then 1 else 10 * Pow10(n - 1)
  }

  /** A numeral's magnitude is exactly `Numerator(n) / Denominator(n)`:
      `whole.fraction` times ten to the exponent. */
  function Numerator(n: Numeral): nat {
    (DigitsValue(n.whole) * Pow10(|n.fraction|) + DigitsValue(n.fraction)) * (if n.exponent >= 0 then Pow10(n.exponent) else 1)
  }

  function Denominator(n: Numeral): (r: nat)
    ensures r >= 1
  {
    Pow10(|n.fraction|) * (if n.exponent < 0 then Pow10(0 - n.exponent) else 1)
  }

  /** The least magnitude that a double rounds to infinity: (2^54 - 1) 2^970,
      halfway between the largest double, (2^53 - 1) 2^971, and 2^1024. */
  const DoubleOverflow: nat := 0xffff_ffff_ffff_fc00_0000_0000_0000_0000_0000_0000_0000_0000_0000_0000_0000_0000_0000_0000_0000_0000_0000_0000_0000_0000_0000_0000_0000_0000_0000_0000_0000_0000_0000_0000_0000_0000_0000_0000_0000_0000_0000_0000_0000_0000_0000_0000_0000_0000_0000_0000_0000_0000_0000_0000_0000_0000_0000_0000_0000_0000_0000_0000_0000_0000

  /** `intval` of a text, and the cast of an element to `int`, from PHP 7.1
      on: the numeral after leading whitespace, converted as
      `zend_dval_to_lval_cap` converts its double (toward zero, saturated
      at the 64-bit bounds, 0 when the double is infinite); a text that
      does not start with a numeral is 0. The limit being an integer, the
      magnitude reaches it exactly when its integer part does. */
  function IntVal(s: string): (r: int)
    ensures IntMin <= r <= IntMax
  {
    match ReadNumeral(SkipSpace(s))
    case None => 0
    case Some(n) =>
      var whole := Numerator(n) / Denominator(n);
      if whole >= DoubleOverflow then 0
      else if n.negative then Clamp(0 - whole)
      else Clamp(whole)
  }

  lemma {:induction false} LeadingDigitsAll(s: string)
    requires forall k :: 0 <= k < |s| ==> IsDigit(s[k])
    ensures LeadingDigits(s) == s
  {
    if s != [] {
      LeadingDigitsAll(s[1..]);
      assert [s[0]] + s[1..] == s;
    }
  }

  lemma {:induction false} LeadingDigitsAppend(a: string, b: string)
    requires forall k :: 0 <= k < |a| ==> IsDigit(a[k])
    requires b != [] ==> !IsDigit(b[0])
    ensures LeadingDigits(a + b) == a
  {
    if a == [] {
      assert a + b == b;
    } else {
      assert (a + b)[1..] == a[1..] + b;
      LeadingDigitsAppend(a[1..], b);
      assert [a[0]] + a[1..] == a;
    }
  }

  /** Digits followed by text that neither continues them nor starts a
      fraction or an exponent read as a whole number. */
  lemma {:induction false} ReadWhole(d: string, rest: string)
    requires d != [] && forall k :: 0 <= k < |d| ==> IsDigit(d[k])
    requires rest != [] ==> !IsDigit(rest[0]) && rest[0] != '.' && rest[0] != 'e' && rest[0] != 'E'
    ensures ReadNumeral(d + rest) == Some(Numeral(false, d, [], 0))
  {
    var s := d + rest;
    assert s[0] == d[0];
    assert Unsigned(s) == s;
    LeadingDigitsAppend(d, rest);
    assert s[|d|..] == rest;
  }

  lemma {:induction false} ReadNegative(d: string)
    requires d != [] && forall k :: 0 <= k < |d| ==> IsDigit(d[k])
    ensures ReadNumeral("-" + d) == Some(Numeral(true, d, [], 0))
  {
    var s := "-" + d;
    assert Unsigned(s) == d;
    LeadingDigitsAll(d);
    assert d[|d|..] == [];
  }

  lemma {:induction false} ReadFraction(d: string, f: string, rest: string)
    requires d != [] && forall k :: 0 <= k < |d| ==> IsDigit(d[k])
    requires forall k :: 0 <= k < |f| ==> IsDigit(f[k])
    requires rest != [] ==> !IsDigit(rest[0]) && rest[0] != 'e' && rest[0] != 'E'
    ensures ReadNumeral(d + "." + f + rest) == Some(Numeral(false, d, f, 0))
  {
    var t := "." + f + rest;
    var s := d + "." + f + rest;
    assert s == d + t;
    assert s[0] == d[0];
    assert Unsigned(s) == s;
    LeadingDigitsAppend(d, t);
    assert s[|d|..] == t;
    assert t[1..] == f + rest;
    LeadingDigitsAppend(f, rest);
    assert t[1 + |f|..] == rest;
  }

  lemma {:induction false} ReadExponent(d: string, e: string, rest: string)
    requires d != [] && forall k :: 0 <= k < |d| ==> IsDigit(d[k])
    requires e != [] && forall k :: 0 <= k < |e| ==> IsDigit(e[k])
    requires rest != [] ==> !IsDigit(rest[0])
    ensures ReadNumeral(d + "e" + e + rest) == Some(Numeral(false, d, [], DigitsValue(e)))
  {
    var w := "e" + e + rest;
    var s := d + "e" + e + rest;
    assert s == d + w;
    assert s[0] == d[0];
    assert Unsigned(s) == s;
    LeadingDigitsAppend(d, w);
    assert s[|d|..] == w;
    assert w[1..] == e + rest;
    assert (e + rest)[0] == e[0];
    assert Unsigned(e + rest) == e + rest;
    LeadingDigitsAppend(e, rest);
    assert w[1] == e[0];
  }

  /** Reading back a 64-bit integer that PHP printed gives that integer. */
  lemma {:induction false} IntValOfInt(i: int)
    requires IntMin <= i <= IntMax
    ensures IntVal(IntToString(i)) == i
  {
    if i < 0 {
      IntValOfNegative(-i);
    } else {
      IntValOfNat(i);
    }
  }

  lemma {:induction false} IntValOfNat(n: nat)
    requires n <= IntMax
    ensures IntVal(NatToString(n)) == n
  {
    IntValPrefix(n, []);
    assert NatToString(n) + [] == NatToString(n);
  }

  /** A numeral without fraction or exponent is worth its digits. */
  lemma WholeValue(negative: bool, d: string)
    ensures Numerator(Numeral(negative, d, [], 0)) == DigitsValue(d)
    ensures Denominator(Numeral(negative, d, [], 0)) == 1
  {
    assert Pow10(0) == 1;
  }

  lemma {:induction false} IntValOfNegative(n: nat)
    requires 0 < n <= -IntMin
    ensures IntVal("-" + NatToString(n)) == 0 - n
  {
    var d := NatToString(n);
    assert SkipSpace("-" + d) == "-" + d;
    ReadNegative(d);
    DigitsOfNat(n);
    WholeValue(true, d);
  }

  /** Digits followed by text that neither continues the number nor
      starts a fraction or an exponent count up to the first non-digit. */
  lemma {:induction false} IntValPrefix(n: nat, rest: string)
    requires n <= IntMax
    requires rest != [] ==> !IsDigit(rest[0]) && rest[0] != '.' && rest[0] != 'e' && rest[0] != 'E'
    ensures IntVal(NatToString(n) + rest) == n
  {
    var d := NatToString(n);
    var s := d + rest;
    assert s[0] == d[0];
    assert SkipSpace(s) == s;
    ReadWhole(d, rest);
    DigitsOfNat(n);
    WholeValue(false, d);
  }

  /** The value of digits written after a point is below one. */
  lemma {:induction false} FractionBelowOne(f: string)
    requires forall k :: 0 <= k < |f| ==> IsDigit(f[k])
    ensures DigitsValue(f) < Pow10(|f|)
    decreases |f|
  {
    if f != [] {
      FractionBelowOne(f[..|f| - 1]);
    }
  }

  lemma MulLe(a: nat, b: nat, c: nat)
    requires a <= b
    ensures a * c <= b * c
  {
    assert b * c == a * c + (b - a) * c;
  }

  /** The integer part of `n.f`, for digits `f`, is `n`. */
  lemma FloorOfFraction(n: nat, f: nat, scale: nat)
    requires 1 <= scale && f < scale
    ensures (n * scale + f) / scale == n
  {
    var a := n * scale + f;
    var q := a / scale;
    var r := a % scale;
    assert a == q * scale + r;
    assert (n + 1) * scale == n * scale + scale;
    assert (q + 1) * scale == q * scale + scale;
    if q < n {
      MulLe(q + 1, n, scale);
    } else if q > n {
      MulLe(n + 1, q, scale);
    }
  }

  /** A fraction is cut off: `intval("n.f")` is `n`. */
  lemma {:induction false} IntValFraction(n: nat, f: string, rest: string)
    requires n <= IntMax
    requires forall k :: 0 <= k < |f| ==> IsDigit(f[k])
    requires rest != [] ==> !IsDigit(rest[0]) && rest[0] != 'e' && rest[0] != 'E'
    ensures IntVal(NatToString(n) + "." + f + rest) == n
  {
    var d := NatToString(n);
    var s := d + "." + f + rest;
    assert s[0] == d[0];
    assert SkipSpace(s) == s;
    ReadFraction(d, f, rest);
    DigitsOfNat(n);
    FractionBelowOne(f);
    var scale := Pow10(|f|);
    var num := Numeral(false, d, f, 0);
    assert Pow10(0) == 1;
    assert Numerator(num) == n * scale + DigitsValue(f);
    assert Denominator(num) == scale;
    FloorOfFraction(n, DigitsValue(f), scale);
  }

  /** An exponent is read: `intval("nek")` is `n` times `10^k`, saturated,
      and 0 once the double overflows. */
  lemma {:induction false} IntValExponent(n: nat, k: nat, rest: string)
    requires rest != [] ==> !IsDigit(rest[0])
    ensures IntVal(NatToString(n) + "e" + NatToString(k) + rest) ==
      if n * Pow10(k) >= DoubleOverflow then 0 else Clamp(n * Pow10(k))
  {
    var d := NatToString(n);
    var s := d + "e" + NatToString(k) + rest;
    assert s[0] == d[0];
    assert SkipSpace(s) == s;
    ReadExponent(d, NatToString(k), rest);
    DigitsOfNat(n);
    DigitsOfNat(k);
    var num := Numeral(false, d, [], k);
    assert Pow10(0) == 1;
    assert Numerator(num) == n * Pow10(k);
    assert Denominator(num) == 1;
  }

  lemma ExampleExponent()
    ensures IntVal("1e3") == 1000
  {
    assert NatToString(1) == "1";
    assert NatToString(3) == "3";
    IntValExponent(1, 3, []);
    assert "1" + "e" + "3" + [] == "1e3";
  }

  /** `$text != 0` in PHP 7, where the text is read as a number: true
      exactly when the numeral at the head of the text, after leading
      whitespace, is worth something other than zero; a text that starts
      with no numeral counts as 0. An infinite double is not zero. */
  predicate NumericNonZero(s: string) {
    match ReadNumeral(SkipSpace(s))
    case None => false
    case Some(n) => Numerator(n) != 0
  }

  lemma ProductNonZero(a: nat, b: nat)
    requires b >= 1
    ensures a * b != 0 <==> a != 0
  {
    if a != 0 {
      MulLe(1, a, b);
    }
  }

  /** A numeral is worth zero exactly when its whole and fraction digits
      are; the sign and the exponent play no part. */
  lemma NumeratorNonZero(n: Numeral)
    ensures Numerator(n) != 0 <==> DigitsValue(n.whole) != 0 || DigitsValue(n.fraction) != 0
  {
    var w, f, p := DigitsValue(n.whole), DigitsValue(n.fraction), Pow10(|n.fraction|);
    var e := if n.exponent >= 0 then Pow10(n.exponent) else 1;
    assert Numerator(n) == (w * p + f) * e;
    ProductNonZero(w, p);
    ProductNonZero(w * p + f, e);
  }

  /** The comparison with 0 asks for a digit other than `0` in the whole
      or fraction part of the numeral at the head of the text. */
  lemma NumericNonZeroSpec(s: string)
    ensures NumericNonZero(s) <==>
      ReadNumeral(SkipSpace(s)).Some? &&
      (DigitsValue(ReadNumeral(SkipSpace(s)).value.whole) != 0 || DigitsValue(ReadNumeral(SkipSpace(s)).value.fraction) != 0)
  {
    if ReadNumeral(SkipSpace(s)).Some? {
      NumeratorNonZero(ReadNumeral(SkipSpace(s)).value);
    }
  }

  /** A text that `intval` reads as non-zero also compares unequal to 0;
      the converse fails for `0.5`. */
  lemma IntValNonZero(s: string)
    ensures IntVal(s) != 0 ==> NumericNonZero(s)
  {
    match ReadNumeral(SkipSpace(s))
    case None =>
    case Some(n) =>
      if Numerator(n) == 0 {
        assert Numerator(n) / Denominator(n) == 0;
      }
  }

  /** `"n.f"` compares unequal to 0 unless both parts are zero. */
  lemma {:induction false} NonZeroFraction(n: nat, f: string, rest: string)
    requires forall k :: 0 <= k < |f| ==> IsDigit(f[k])
    requires rest != [] ==> !IsDigit(rest[0]) && rest[0] != 'e' && rest[0] != 'E'
    ensures NumericNonZero(NatToString(n) + "." + f + rest) <==> n != 0 || DigitsValue(f) != 0
  {
    var d := NatToString(n);
    var s := d + "." + f + rest;
    assert s[0] == d[0];
    assert SkipSpace(s) == s;
    ReadFraction(d, f, rest);
    DigitsOfNat(n);
    NumericNonZeroSpec(s);
  }

  /** `"nek"` compares unequal to 0 exactly when `n` is not zero, also
      when the double overflows to infinity. */
  lemma {:induction false} NonZeroExponent(n: nat, k: nat, rest: string)
    requires rest != [] ==> !IsDigit(rest[0])
    ensures NumericNonZero(NatToString(n) + "e" + NatToString(k) + rest) <==> n != 0
  {
    var d := NatToString(n);
    var s := d + "e" + NatToString(k) + rest;
    assert s[0] == d[0];
    assert SkipSpace(s) == s;
    ReadExponent(d, NatToString(k), rest);
    DigitsOfNat(n);
    NumericNonZeroSpec(s);
  }

  /** A negative integer compares unequal to 0 unless it is `-0`. */
  lemma {:induction false} NonZeroNegative(n: nat)
    ensures NumericNonZero("-" + NatToString(n)) <==> n != 0
  {
    var d := NatToString(n);
    assert SkipSpace("-" + d) == "-" + d;
    ReadNegative(d);
    DigitsOfNat(n);
    NumericNonZeroSpec("-" + d);
  }

  lemma ExampleNonZero()
    ensures NumericNonZero("1e3") && NumericNonZero("0.5")
    ensures !NumericNonZero("0") && !NumericNonZero("abc")
  {
    assert NatToString(0) == "0";
    assert NatToString(1) == "1";
    assert NatToString(3) == "3";
    NonZeroExponent(1, 3, []);
    assert "1" + "e" + "3" + [] == "1e3";
    NonZeroFraction(0, "5", []);
    assert "0" + "." + "5" + [] == "0.5";
    ReadWhole("0", []);
    assert "0" + [] == "0";
    NumericNonZeroSpec("0");
    assert SkipSpace("abc") == "abc";
  }

  // ---------------------------------------------------------------------
  // Type tagging
  // ---------------------------------------------------------------------

  /** The `Properties::PROPERTY_TYPE_*` tag handed to the store. */
  datatype PropertyType = TypeUnknown | TypeString | TypeBoolean | TypeInteger | TypeFloat | TypeDate

  /** The value handed to the store. `Unconverted` is the element's text:
      for an unknown type it is what the reader passes; for `float` and
      `dateTime.tz` it is the text the reader gives `floatval` or
      `strtotime`, whose results are not modelled. */
  datatype PropertyValue = TextValue(text: string) | BoolValue(b: bool) | IntValue(i: int) | Unconverted(raw: string)

  datatype CustomProperty = CustomProperty(name: string, value: PropertyValue, propertyType: PropertyType)

  /** `(string) $propertyAttributes`: the `dt:dt` value, or `""`. */
  function TypeOf(dt: Option<string>): PropertyType {
    match dt.GetOr("")
    case "string" => TypeString
    case "boolean" => TypeBoolean
    case "integer" => TypeInteger
    case "float" => TypeFloat
    case "dateTime.tz" => TypeDate
    case _ => TypeUnknown
  }

  /** The value for a tag. A `boolean` property is `(bool)` of the XML
      element, which is `false` exactly for an element with nothing in it:
      with only a `dt:` attribute, an element is `true` when it has text. */
  function ConvertValue(t: PropertyType, text: string): PropertyValue {
    match t
    case TypeString => TextValue(Trim(text))
    case TypeBoolean => BoolValue(text != "")
    case TypeInteger => IntValue(IntVal(text))
    case TypeFloat => Unconverted(text)
    case TypeDate => Unconverted(Trim(text))
    case TypeUnknown => Unconverted(text)
  }

  /** What the reader hands to `setCustomProperty` for one element. */
  function ConvertProperty(node: CustomPropertyNode): (p: CustomProperty)
    ensures p.propertyType == TypeOf(node.dtType)
    ensures p.name == DecodeName(node.name)
  {
    var t := TypeOf(node.dtType);
    CustomProperty(DecodeName(node.name), ConvertValue(t, node.text), t)
  }

  /** The tag follows the declared type, and an undeclared or unknown
      type is passed on untagged with its text untouched. */
  lemma TypeTagging(node: CustomPropertyNode)
    ensures node.dtType == Some("string") ==>
      ConvertProperty(node).propertyType == TypeString && ConvertProperty(node).value == TextValue(Trim(node.text))
    ensures node.dtType == Some("boolean") ==>
      ConvertProperty(node).propertyType == TypeBoolean && ConvertProperty(node).value == BoolValue(node.text != "")
    ensures node.dtType == Some("integer") ==>
      ConvertProperty(node).propertyType == TypeInteger && ConvertProperty(node).value == IntValue(IntVal(node.text))
    ensures node.dtType == Some("float") ==>
      ConvertProperty(node).propertyType == TypeFloat && ConvertProperty(node).value == Unconverted(node.text)
    ensures node.dtType == Some("dateTime.tz") ==>
      ConvertProperty(node).propertyType == TypeDate && ConvertProperty(node).value == Unconverted(Trim(node.text))
    ensures ConvertProperty(node).propertyType == TypeUnknown <==>
      node.dtType.None? || node.dtType.value !in ["string", "boolean", "integer", "float", "dateTime.tz"]
    ensures ConvertProperty(node).propertyType == TypeUnknown ==> ConvertProperty(node).value == Unconverted(node.text)
  {
  }

  /** `<Rev dt:dt="integer"> 42 </Rev>` is the integer 42 under `Rev`. */
  lemma ExampleInteger()
    ensures ConvertProperty(CustomPropertyNode("Rev", Some("integer"), " 42 ")) ==
      CustomProperty("Rev", IntValue(42), TypeInteger)
  {
    assert DecodeName("Rev") == "Rev";
    assert SkipSpace(" 42 ") == "42 " by { assert " 42 "[1..] == "42 "; }
    assert "42 " == "42" + " ";
    ReadWhole("42", " ");
    assert DigitsValue("42") == 42 by { assert "42"[..1] == "4"; }
    WholeValue(false, "42");
  }

  /** An empty `<Flag dt:dt="boolean"/>` is `false`; with any text, even
      `0`, it is `true`. */
  lemma ExampleBoolean()
    ensures ConvertProperty(CustomPropertyNode("Flag", Some("boolean"), "")).value == BoolValue(false)
    ensures ConvertProperty(CustomPropertyNode("Flag", Some("boolean"), "0")).value == BoolValue(true)
  {
  }

  /** The loop over the children of `CustomDocumentProperties`: one call
      of `setCustomProperty` per element, in document order. */
  method LoadCustomProperties(nodes: seq<CustomPropertyNode>) returns (calls: seq<CustomProperty>)
    ensures |calls| == |nodes|
    ensures forall k :: 0 <= k < |nodes| ==> calls[k] == ConvertProperty(nodes[k])
  {
    calls := [];
    var k := 0;
    while k < |nodes|
      invariant 0 <= k <= |nodes|
      invariant |calls| == k
      invariant forall j :: 0 <= j < k ==> calls[j] == ConvertProperty(nodes[j])
    {
      var node := nodes[k];
      var name := DecodeName(node.name);
      var propertyType := TypeUnknown;
      var value := Unconverted(node.text);
      match node.dtType.GetOr("") {
        case "string" =>
          propertyType := TypeString;
          value := TextValue(Trim(node.text));
        case "boolean" =>
          propertyType := TypeBoolean;
          value := BoolValue(node.text != "");
        case "integer" =>
          propertyType := TypeInteger;
          value := IntValue(IntVal(node.text));
        case "float" =>
          propertyType := TypeFloat;
        case "dateTime.tz" =>
          propertyType := TypeDate;
          value := Unconverted(Trim(node.text));
        case _ =>
      }
      calls := calls + [CustomProperty(name, value, propertyType)];
      k := k + 1;
    }
  }
}
