/** The style table: one record per `Style` element, seeded from the
    `Default` entry as it stands when the element is reached, then
    overwritten category by category. The constants are those of the
    library's style classes (`Alignment`, `Font`, `Border`), which are not
    part of this model. */
module Styles {

  import opened Wrappers
  import opened Strings
  import opened Tree

  const VerticalAlignments: seq<string> := ["bottom", "top", "center", "justify"]
  const HorizontalAlignments: seq<string> := ["general", "left", "right", "center", "centerContinuous", "justify"]
  const UnderlineStyles: seq<string> := ["none", "double", "doubleAccounting", "single", "singleAccounting"]
  /** `Border::BORDER_MEDIUM`, stored whatever `ss:LineStyle` says. */
  const BorderMedium: string := "medium"
  /** Date pattern that replaces the format name `Short Date`. */
  const ShortDatePattern: string := "dd/mm/yyyy"

  /** The border positions that are kept. */
  predicate IsEdge(p: string) {
    p == "left" || p == "right" || p == "top" || p == "bottom"
  }

  /** `wrap`, `bold` and `italic` are only ever set to `true`, so `false`
      stands for "not set". */
  datatype Alignment = Alignment(horizontal: Option<string>, vertical: Option<string>, wrap: bool)
  datatype Border = Border(lineStyle: Option<string>, color: Option<string>)
  datatype Font = Font(
    name: Option<string>, size: Option<string>, color: Option<string>,
    bold: bool, italic: bool, underline: Option<string>)
  datatype Style = Style(
    alignment: Alignment,
    borders: map<string, Border>,
    font: Font,
    fill: Option<string>,
    numberFormat: Option<string>)

  const NoAlignment: Alignment := Alignment(None, None, false)
  const NoBorder: Border := Border(None, None)
  const NoFont: Font := Font(None, None, None, false, false, None)
  /** The empty array `[]`: no category set. */
  const EmptyStyle: Style := Style(NoAlignment, map[], NoFont, None, None)

  /** What `identifyFixedStyleValue` finds: the first entry of `list` equal
      to `v` when both are lower-cased. */
  function FixedStyleValue(list: seq<string>, v: string): (r: Option<string>)
    ensures r.Some? ==> r.value in list && EqualIgnoringCase(r.value, v)
    ensures r.None? <==> forall k :: 0 <= k < |list| ==> !EqualIgnoringCase(list[k], v)
  {
    if list == [] then None
    else if EqualIgnoringCase(list[0], v) then Some(list[0])
    else FixedStyleValue(list[1..], v)
  }

  /** `identifyFixedStyleValue`: lower-cases the value it is given by
      reference, then looks for a case-insensitive match in the list and,
      on success, replaces the value by the list's own spelling. */
  method IdentifyFixedStyleValue(list: seq<string>, value: string) returns (found: bool, canonical: string)
    ensures found <==> exists k :: 0 <= k < |list| && EqualIgnoringCase(list[k], value)
    ensures found ==> Some(canonical) == FixedStyleValue(list, value)
    ensures !found ==> canonical == LowerStr(value)
  {
    canonical := LowerStr(value);
    var k := 0;
    while k < |list|
      invariant 0 <= k <= |list|
      invariant FixedStyleValue(list, value) == FixedStyleValue(list[k..], value)
      invariant forall m :: 0 <= m < k ==> !EqualIgnoringCase(list[m], value)
    {
      LowerStrEqual(list[k], value);
      if canonical == LowerStr(list[k]) {
        canonical := list[k];
        found := true;
        return;
      }
      assert list[k..][1..] == list[k + 1..];
      k := k + 1;
    }
    found := false;
  }

  /** `substr($v, 1)`: a colour loses its first character (`#`). */
  function DropFirst(v: string): string {
    if |v| >= 1 then v[1..] else ""
  }

  /** One `ss` attribute of an `Alignment` element. */
  function AlignmentAttr(a: Alignment, at: Attr): Alignment {
    if at.key == "Vertical" then
      match FixedStyleValue(VerticalAlignments, at.value)
      case Some(c) => a.(vertical := Some(c))
      case None => a
    else if at.key == "Horizontal" then
      match FixedStyleValue(HorizontalAlignments, at.value)
      case Some(c) => a.(horizontal := Some(c))
      case None => a
    else if at.key == "WrapText" then a.(wrap := true)
    else a
  }

  function ApplyAlignment(a: Alignment, attrs: seq<Attr>): Alignment {
    if attrs == [] then a else AlignmentAttr(ApplyAlignment(a, attrs[..|attrs| - 1]), attrs[|attrs| - 1])
  }

  /** One attribute of a `Border` element. The position lives outside the
      border record: it is a variable of the whole load, so a `Border`
      without `ss:Position` reuses the last position seen. */
  function BorderAttr(b: Border, position: Option<string>, at: Attr): (Border, Option<string>) {
    if at.key == "LineStyle" then (b.(lineStyle := Some(BorderMedium)), position)
    else if at.key == "Position" then (b, Some(LowerStr(at.value)))
    else if at.key == "Color" then (b.(color := Some(DropFirst(at.value))), position)
    else (b, position)
  }

  function ReadBorder(attrs: seq<Attr>, position: Option<string>): (Border, Option<string>) {
    if attrs == [] then (NoBorder, position)
    else
      var (b, p) := ReadBorder(attrs[..|attrs| - 1], position);
      BorderAttr(b, p, attrs[|attrs| - 1])
  }

  /** A non-empty border replaces the style's border at a kept position. */
  function PlaceBorder(st: Style, b: Border, position: Option<string>): Style {
    if b != NoBorder && position.Some? && IsEdge(position.value)
    then st.(borders := st.borders[position.value := b])
    else st
  }

  function ApplyBorders(st: Style, borders: seq<seq<Attr>>, position: Option<string>): (Style, Option<string>) {
    if borders == [] then (st, position)
    else
      var (s, p) := ApplyBorders(st, borders[..|borders| - 1], position);
      var (b, p') := ReadBorder(borders[|borders| - 1], p);
      (PlaceBorder(s, b, p'), p')
  }

  /** One `ss` attribute of a `Font` element. */
  function FontAttr(f: Font, at: Attr): Font {
    if at.key == "FontName" then f.(name := Some(at.value))
    else if at.key == "Size" then f.(size := Some(at.value))
    else if at.key == "Color" then f.(color := Some(DropFirst(at.value)))
    else if at.key == "Bold" then f.(bold := true)
    else if at.key == "Italic" then f.(italic := true)
    else if at.key == "Underline" then
      match FixedStyleValue(UnderlineStyles, at.value)
      case Some(c) => f.(underline := Some(c))
      case None => f
    else f
  }

  function ApplyFont(f: Font, attrs: seq<Attr>): Font {
    if attrs == [] then f else FontAttr(ApplyFont(f, attrs[..|attrs| - 1]), attrs[|attrs| - 1])
  }

  /** One `ss` attribute of an `Interior` element: only `Color` is read. */
  function InteriorAttr(fill: Option<string>, at: Attr): Option<string> {
    if at.key == "Color" then Some(DropFirst(at.value)) else fill
  }

  function ApplyInterior(fill: Option<string>, attrs: seq<Attr>): Option<string> {
    if attrs == [] then fill else InteriorAttr(ApplyInterior(fill, attrs[..|attrs| - 1]), attrs[|attrs| - 1])
  }

  /** A `NumberFormat` attribute's value after unescaping `\-` and `\ `
      (two `str_replace` passes) and renaming `Short Date`. */
  function FormatCode(v: string): string {
    var u := ReplaceAll(ReplaceAll(v, "\\-", "-"), "\\ ", " ");
    if u == "Short Date" then ShortDatePattern else u
  }

  /** Every `NumberFormat` attribute, whatever its name, is a format code;
      an empty code is not stored. */
  function NumberFormatAttr(code: Option<string>, at: Attr): Option<string> {
    var c := FormatCode(at.value);
    if c != "" then Some(c) else code
  }

  function ApplyNumberFormat(code: Option<string>, attrs: seq<Attr>): Option<string> {
    if attrs == [] then code else NumberFormatAttr(ApplyNumberFormat(code, attrs[..|attrs| - 1]), attrs[|attrs| - 1])
  }

  /** One child of a `Style` element. `Protection` and unknown elements
      change nothing. */
  function ApplyChild(st: Style, child: StyleChild, position: Option<string>): (Style, Option<string>) {
    match child
    case AlignmentNode(attrs) => (st.(alignment := ApplyAlignment(st.alignment, attrs)), position)
    case BordersNode(borders) => ApplyBorders(st, borders, position)
    case FontNode(attrs) => (st.(font := ApplyFont(st.font, attrs)), position)
    case InteriorNode(attrs) => (st.(fill := ApplyInterior(st.fill, attrs)), position)
    case NumberFormatNode(attrs) => (st.(numberFormat := ApplyNumberFormat(st.numberFormat, attrs)), position)
    case ProtectionNode(_) => (st, position)
    case OtherNode(_, _) => (st, position)
  }

  function ApplyChildren(st: Style, children: seq<StyleChild>, position: Option<string>): (Style, Option<string>) {
    if children == [] then (st, position)
    else
      var (s, p) := ApplyChildren(st, children[..|children| - 1], position);
      ApplyChild(s, children[|children| - 1], p)
  }

  /** `(string) $style_ss['ID']`: a missing ID is the empty key. */
  function StyleKey(node: StyleNode): string {
    node.id.GetOr("")
  }

  /** What a new entry starts from: the current `Default` entry, or `[]`. */
  function Seed(table: map<string, Style>): Style {
    if "Default" in table then table["Default"] else EmptyStyle
  }

  function AddStyle(table: map<string, Style>, node: StyleNode, position: Option<string>): (map<string, Style>, Option<string>) {
    var (entry, p) := ApplyChildren(Seed(table), node.children, position);
    (table[StyleKey(node) := entry], p)
  }

  /** The table after the `Style` elements `nodes`, starting from `table`
      (the reader's field, which a load never clears). */
  function StyleTable(table: map<string, Style>, nodes: seq<StyleNode>, position: Option<string>): (map<string, Style>, Option<string>) {
    if nodes == [] then (table, position)
    else
      var (t, p) := StyleTable(table, nodes[..|nodes| - 1], position);
      AddStyle(t, nodes[|nodes| - 1], p)
  }

  // ---------------------------------------------------------------------
  // Properties
  // ---------------------------------------------------------------------

  /** A stored alignment or underline value is always one of the fixed
      list's own spellings; a stored border sits at a kept position, is
      non-empty and, if it has a line style, it is medium. */
  ghost predicate WellFormed(st: Style) {
    && (st.alignment.vertical.Some? ==> st.alignment.vertical.value in VerticalAlignments)
    && (st.alignment.horizontal.Some? ==> st.alignment.horizontal.value in HorizontalAlignments)
    && (st.font.underline.Some? ==> st.font.underline.value in UnderlineStyles)
    && (forall e :: e in st.borders ==>
          && IsEdge(e)
          && st.borders[e] != NoBorder
          && (st.borders[e].lineStyle.Some? ==> st.borders[e].lineStyle.value == BorderMedium))
  }

  ghost predicate WellFormedTable(table: map<string, Style>) {
    forall id :: id in table ==> WellFormed(table[id])
  }

  lemma {:induction false} AlignmentCanonical(a: Alignment, attrs: seq<Attr>)
    requires a.vertical.Some? ==> a.vertical.value in VerticalAlignments
    requires a.horizontal.Some? ==> a.horizontal.value in HorizontalAlignments
    ensures var r := ApplyAlignment(a, attrs);
      && (r.vertical.Some? ==> r.vertical.value in VerticalAlignments)
      && (r.horizontal.Some? ==> r.horizontal.value in HorizontalAlignments)
  {
    if attrs != [] {
      AlignmentCanonical(a, attrs[..|attrs| - 1]);
    }
  }

  lemma {:induction false} FontCanonical(f: Font, attrs: seq<Attr>)
    requires f.underline.Some? ==> f.underline.value in UnderlineStyles
    ensures var r := ApplyFont(f, attrs); r.underline.Some? ==> r.underline.value in UnderlineStyles
  {
    if attrs != [] {
      FontCanonical(f, attrs[..|attrs| - 1]);
    }
  }

  /** A border read from its attributes has a medium line style or none. */
  lemma {:induction false} BorderMediumOnly(attrs: seq<Attr>, position: Option<string>)
    ensures var b := ReadBorder(attrs, position).0; b.lineStyle.Some? ==> b.lineStyle.value == BorderMedium
  {
    if attrs != [] {
      BorderMediumOnly(attrs[..|attrs| - 1], position);
    }
  }

  lemma {:induction false} BordersWellFormed(st: Style, borders: seq<seq<Attr>>, position: Option<string>)
    requires WellFormed(st)
    ensures WellFormed(ApplyBorders(st, borders, position).0)
    ensures ApplyBorders(st, borders, position).0.alignment == st.alignment
    ensures ApplyBorders(st, borders, position).0.font == st.font
  {
    if borders != [] {
      var (s, p) := ApplyBorders(st, borders[..|borders| - 1], position);
      BordersWellFormed(st, borders[..|borders| - 1], position);
      BorderMediumOnly(borders[|borders| - 1], p);
    }
  }

  lemma {:induction false} ChildrenWellFormed(st: Style, children: seq<StyleChild>, position: Option<string>)
    requires WellFormed(st)
    ensures WellFormed(ApplyChildren(st, children, position).0)
  {
    if children != [] {
      var (s, p) := ApplyChildren(st, children[..|children| - 1], position);
      ChildrenWellFormed(st, children[..|children| - 1], position);
      match children[|children| - 1]
      case AlignmentNode(attrs) => AlignmentCanonical(s.alignment, attrs);
      case BordersNode(borders) => BordersWellFormed(s, borders, p);
      case FontNode(attrs) => FontCanonical(s.font, attrs);
      case InteriorNode(_) =>
      case NumberFormatNode(_) =>
      case ProtectionNode(_) =>
      case OtherNode(_, _) =>
    }
  }

  /** Building styles keeps every entry of the table well formed. */
  lemma {:induction false} StyleTableWellFormed(table: map<string, Style>, nodes: seq<StyleNode>, position: Option<string>)
    requires WellFormedTable(table)
    ensures WellFormedTable(StyleTable(table, nodes, position).0)
  {
    if nodes != [] {
      var (t, p) := StyleTable(table, nodes[..|nodes| - 1], position);
      StyleTableWellFormed(table, nodes[..|nodes| - 1], position);
      assert WellFormed(Seed(t));
      ChildrenWellFormed(Seed(t), nodes[|nodes| - 1].children, p);
    }
  }

  /** Some attribute has the key `key`. */
  ghost predicate HasKey(attrs: seq<Attr>, key: string) {
    exists k :: 0 <= k < |attrs| && attrs[k].key == key
  }

  lemma {:induction false} HasKeyStep(attrs: seq<Attr>, key: string)
    requires attrs != []
    ensures HasKey(attrs, key) == (HasKey(attrs[..|attrs| - 1], key) || attrs[|attrs| - 1].key == key)
  {
    var init := attrs[..|attrs| - 1];
    if HasKey(init, key) {
      var k :| 0 <= k < |init| && init[k].key == key;
      assert attrs[k] == init[k];
    }
    if HasKey(attrs, key) {
      var k :| 0 <= k < |attrs| && attrs[k].key == key;
      if k < |init| { assert init[k] == attrs[k]; }
    }
  }

  /** `WrapText` sets the wrap flag whatever its value, and nothing clears it. */
  lemma {:induction false} WrapFlag(a: Alignment, attrs: seq<Attr>)
    ensures ApplyAlignment(a, attrs).wrap <==> a.wrap || HasKey(attrs, "WrapText")
  {
    if attrs != [] {
      WrapFlag(a, attrs[..|attrs| - 1]);
      HasKeyStep(attrs, "WrapText");
      WrapStep(ApplyAlignment(a, attrs[..|attrs| - 1]), attrs[|attrs| - 1]);
    }
  }

  lemma WrapStep(a: Alignment, at: Attr)
    ensures AlignmentAttr(a, at).wrap == (a.wrap || at.key == "WrapText")
  {
  }

  /** `Bold` and `Italic` set their flags whatever their value. */
  lemma {:induction false} FontFlags(f: Font, attrs: seq<Attr>)
    ensures ApplyFont(f, attrs).bold <==> f.bold || HasKey(attrs, "Bold")
    ensures ApplyFont(f, attrs).italic <==> f.italic || HasKey(attrs, "Italic")
  {
    if attrs != [] {
      FontFlags(f, attrs[..|attrs| - 1]);
      HasKeyStep(attrs, "Bold");
      HasKeyStep(attrs, "Italic");
      FlagStep(ApplyFont(f, attrs[..|attrs| - 1]), attrs[|attrs| - 1]);
    }
  }

  lemma FlagStep(f: Font, at: Attr)
    ensures FontAttr(f, at).bold == (f.bold || at.key == "Bold")
    ensures FontAttr(f, at).italic == (f.italic || at.key == "Italic")
  {
  }

  /** An attribute that stores a vertical alignment. */
  predicate SetsVertical(at: Attr) {
    at.key == "Vertical" && FixedStyleValue(VerticalAlignments, at.value).Some?
  }

  predicate SetsHorizontal(at: Attr) {
    at.key == "Horizontal" && FixedStyleValue(HorizontalAlignments, at.value).Some?
  }

  predicate SetsUnderline(at: Attr) {
    at.key == "Underline" && FixedStyleValue(UnderlineStyles, at.value).Some?
  }

  /** With no attribute that stores a vertical value, it is left as it was. */
  lemma {:induction false} VerticalUnset(a: Alignment, attrs: seq<Attr>)
    requires forall k :: 0 <= k < |attrs| ==> !SetsVertical(attrs[k])
    ensures ApplyAlignment(a, attrs).vertical == a.vertical
  {
    if attrs != [] {
      var init := attrs[..|attrs| - 1];
      assert forall k :: 0 <= k < |init| ==> init[k] == attrs[k];
      VerticalUnset(a, init);
      VerticalStep(ApplyAlignment(a, init), attrs[|attrs| - 1]);
    }
  }

  /** The vertical value is that of the last attribute that stores one, in
      the list's spelling. */
  lemma {:induction false} VerticalValue(a: Alignment, attrs: seq<Attr>, k: nat)
    requires k < |attrs| && SetsVertical(attrs[k])
    requires forall m :: k < m < |attrs| ==> !SetsVertical(attrs[m])
    ensures ApplyAlignment(a, attrs).vertical == FixedStyleValue(VerticalAlignments, attrs[k].value)
  {
    var init := attrs[..|attrs| - 1];
    VerticalStep(ApplyAlignment(a, init), attrs[|attrs| - 1]);
    if k < |init| {
      assert forall m :: k < m < |init| ==> init[m] == attrs[m];
      VerticalValue(a, init, k);
    }
  }

  lemma VerticalStep(a: Alignment, at: Attr)
    ensures !SetsVertical(at) ==> AlignmentAttr(a, at).vertical == a.vertical
    ensures SetsVertical(at) ==> AlignmentAttr(a, at).vertical == FixedStyleValue(VerticalAlignments, at.value)
  {
  }

  /** With no attribute that stores a horizontal value, it is left as it was. */
  lemma {:induction false} HorizontalUnset(a: Alignment, attrs: seq<Attr>)
    requires forall k :: 0 <= k < |attrs| ==> !SetsHorizontal(attrs[k])
    ensures ApplyAlignment(a, attrs).horizontal == a.horizontal
  {
    if attrs != [] {
      var init := attrs[..|attrs| - 1];
      assert forall k :: 0 <= k < |init| ==> init[k] == attrs[k];
      HorizontalUnset(a, init);
      HorizontalStep(ApplyAlignment(a, init), attrs[|attrs| - 1]);
    }
  }

  /** The horizontal value is that of the last attribute that stores one,
      in the list's spelling. */
  lemma {:induction false} HorizontalValue(a: Alignment, attrs: seq<Attr>, k: nat)
    requires k < |attrs| && SetsHorizontal(attrs[k])
    requires forall m :: k < m < |attrs| ==> !SetsHorizontal(attrs[m])
    ensures ApplyAlignment(a, attrs).horizontal == FixedStyleValue(HorizontalAlignments, attrs[k].value)
  {
    var init := attrs[..|attrs| - 1];
    HorizontalStep(ApplyAlignment(a, init), attrs[|attrs| - 1]);
    if k < |init| {
      assert forall m :: k < m < |init| ==> init[m] == attrs[m];
      HorizontalValue(a, init, k);
    }
  }

  lemma HorizontalStep(a: Alignment, at: Attr)
    ensures !SetsHorizontal(at) ==> AlignmentAttr(a, at).horizontal == a.horizontal
    ensures SetsHorizontal(at) ==> AlignmentAttr(a, at).horizontal == FixedStyleValue(HorizontalAlignments, at.value)
  {
  }

  /** With no attribute that stores an underline value, it is left as it was. */
  lemma {:induction false} UnderlineUnset(f: Font, attrs: seq<Attr>)
    requires forall k :: 0 <= k < |attrs| ==> !SetsUnderline(attrs[k])
    ensures ApplyFont(f, attrs).underline == f.underline
  {
    if attrs != [] {
      var init := attrs[..|attrs| - 1];
      assert forall k :: 0 <= k < |init| ==> init[k] == attrs[k];
      UnderlineUnset(f, init);
      UnderlineStep(ApplyFont(f, init), attrs[|attrs| - 1]);
    }
  }

  /** The underline value of a font is that of the last attribute that
      stores one, in the list's spelling. */
  lemma {:induction false} UnderlineValue(f: Font, attrs: seq<Attr>, k: nat)
    requires k < |attrs| && SetsUnderline(attrs[k])
    requires forall m :: k < m < |attrs| ==> !SetsUnderline(attrs[m])
    ensures ApplyFont(f, attrs).underline == FixedStyleValue(UnderlineStyles, attrs[k].value)
  {
    var init := attrs[..|attrs| - 1];
    UnderlineStep(ApplyFont(f, init), attrs[|attrs| - 1]);
    if k < |init| {
      assert forall m :: k < m < |init| ==> init[m] == attrs[m];
      UnderlineValue(f, init, k);
    }
  }

  lemma UnderlineStep(f: Font, at: Attr)
    ensures !SetsUnderline(at) ==> FontAttr(f, at).underline == f.underline
    ensures SetsUnderline(at) ==> FontAttr(f, at).underline == FixedStyleValue(UnderlineStyles, at.value)
  {
  }

  /** With no `FontName`, `Size` or `Color` attribute, that field of the
      font is left as it was. */
  lemma {:induction false} FontUnset(f: Font, attrs: seq<Attr>, key: string)
    requires forall k :: 0 <= k < |attrs| ==> attrs[k].key != key
    ensures key == "FontName" ==> ApplyFont(f, attrs).name == f.name
    ensures key == "Size" ==> ApplyFont(f, attrs).size == f.size
    ensures key == "Color" ==> ApplyFont(f, attrs).color == f.color
  {
    if attrs != [] {
      var init := attrs[..|attrs| - 1];
      assert forall k :: 0 <= k < |init| ==> init[k] == attrs[k];
      FontUnset(f, init, key);
      FontStep(ApplyFont(f, init), attrs[|attrs| - 1], key);
    }
  }

  /** The last `FontName` and `Size` attributes are stored as written; the
      last `Color` is stored without its first character. */
  lemma {:induction false} FontValue(f: Font, attrs: seq<Attr>, key: string, k: nat)
    requires k < |attrs| && attrs[k].key == key
    requires forall m :: k < m < |attrs| ==> attrs[m].key != key
    ensures key == "FontName" ==> ApplyFont(f, attrs).name == Some(attrs[k].value)
    ensures key == "Size" ==> ApplyFont(f, attrs).size == Some(attrs[k].value)
    ensures key == "Color" ==> ApplyFont(f, attrs).color == Some(DropFirst(attrs[k].value))
  {
    var init := attrs[..|attrs| - 1];
    FontStep(ApplyFont(f, init), attrs[|attrs| - 1], key);
    if k < |init| {
      assert forall m :: k < m < |init| ==> init[m] == attrs[m];
      FontValue(f, init, key, k);
    }
  }

  lemma FontStep(f: Font, at: Attr, key: string)
    ensures key == "FontName" ==> FontAttr(f, at).name == if at.key == key then Some(at.value) else f.name
    ensures key == "Size" ==> FontAttr(f, at).size == if at.key == key then Some(at.value) else f.size
    ensures key == "Color" ==> FontAttr(f, at).color == if at.key == key then Some(DropFirst(at.value)) else f.color
  {
  }

  /** Without a `Color` attribute, the fill is left as it was. */
  lemma {:induction false} InteriorUnset(fill: Option<string>, attrs: seq<Attr>)
    requires forall k :: 0 <= k < |attrs| ==> attrs[k].key != "Color"
    ensures ApplyInterior(fill, attrs) == fill
  {
    if attrs != [] {
      var init := attrs[..|attrs| - 1];
      assert forall k :: 0 <= k < |init| ==> init[k] == attrs[k];
      InteriorUnset(fill, init);
    }
  }

  /** The fill is the last `Color` attribute without its first character. */
  lemma {:induction false} InteriorValue(fill: Option<string>, attrs: seq<Attr>, k: nat)
    requires k < |attrs| && attrs[k].key == "Color"
    requires forall m :: k < m < |attrs| ==> attrs[m].key != "Color"
    ensures ApplyInterior(fill, attrs) == Some(DropFirst(attrs[k].value))
  {
    var init := attrs[..|attrs| - 1];
    if k < |init| {
      assert forall m :: k < m < |init| ==> init[m] == attrs[m];
      InteriorValue(fill, init, k);
    }
  }

  /** Without a `Color` attribute a border has no colour, and without a
      `Position` attribute the position carried in is kept. */
  lemma {:induction false} BorderUnset(attrs: seq<Attr>, position: Option<string>, key: string)
    requires forall k :: 0 <= k < |attrs| ==> attrs[k].key != key
    ensures key == "Color" ==> ReadBorder(attrs, position).0.color.None?
    ensures key == "Position" ==> ReadBorder(attrs, position).1 == position
  {
    if attrs != [] {
      var init := attrs[..|attrs| - 1];
      assert forall k :: 0 <= k < |init| ==> init[k] == attrs[k];
      BorderUnset(init, position, key);
    }
  }

  /** A border's colour is its last `Color` attribute without the first
      character, and the position is its last `Position`, lower-cased. */
  lemma {:induction false} BorderValue(attrs: seq<Attr>, position: Option<string>, key: string, k: nat)
    requires k < |attrs| && attrs[k].key == key
    requires forall m :: k < m < |attrs| ==> attrs[m].key != key
    ensures key == "Color" ==> ReadBorder(attrs, position).0.color == Some(DropFirst(attrs[k].value))
    ensures key == "Position" ==> ReadBorder(attrs, position).1 == Some(LowerStr(attrs[k].value))
  {
    var init := attrs[..|attrs| - 1];
    if k < |init| {
      assert forall m :: k < m < |init| ==> init[m] == attrs[m];
      BorderValue(init, position, key, k);
    }
  }

  /** Any `LineStyle` attribute makes the border medium, whatever its value. */
  lemma {:induction false} BorderLineStyle(attrs: seq<Attr>, position: Option<string>)
    ensures ReadBorder(attrs, position).0.lineStyle == if HasKey(attrs, "LineStyle") then Some(BorderMedium) else None
  {
    if attrs != [] {
      BorderLineStyle(attrs[..|attrs| - 1], position);
      HasKeyStep(attrs, "LineStyle");
    }
  }

  /** Processing styles in two runs is processing them in one. */
  lemma {:induction false} StyleTableAppend(table: map<string, Style>, a: seq<StyleNode>, b: seq<StyleNode>, position: Option<string>)
    ensures StyleTable(table, a + b, position) ==
      StyleTable(StyleTable(table, a, position).0, b, StyleTable(table, a, position).1)
    decreases |b|
  {
    if b == [] {
      assert a + b == a;
    } else {
      assert (a + b)[..|a + b| - 1] == a + b[..|b| - 1];
      assert (a + b)[|a + b| - 1] == b[|b| - 1];
      StyleTableAppend(table, a, b[..|b| - 1], position);
    }
  }

  /** Styles whose IDs differ from `id` leave the entry for `id` as it was:
      later changes to `Default` do not reach entries already built. */
  lemma {:induction false} StyleTableFrame(table: map<string, Style>, nodes: seq<StyleNode>, position: Option<string>, id: string)
    requires forall k :: 0 <= k < |nodes| ==> StyleKey(nodes[k]) != id
    ensures id in StyleTable(table, nodes, position).0 <==> id in table
    ensures id in table ==> StyleTable(table, nodes, position).0[id] == table[id]
  {
    if nodes != [] {
      StyleTableFrame(table, nodes[..|nodes| - 1], position, id);
    }
  }

  /** An entry is its own children applied to a copy of `Default` as that
      entry stood just before the `Style` element, provided no later
      element reuses the ID. */
  lemma SeededFromDefault(table: map<string, Style>, pre: seq<StyleNode>, node: StyleNode, post: seq<StyleNode>, position: Option<string>)
    requires forall k :: 0 <= k < |post| ==> StyleKey(post[k]) != StyleKey(node)
    ensures var (before, p) := StyleTable(table, pre, position);
      var after := StyleTable(table, pre + [node] + post, position).0;
      StyleKey(node) in after && after[StyleKey(node)] == ApplyChildren(Seed(before), node.children, p).0
  {
    var (before, p) := StyleTable(table, pre, position);
    StyleTableAppend(table, pre + [node], post, position);
    StyleTableAppend(table, pre, [node], position);
    assert StyleTable(before, [node], p) == AddStyle(before, node, p) by {
      assert [node][..0] == [];
    }
    var mid := StyleTable(table, pre + [node], position);
    StyleTableFrame(mid.0, post, mid.1, StyleKey(node));
  }

  /** `Short Date` is renamed; an empty code is never stored. */
  lemma NumberFormatRules(code: Option<string>, key: string)
    ensures FormatCode("Short Date") == ShortDatePattern
    ensures NumberFormatAttr(code, Attr(key, "")) == code
  {
    ReplaceAbsent("Short Date", "\\-", "-");
    ReplaceAbsent("Short Date", "\\ ", " ");
    ReplaceAbsent("", "\\-", "-");
    ReplaceAbsent("", "\\ ", " ");
  }

  /** A code without a backslash is stored as written, `Short Date`
      renamed, and an empty one not at all. */
  lemma NumberFormatPlain(code: Option<string>, at: Attr)
    requires '\\' !in at.value
    ensures NumberFormatAttr(code, at) ==
      if at.value == "" then code
      else if at.value == "Short Date" then Some(ShortDatePattern)
      else Some(at.value)
  {
    assert "\\-"[0] == '\\' && "\\ "[0] == '\\';
    ReplaceAbsent(at.value, "\\-", "-");
    ReplaceAbsent(at.value, "\\ ", " ");
  }

  /** One escaped `-` or space in a code is unescaped, and the result is
      then renamed if it is `Short Date`. */
  lemma NumberFormatEscape(a: string, c: char, b: string)
    requires c == '-' || c == ' '
    requires '\\' !in a && '\\' !in b
    ensures FormatCode(a + ['\\', c] + b) ==
      if a + [c] + b == "Short Date" then ShortDatePattern else a + [c] + b
  {
    var u := a + [c] + b;
    assert '\\' !in u;
    assert "\\-"[0] == '\\' && "\\ "[0] == '\\';
    if c == '-' {
      ReplaceSplice(a, "\\-", "-", b);
      ReplaceAbsent(b, "\\-", "-");
      assert a + "-" + b == u;
      ReplaceAbsent(u, "\\ ", " ");
    } else {
      var s := a + ['\\', c] + b;
      forall k | 0 <= k < |s| && k != |a|
        ensures s[k] != '\\'
      {
        if k < |a| {
          assert s[k] == a[k];
        } else if k == |a| + 1 {
          assert s[k] == c;
        } else {
          assert s[k] == b[k - |a| - 2];
        }
      }
      assert s[|a| + 1] == ' ';
      ReplaceNone(s, "\\-", "-");
      assert s == a + "\\ " + b;
      ReplaceSplice(a, "\\ ", " ", b);
      ReplaceAbsent(b, "\\ ", " ");
      assert a + " " + b == u;
    }
  }

  /** `Short\ Date` is unescaped and then renamed. */
  lemma ShortDateEscaped()
    ensures FormatCode("Short\\ Date") == ShortDatePattern
  {
    assert "Short\\ Date" == "Short" + ['\\', ' '] + "Date";
    NumberFormatEscape("Short", ' ', "Date");
    assert "Short" + [' '] + "Date" == "Short Date";
  }
}
