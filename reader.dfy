/** The reader object: its `styles` table and `charSet` are fields that
    `canRead` and `loadIntoExisting` update in place, and that survive from
    one call to the next. The file is given as its name and, when it
    exists, its bytes; the parsed tree of the file stands for what
    `simplexml_load_string` builds from those bytes. */
module Reader {

  import opened Wrappers
  import opened Strings
  import opened Tree
  import opened Styles
  import FormatDetector
  import WorksheetInfo
  import CustomProperties
  import Placement

  /** What a load hands on to the spreadsheet: the custom properties, in
      order, and the sheet-building calls. */
  datatype Loaded = Loaded(properties: seq<CustomProperties.CustomProperty>, events: seq<Placement.Event>)

  function MissingFile(filename: string): string {
    "Could not open " + filename + " for reading! File does not exist."
  }

  function InvalidFile(filename: string): string {
    filename + " is an Invalid Spreadsheet file."
  }

  /** The sample `canRead` inspects: the first 2048 bytes, single quotes
      turned into double quotes. */
  function Sniffed(contents: string): string {
    FormatDetector.Normalise(FormatDetector.Sample(contents))
  }

  /** Both parts of the signature occur in the sample. */
  ghost predicate Signed(contents: string) {
    var data := Sniffed(contents);
    Contains(data, FormatDetector.XmlProlog)
    && Contains(data, FormatDetector.ApplicationInstruction)
  }

  /** The signature list holds exactly the two parts. */
  lemma SignatureParts(contents: string)
    ensures Signed(contents) <==>
      forall k :: 0 <= k < |FormatDetector.Signature| ==> Contains(Sniffed(contents), FormatDetector.Signature[k])
  {
    var data := Sniffed(contents);
    assert FormatDetector.Signature == [FormatDetector.XmlProlog, FormatDetector.ApplicationInstruction];
    if Signed(contents) {
      forall k | 0 <= k < |FormatDetector.Signature|
        ensures Contains(data, FormatDetector.Signature[k])
      {
        if k == 1 {
          assert FormatDetector.Signature[k] == FormatDetector.ApplicationInstruction;
        }
      }
    }
    if forall k :: 0 <= k < |FormatDetector.Signature| ==> Contains(data, FormatDetector.Signature[k]) {
      assert Contains(data, FormatDetector.Signature[0]);
      assert Contains(data, FormatDetector.Signature[1]);
    }
  }

  /** `charSet` after `canRead`: the declared encoding in upper case, or
      the previous value when there is no declaration or the sample is not
      valid UTF-8 (the `u` flag makes `preg_match` fail). */
  function CharSetAfter(previous: string, contents: string): (r: string)
    ensures !FormatDetector.ValidUtf8(Sniffed(contents)) ==> r == previous
    ensures FormatDetector.EncodingDeclaration(Sniffed(contents)).None? ==> r == previous
    ensures FormatDetector.EncodingDeclaration(Sniffed(contents)).Some? ==>
      r == UpperStr(FormatDetector.EncodingDeclaration(Sniffed(contents)).value)
    ensures FormatDetector.EncodingDeclaration(Sniffed(contents)).Some? ==>
      forall i :: 0 <= i < |r| ==> !('a' <= r[i] <= 'z')
  {
    match FormatDetector.EncodingDeclaration(Sniffed(contents))
    case Some(e) => UpperStr(e)
    case None => previous
  }

  class Excel2003XmlReader {
    /** `$styles`: style ID to style, never cleared. */
    var styles: map<string, Style>
    /** `$charSet`, `UTF-8` until a file declares another encoding. */
    var charSet: string
    /** `$loadSheetsOnly`: the names of the sheets to load, if restricted. */
    var loadSheetsOnly: Option<seq<string>>
    /** `$readFilter->readCell(column, row, sheet name)`. */
    var readFilter: (string, int, Option<string>) -> bool

    /** A fresh reader accepts every cell and has no styles yet. */
    constructor ()
      ensures styles == map[] && charSet == "UTF-8" && loadSheetsOnly == None
      ensures forall c, r, s :: readFilter(c, r, s)
    {
      styles := map[];
      charSet := "UTF-8";
      loadSheetsOnly := None;
      readFilter := (c: string, r: int, s: Option<string>) => true;
    }

    /** The sheet-building context of the reader's present state. */
    function Context(convert: string -> string): Placement.Context
      reads this
    {
      Placement.Context(styles, charSet, convert, readFilter)
    }

    /** `canRead`: the file is accepted exactly when both signature parts
        occur in its sample; `charSet` changes only when the sample is valid
        UTF-8 and declares an encoding. */
    method CanRead(contents: string) returns (valid: bool)
      modifies this
      ensures valid <==> Signed(contents)
      ensures charSet == CharSetAfter(old(charSet), contents)
      ensures styles == old(styles) && loadSheetsOnly == old(loadSheetsOnly) && readFilter == old(readFilter)
    {
      var data := FormatDetector.Normalise(FormatDetector.Sample(contents));
      valid := FormatDetector.HasSignature(data);
      SignatureParts(contents);
      var encoding := FormatDetector.EncodingDeclaration(data);
      if encoding.Some? {
        charSet := UpperStr(encoding.value);
      }
    }

    /** The `Styles` loop: one entry per `Style` element, added to the
        table left by earlier loads. The border position starts unset. */
    method LoadStyles(nodes: seq<StyleNode>)
      modifies this
      ensures styles == StyleTable(old(styles), nodes, None).0
      ensures charSet == old(charSet) && loadSheetsOnly == old(loadSheetsOnly) && readFilter == old(readFilter)
    {
      var position: Option<string> := None;
      var k := 0;
      assert nodes[..0] == [];
      while k < |nodes|
        invariant 0 <= k <= |nodes|
        invariant (styles, position) == StyleTable(old(styles), nodes[..k], None)
        invariant charSet == old(charSet) && loadSheetsOnly == old(loadSheetsOnly) && readFilter == old(readFilter)
      {
        var added := AddStyle(styles, nodes[k], position);
        styles, position := added.0, added.1;
        assert nodes[..k + 1][..k] == nodes[..k];
        k := k + 1;
      }
      assert nodes[..k] == nodes;
    }

    /** `listWorksheetInfo`: only the file's existence is checked (there is
        no `canRead` test and no state is touched), then every sheet is
        scanned. */
    method ListWorksheetInfo(filename: string, contents: Option<string>, doc: Document)
      returns (r: Result<seq<WorksheetInfo.Info>>)
      ensures contents.None? ==> r == Err(MissingFile(filename))
      ensures contents.Some? ==>
        r.Ok? && |r.value| == |doc.worksheets|
        && forall i :: 0 <= i < |doc.worksheets| ==> r.value[i] == WorksheetInfo.SheetInfo(doc.worksheets[i], i + 1)
    {
      if contents.None? {
        return Err(MissingFile(filename));
      }
      var info := WorksheetInfo.ScanWorksheets(doc);
      r := Ok(info);
    }

    /** `listWorksheetNames`: the `ss:Name` of every sheet, converted from
        the file's character set; a missing file or one `canRead` refuses
        is an error. */
    method ListWorksheetNames(filename: string, contents: Option<string>, doc: Document, convert: string -> string)
      returns (r: Result<seq<string>>)
      modifies this
      ensures contents.None? ==> r == Err(MissingFile(filename)) && charSet == old(charSet)
      ensures contents.Some? ==> charSet == CharSetAfter(old(charSet), contents.value)
      ensures contents.Some? && !Signed(contents.value) ==> r == Err(InvalidFile(filename))
      ensures contents.Some? && Signed(contents.value) ==>
        r.Ok? && |r.value| == |doc.worksheets|
        && forall k :: 0 <= k < |doc.worksheets| ==>
          r.value[k] == Placement.Encode(Context(convert), doc.worksheets[k].name.GetOr(""))
      ensures styles == old(styles) && loadSheetsOnly == old(loadSheetsOnly) && readFilter == old(readFilter)
    {
      if contents.None? {
        return Err(MissingFile(filename));
      }
      var valid := CanRead(contents.value);
      if !valid {
        return Err(InvalidFile(filename));
      }
      var names: seq<string> := [];
      var k := 0;
      while k < |doc.worksheets|
        invariant 0 <= k <= |doc.worksheets|
        invariant |names| == k
        invariant forall m :: 0 <= m < k ==>
          names[m] == Placement.Encode(Context(convert), doc.worksheets[m].name.GetOr(""))
      {
        names := names + [Placement.Encode(Context(convert), doc.worksheets[k].name.GetOr(""))];
        k := k + 1;
      }
      r := Ok(names);
    }

    /** `loadIntoExisting`: after the file checks, the custom properties,
        then the styles, then the sheets, which see the styles and the
        character set this load has just set. */
    method LoadIntoExisting(filename: string, contents: Option<string>, doc: Document, convert: string -> string)
      returns (r: Result<Loaded>)
      modifies this
      ensures contents.None? ==> r == Err(MissingFile(filename)) && styles == old(styles) && charSet == old(charSet)
      ensures contents.Some? ==> charSet == CharSetAfter(old(charSet), contents.value)
      ensures contents.Some? && !Signed(contents.value) ==> r == Err(InvalidFile(filename)) && styles == old(styles)
      ensures contents.Some? && Signed(contents.value) ==>
        && styles == StyleTable(old(styles), doc.styles, None).0
        && r.Ok?
        && |r.value.properties| == |doc.customProperties|
        && (forall k :: 0 <= k < |doc.customProperties| ==>
             r.value.properties[k] == CustomProperties.ConvertProperty(doc.customProperties[k]))
        && r.value.events == Placement.SheetsWalk(doc.worksheets, loadSheetsOnly, Context(convert)).events
      ensures loadSheetsOnly == old(loadSheetsOnly) && readFilter == old(readFilter)
    {
      if contents.None? {
        return Err(MissingFile(filename));
      }
      var valid := CanRead(contents.value);
      if !valid {
        return Err(InvalidFile(filename));
      }
      var properties := CustomProperties.LoadCustomProperties(doc.customProperties);
      LoadStyles(doc.styles);
      var events := Placement.LoadWorksheets(doc.worksheets, loadSheetsOnly, Context(convert));
      r := Ok(Loaded(properties, events));
    }
  }

  // ---------------------------------------------------------------------
  // Properties of the reader's state across calls
  // ---------------------------------------------------------------------

  /** A second load on the same reader starts from the first load's table:
      an entry of the first document whose ID the second does not reuse is
      still there afterwards, unchanged. */
  lemma CarriedAcrossLoads(start: map<string, Style>, first: seq<StyleNode>, second: seq<StyleNode>, id: string)
    requires id in StyleTable(start, first, None).0
    requires forall k :: 0 <= k < |second| ==> StyleKey(second[k]) != id
    ensures var afterFirst := StyleTable(start, first, None).0;
      var afterSecond := StyleTable(afterFirst, second, None).0;
      id in afterSecond && afterSecond[id] == afterFirst[id]
  {
    StyleTableFrame(StyleTable(start, first, None).0, second, None, id);
  }

  /** A file with no encoding declaration, or whose sample is not valid
      UTF-8, leaves the character set as an earlier `canRead` left it; a
      declaration PCRE accepts replaces it outright. */
  lemma CharSetSticks(previous: string, contents: string, earlier: string)
    ensures !FormatDetector.ValidUtf8(Sniffed(contents)) ==>
      CharSetAfter(CharSetAfter(previous, earlier), contents) == CharSetAfter(previous, earlier)
    ensures FormatDetector.EncodingDeclaration(Sniffed(contents)).None? ==>
      CharSetAfter(CharSetAfter(previous, earlier), contents) == CharSetAfter(previous, earlier)
    ensures FormatDetector.EncodingDeclaration(Sniffed(contents)).Some? ==>
      CharSetAfter(CharSetAfter(previous, earlier), contents) == CharSetAfter(previous, contents)
  {
  }

  /** A file shorter than 2048 bytes is sampled whole. */
  lemma ShortFileSampledWhole(contents: string)
    requires |contents| < FormatDetector.SampleSize
    ensures |Sniffed(contents)| == |contents|
    ensures forall i :: 0 <= i < |contents| ==>
      Sniffed(contents)[i] == (if contents[i] == '\'' then '"' else contents[i])
  {
  }

  /** For a file whose sample is plain ASCII the `u` flag never fails:
      the declaration alone decides. */
  lemma AsciiSampleDecides(previous: string, contents: string)
    requires forall i :: 0 <= i < |contents| ==> contents[i] as int < 0x80
    ensures CharSetAfter(previous, contents) ==
      match FormatDetector.EncodingCapture(Sniffed(contents))
      case None => previous
      case Some(e) => UpperStr(e)
  {
    var d := Sniffed(contents);
    assert forall i :: 0 <= i < |d| ==> d[i] == (if contents[i] == '\'' then '"' else contents[i]);
    FormatDetector.AsciiValid(d, 0);
  }

  /** A Latin-1 file with an accented letter before an ASCII byte in its
      first 2048 bytes keeps the previous character set, whatever encoding
      it declares. */
  lemma Latin1KeepsCharSet(previous: string, contents: string, i: nat)
    requires i + 1 < |contents| && i + 1 < FormatDetector.SampleSize
    requires 0xC0 <= contents[i] as int <= 0xFF && contents[i + 1] as int < 0x80
    ensures CharSetAfter(previous, contents) == previous
  {
    var d := Sniffed(contents);
    assert d[i] == contents[i];
    assert d[i + 1] as int < 0x80;
    FormatDetector.Latin1Invalid(d, i);
  }

  /** So does a file whose 2048-byte cut splits a multi-byte character. */
  lemma SplitCharacterKeepsCharSet(previous: string, contents: string)
    requires |contents| >= FormatDetector.SampleSize
    requires 0xC2 <= contents[FormatDetector.SampleSize - 1] as int <= 0xF4
    ensures CharSetAfter(previous, contents) == previous
  {
    var d := Sniffed(contents);
    assert d[|d| - 1] == contents[FormatDetector.SampleSize - 1];
    FormatDetector.TruncatedInvalid(d);
  }
}
