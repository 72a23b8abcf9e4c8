# Excel 2003 XML reader, modelled in Dafny

This project models the legacy XML Spreadsheet 2003 reader of the `excell`
library (`src/excell/Reader/Excel2003XML.php`). The reader has three parts, all modelled here:

- **Detection.** `canRead` decides from the first 2048 bytes whether a file is such a document. It also picks up the encoding named in the prolog.
- **Metadata scan.** `listWorksheetNames` and `listWorksheetInfo` report on the sheets without building a spreadsheet.
- **Loading.** `loadIntoExisting` does the following, in order:
  - hands the custom document properties to the property store;
  - builds the style table;
  - walks every sheet, row and cell. The walk:
    - keeps a row cursor, a column cursor and a merge counter;
    - registers merged ranges and asks the read filter about each cell;
    - sets values, rewriting R1C1 formulas into A1 form;
    - attaches comments, applies styles and sets row heights.

The XML file is taken as already parsed (`Tree`). Sheets hold `Column` and `Row`
elements, rows hold `Cell` elements, and every `ss:` attribute is optional.
What the reader does to the spreadsheet object is recorded as a sequence of
`Event`s: create a sheet, set a title, merge a range, set a value, and so on.

The modules follow the structure of the reader:

| module | file | what it holds |
|---|---|---|
| `Wrappers` | wrappers.dfy | `Option`, `Result` |
| `Strings` | strings.dfy | `strtolower`/`strtoupper`, `strpos`, `str_replace`, `explode`/`implode`, decimal text |
| `Tree` | tree.dfy | the parsed document |
| `Columns` | columns.dfy | column letters: `stringFromColumnIndex` (0-based), `columnIndexFromString` (1-based), PHP `++` on a column string |
| `FormatDetector` | format_detector.dfy | the 2048-byte sample, the signature test, the `encoding` pattern, UTF-8 validity for its `u` flag |
| `WorksheetInfo` | worksheet_info.dfy | `listWorksheetInfo` |
| `Styles` | styles.dfy | `identifyFixedStyleValue` and the style loop |
| `CustomProperties` | properties.dfy | `hex2str` name decoding, type tagging, `trim`, `intval`, comparison of a text with 0 |
| `Formula`, `FormulaRefs` | formula.dfy, formula_refs.dfy | the formula translator and its reference-level properties |
| `Placement` | placement.dfy | the sheet/row/cell walk |
| `Reader` | reader.dfy | the reader object: `styles`, `charSet`, `loadSheetsOnly`, the read filter, and the public operations |

Where the state changes in place, the model is imperative. `Reader.Excel2003XmlReader` is a class: `CanRead` and
`LoadStyles` assign its `charSet` and `styles` fields. The formula block
rewrites an `array` of segments in place, as `foreach ($temp as &$value)`
does. The nested loops of the placement walk and of `listWorksheetInfo` are
methods with loop invariants. Each method is proved equal to a recursive
specification function, and the properties are lemmas about those
functions.

Where the code and the documented behaviour of the reader differ, the model follows the code:

- `totalRows` is the 1-based position of the *last* row holding a `Data` cell. It is not a count of such rows: with data in rows 1 and 3 of three rows, it is 3, not 2 (`WorksheetInfo.ExampleGapRow`).
- A cell rejected by the read filter does *not* advance the column cursor: its `continue` jumps over `++$columnID` (`Placement.RejectedColumnA`).
- A `boolean` custom property is `(bool)` of the XML element, not of its text. `<Flag dt:dt="boolean">0</Flag>` is `true`, and only an element with nothing in it is `false` (`CustomProperties.ExampleBoolean`).
- A `Boolean` data cell compares the element with 0, and PHP 7 reads the element's text as a number for that. So `0.5` is `true` although `intval` gives 0 (`Placement.BooleanCells`).
- The style table is a field of the reader and is never cleared. A second load on the same reader starts from the table the first load left (`Reader.CarriedAcrossLoads`).
- Likewise, a file with no `encoding` declaration keeps the `charSet` left by an earlier call. It does not fall back to UTF-8 (`Reader.CharSetSticks`).
- A file whose 2048-byte sample is not valid UTF-8 keeps the earlier `charSet` too, whatever it declares. The `u` flag makes `preg_match` fail on such a subject, and the code ignores the failure. This covers a Latin-1 file with an accented letter (`Reader.Latin1KeepsCharSet`) and a file whose sample ends inside a multi-byte character (`Reader.SplitCharacterKeepsCharSet`).

## Model

| member | source | states |
|---|---|---|
| Columns.ColumnName | src/excell/Reader/Excel2003XML.php:566 | every 0-based column index has a name made of upper-case letters |
| Columns.ColumnIndexPositive | src/excell/Reader/Excel2003XML.php:643 | the 1-based number of a column name is at least 1 |
| Columns.IndexOfName | src/excell/Reader/Excel2003XML.php:580 | `columnIndexFromString(stringFromColumnIndex(i)) == i + 1` |
| Columns.NameOfIndex | src/excell/Reader/Excel2003XML.php:580 | every column name is the name of its own number minus one |
| Columns.NameInjective | src/excell/Reader/Excel2003XML.php:566 | two indices with the same name are equal |
| Columns.Succ | src/excell/Reader/Excel2003XML.php:725 | `++` on a column name gives a column name |
| Columns.SuccName | src/excell/Reader/Excel2003XML.php:725 | `++` on the name of column i gives the name of column i + 1 (Z to AA, AZ to BA) |
| Columns.SuccNName | src/excell/Reader/Excel2003XML.php:725-729 | n increments from the name of column i give the name of column i + n |
| FormatDetector.Sample | src/excell/Reader/Excel2003XML.php:83 | the sample is a prefix of the file, with at most 2048 characters; a shorter file is sampled whole |
| FormatDetector.Normalise | src/excell/Reader/Excel2003XML.php:85 | same length; every `'` becomes `"` and every other character is kept; no `'` is left |
| FormatDetector.HasSignature | src/excell/Reader/Excel2003XML.php:87-94 | the early-exit loop returns true exactly when every signature entry occurs in the data |
| FormatDetector.LineEnd | src/excell/Reader/Excel2003XML.php:97 | the first line feed at or after q, or the end of the data; none lies in between |
| FormatDetector.HasGreater | src/excell/Reader/Excel2003XML.php:97 | true exactly when a `>` lies in the range |
| FormatDetector.FirstQuote | src/excell/Reader/Excel2003XML.php:97 | the first `"` in the range, or none when the range holds no `"` |
| FormatDetector.RightmostSpec | src/excell/Reader/Excel2003XML.php:97 | the position found is the rightmost one passing the test; none found means none passes |
| FormatDetector.InstanceOnLine | src/excell/Reader/Excel2003XML.php:97 | with `xml` at p, a way the pattern matches is exactly: an `encoding="` after p on the same line, a closing `"`, and a `>` later on that line |
| FormatDetector.InstancesOnLine | src/excell/Reader/Excel2003XML.php:97 | every match from p lies on p's line, and its key's capture succeeds |
| FormatDetector.CaptureIsLeast | src/excell/Reader/Excel2003XML.php:97 | the lazy `(.*?)` takes the shortest capture closed by a quote with a `>` after it, or the key has no match |
| FormatDetector.GreedyBest | src/excell/Reader/Excel2003XML.php:97 | the greedy `.*` picks the rightmost `encoding="` that can match, with its shortest capture; when there is none, no match starts at p |
| FormatDetector.MatchAfterSpec | src/excell/Reader/Excel2003XML.php:97 | from `xml` at p, the match reported is the one PCRE picks (greedy key, lazy capture), or none exists |
| FormatDetector.NoneWithoutXml | src/excell/Reader/Excel2003XML.php:97 | no match starts where `xml` does not occur |
| FormatDetector.MatchFromSpec | src/excell/Reader/Excel2003XML.php:97 | the search returns the leftmost position at or after `from` where a match starts, or reports that none does |
| FormatDetector.EncodingCaptureSpec | src/excell/Reader/Excel2003XML.php:97 | on a valid subject: no capture exactly when the pattern does not match; otherwise the capture of the match PCRE reports (leftmost start, longest `.*`, shortest capture), which holds no `"` and no line feed |
| FormatDetector.CharBytes | src/excell/Reader/Excel2003XML.php:97 | a well-formed UTF-8 character starts with a non-continuation byte and goes on with continuation bytes |
| FormatDetector.AsciiValid | src/excell/Reader/Excel2003XML.php:97 | text made of bytes below 0x80 is valid UTF-8 |
| FormatDetector.BadStartInvalid | src/excell/Reader/Excel2003XML.php:97 | a byte that neither continues a character nor starts a well-formed one makes the whole subject invalid |
| FormatDetector.Latin1Invalid | src/excell/Reader/Excel2003XML.php:97 | a byte from 0xC0 to 0xFF followed by an ASCII byte is not valid UTF-8 |
| FormatDetector.TruncatedInvalid | src/excell/Reader/Excel2003XML.php:97 | a subject ending with the lead byte of a multi-byte character is not valid UTF-8 |
| FormatDetector.EncodingDeclarationSpec | src/excell/Reader/Excel2003XML.php:97-99 | `None` exactly when the sample is not valid UTF-8 (the `u` flag makes `preg_match` fail) or the pattern does not match; otherwise the capture of the match PCRE reports (leftmost start, longest `.*`, shortest capture), which holds no `"` and no line feed |
| Strings.LowerStr | src/excell/Reader/Excel2003XML.php:231 | `strtolower`: same length, each character lower-cased |
| Strings.UpperStr | src/excell/Reader/Excel2003XML.php:98 | `strtoupper`: same length, each character upper-cased |
| Strings.LowerStrEqual | src/excell/Reader/Excel2003XML.php:233 | two strings have the same lower-case form exactly when they are equal ignoring case |
| Strings.Find | src/excell/Reader/Excel2003XML.php:90 | `strpos`: the first occurrence at or after `from`, or none when there is no occurrence |
| Strings.Split | src/excell/Reader/Excel2003XML.php:656 | `explode`: at least one segment, none containing the delimiter |
| Strings.JoinSplit | src/excell/Reader/Excel2003XML.php:695 | `implode(d, explode(d, s)) == s` |
| Strings.SplitJoin | src/excell/Reader/Excel2003XML.php:656 | `explode` gives back segments that were joined, if none contains the delimiter |
| Strings.JoinCount | src/excell/Reader/Excel2003XML.php:695 | joining n delimiter-free segments puts n - 1 delimiters in the text |
| Strings.ReplaceAbsent | src/excell/Reader/Excel2003XML.php:496 | `str_replace` leaves a text unchanged when the pattern's first character does not occur in it |
| Strings.ReplaceNone | src/excell/Reader/Excel2003XML.php:496 | `str_replace` leaves a text unchanged when the pattern occurs nowhere in it |
| Strings.ReplaceSplice | src/excell/Reader/Excel2003XML.php:496 | when nothing before an occurrence starts the pattern, that occurrence is replaced and the pass goes on after it |
| Strings.ReplaceKeepsAbsent | src/excell/Reader/Excel2003XML.php:651 | a replacement never brings in a character found neither in the text nor in the replacement |
| Strings.ReplaceRemoves | src/excell/Reader/Excel2003XML.php:651 | after deleting every c, no c is left |
| Strings.NatToString | src/excell/Reader/Excel2003XML.php:175 | decimal text is non-empty and all digits |
| Strings.DigitsOfNat | src/excell/Reader/Excel2003XML.php:175 | the decimal text of n reads back as n |
| Styles.FixedStyleValue | src/excell/Reader/Excel2003XML.php:229-241 | the result is an entry of the list equal to the value ignoring case; none exactly when no entry is |
| Styles.IdentifyFixedStyleValue | src/excell/Reader/Excel2003XML.php:229-241 | true exactly when some entry equals the value ignoring case, and then the value becomes the list's first such spelling; otherwise the value is left lower-cased |
| Styles.AlignmentCanonical | src/excell/Reader/Excel2003XML.php:415-424 | a stored vertical or horizontal alignment is always one of the fixed list's own spellings |
| Styles.FontCanonical | src/excell/Reader/Excel2003XML.php:477-481 | a stored underline is always one of the fixed list's own spellings |
| Styles.BorderMediumOnly | src/excell/Reader/Excel2003XML.php:437-439 | a border's line style, when set, is `medium`, whatever `LineStyle` says |
| Styles.BordersWellFormed | src/excell/Reader/Excel2003XML.php:431-456 | borders are stored only at left, right, top or bottom, and only when not empty; alignment and font are untouched |
| Styles.ChildrenWellFormed | src/excell/Reader/Excel2003XML.php:408-512 | every category of a `Style` element keeps an entry well formed (canonical spellings, four edges, medium borders) |
| Styles.StyleTableWellFormed | src/excell/Reader/Excel2003XML.php:404-513 | the style loop keeps every entry of the table well formed |
| Styles.WrapFlag | src/excell/Reader/Excel2003XML.php:425-427 | wrap is set exactly when it was set already or some `WrapText` attribute is present, whatever its value |
| Styles.FontFlags | src/excell/Reader/Excel2003XML.php:471-476 | bold (italic) is set exactly when it was already or a `Bold` (`Italic`) attribute is present, whatever its value |
| Styles.VerticalUnset | src/excell/Reader/Excel2003XML.php:415-419 | with no attribute storing a vertical value, the vertical alignment is left as it was |
| Styles.VerticalValue | src/excell/Reader/Excel2003XML.php:415-419 | the last attribute that stores a vertical value decides it, in the list's spelling |
| Styles.HorizontalUnset | src/excell/Reader/Excel2003XML.php:420-424 | with no attribute storing a horizontal value, the horizontal alignment is left as it was |
| Styles.HorizontalValue | src/excell/Reader/Excel2003XML.php:420-424 | the last attribute that stores a horizontal value decides it, in the list's spelling |
| Styles.UnderlineUnset | src/excell/Reader/Excel2003XML.php:477-481 | with no attribute storing an underline, the underline is left as it was |
| Styles.UnderlineValue | src/excell/Reader/Excel2003XML.php:477-481 | the last attribute that stores an underline decides it, in the list's spelling |
| Styles.BorderUnset | src/excell/Reader/Excel2003XML.php:435-450 | a border without `Color` has no colour, and one without `Position` keeps the position carried in from the previous border |
| Styles.BorderValue | src/excell/Reader/Excel2003XML.php:435-450 | a border's colour is its last `Color` without the first character, and the position is its last `Position`, lower-cased |
| Styles.BorderLineStyle | src/excell/Reader/Excel2003XML.php:437-439 | a border is medium exactly when it has a `LineStyle` attribute, whatever its value |
| Styles.FontUnset | src/excell/Reader/Excel2003XML.php:462-470 | without a `FontName`, `Size` or `Color` attribute, that field of the font is left as it was |
| Styles.FontValue | src/excell/Reader/Excel2003XML.php:462-470 | the last `FontName` and `Size` are stored as written, and the last `Color` without its first character |
| Styles.InteriorUnset | src/excell/Reader/Excel2003XML.php:485-493 | without a `Color` attribute the fill is left as it was |
| Styles.InteriorValue | src/excell/Reader/Excel2003XML.php:485-493 | the fill is the last `Color` attribute without its first character |
| Styles.StyleTableAppend | src/excell/Reader/Excel2003XML.php:404 | the loop over a + b is the loop over b started from the table and border position the loop over a left |
| Styles.StyleTableFrame | src/excell/Reader/Excel2003XML.php:404-407 | an ID no `Style` element uses is neither added nor removed nor changed |
| Styles.SeededFromDefault | src/excell/Reader/Excel2003XML.php:406-407 | an entry starts from `Default` as it stands when the entry is reached (or empty), and later elements with other IDs, even `Default`, do not change it |
| Styles.NumberFormatRules | src/excell/Reader/Excel2003XML.php:494-505 | `Short Date` becomes `dd/mm/yyyy`, and an empty code is not stored |
| Styles.NumberFormatPlain | src/excell/Reader/Excel2003XML.php:494-505 | for any code without a backslash: an empty one keeps the code already stored, `Short Date` stores `dd/mm/yyyy`, any other is stored as written |
| Styles.NumberFormatEscape | src/excell/Reader/Excel2003XML.php:496-501 | one `\-` or `\ ` in an otherwise backslash-free code is unescaped (the two pairs set at lines 287-288), and the result is renamed when it is `Short Date` |
| Styles.ShortDateEscaped | src/excell/Reader/Excel2003XML.php:496-501 | `Short\ Date` is unescaped and then renamed to `dd/mm/yyyy` |
| WorksheetInfo.RowLastData | src/excell/Reader/Excel2003XML.php:185-192 | the last data position of a row is 0 or lies inside the row |
| WorksheetInfo.TotalRows | src/excell/Reader/Excel2003XML.php:194-198 | `totalRows` never exceeds the number of rows |
| WorksheetInfo.ScanWorksheets | src/excell/Reader/Excel2003XML.php:160-209 | one entry per sheet, in order: name or `Worksheet_k`, last column letter and index, `totalRows`, `totalColumns = lastColumnIndex + 1` |
| WorksheetInfo.ScanRows | src/excell/Reader/Excel2003XML.php:178-200 | the running maxima over the rows are the last data column and the last data row |
| WorksheetInfo.ScanCells | src/excell/Reader/Excel2003XML.php:185-192 | the running maximum over a row's cells, and whether one holds `Data` |
| WorksheetInfo.LastDataColumnBounds | src/excell/Reader/Excel2003XML.php:187 | every cell with `Data` has a physical position at most `lastColumnIndex` |
| WorksheetInfo.RowLastDataBounds | src/excell/Reader/Excel2003XML.php:187 | every cell with `Data` lies at or before the row's last data position |
| WorksheetInfo.LastDataColumnAttained | src/excell/Reader/Excel2003XML.php:187 | `lastColumnIndex` is 0 or the position of a cell with `Data` |
| WorksheetInfo.RowLastDataAttained | src/excell/Reader/Excel2003XML.php:187 | the row's last data position is 0 or holds a `Data` cell |
| WorksheetInfo.TotalRowsIsLastDataRow | src/excell/Reader/Excel2003XML.php:194-198 | every row holding data lies within `totalRows`, and the row at `totalRows` holds data |
| WorksheetInfo.ExampleGapRow | src/excell/Reader/Excel2003XML.php:194-198 | data in rows 1 and 3 of three, at positions 0 and 1, gives `totalRows` 3 and `lastColumnIndex` 1 |
| WorksheetInfo.ExampleDefaultName | src/excell/Reader/Excel2003XML.php:172-176 | the third sheet, unnamed, is reported as `Worksheet_3` |
| CustomProperties.HexCharDigit | src/excell/Reader/Excel2003XML.php:274 | `hexdec` reads a written hexadecimal digit back, and the digit is in the pattern's class |
| CustomProperties.HexDecHex4 | src/excell/Reader/Excel2003XML.php:274 | four hexadecimal digits read back as the number written |
| CustomProperties.DecodeEscape | src/excell/Reader/Excel2003XML.php:376 | `_xHHHH_` decodes to `chr` of the value (the low byte), and the rest is decoded as before |
| CustomProperties.DecodeEncode | src/excell/Reader/Excel2003XML.php:376 | a byte string written entirely in escapes decodes back to itself |
| CustomProperties.DecodeShorter | src/excell/Reader/Excel2003XML.php:376 | decoding never lengthens a name, and shortens it when an escape matches |
| CustomProperties.DecodeUnchanged | src/excell/Reader/Excel2003XML.php:376 | a name is left unchanged exactly when no escape matches anywhere in it |
| CustomProperties.DecodePlainPrefix | src/excell/Reader/Excel2003XML.php:376 | a prefix without `_` is kept as it is |
| CustomProperties.ExampleSpace | src/excell/Reader/Excel2003XML.php:376 | `Project_x0020_Name` becomes `Project Name` |
| CustomProperties.ExampleUpperCase | src/excell/Reader/Excel2003XML.php:376 | `_x00E9_` is left alone: the pattern's class `[0-9a-z]` has no upper case |
| CustomProperties.TrimLeftSpec | src/excell/Reader/Excel2003XML.php:381 | exactly a run of trimmed characters is dropped from the front |
| CustomProperties.TrimRightSpec | src/excell/Reader/Excel2003XML.php:381 | exactly a run of trimmed characters is dropped from the back |
| CustomProperties.TrimSpec | src/excell/Reader/Excel2003XML.php:381 | `trim` gives a slice of the text with only trimmed characters around it and none at its ends |
| CustomProperties.TrimIdempotent | src/excell/Reader/Excel2003XML.php:381 | trimming twice is trimming once |
| CustomProperties.Clamp | src/excell/Reader/Excel2003XML.php:389 | `intval` saturates at the 64-bit bounds and keeps values inside them |
| CustomProperties.IntVal | src/excell/Reader/Excel2003XML.php:389 | `intval` of a text lies in the 64-bit range |
| CustomProperties.ReadWhole | src/excell/Reader/Excel2003XML.php:389 | digits followed by text that starts no fraction and no exponent read as a whole number |
| CustomProperties.ReadNegative | src/excell/Reader/Excel2003XML.php:389 | `-` and digits read as a negative whole number |
| CustomProperties.ReadFraction | src/excell/Reader/Excel2003XML.php:389 | digits, `.` and digits read as a number with that fraction |
| CustomProperties.ReadExponent | src/excell/Reader/Excel2003XML.php:389 | digits, `e` and digits read as a number with that exponent |
| CustomProperties.IntValOfInt | src/excell/Reader/Excel2003XML.php:389 | `intval` of the decimal text of a 64-bit integer is that integer |
| CustomProperties.IntValOfNat | src/excell/Reader/Excel2003XML.php:389 | `intval` reads back the decimal text of a non-negative integer |
| CustomProperties.IntValOfNegative | src/excell/Reader/Excel2003XML.php:389 | `intval` of `-` followed by digits is the negative number |
| CustomProperties.IntValPrefix | src/excell/Reader/Excel2003XML.php:389 | `intval` of digits followed by text that starts no fraction and no exponent is the digits' value |
| CustomProperties.FractionBelowOne | src/excell/Reader/Excel2003XML.php:389 | the digits after a point are worth less than one |
| CustomProperties.FloorOfFraction | src/excell/Reader/Excel2003XML.php:389 | `n` and a fraction below one, as a quotient, truncate to `n` |
| CustomProperties.IntValFraction | src/excell/Reader/Excel2003XML.php:389 | `intval("n.f")` is n: the fraction is cut off |
| CustomProperties.IntValExponent | src/excell/Reader/Excel2003XML.php:389 | `intval("nek")` is n times 10^k, saturated at the 64-bit bounds, and 0 once the value overflows a double |
| CustomProperties.ExampleExponent | src/excell/Reader/Excel2003XML.php:389 | `intval("1e3")` is 1000 |
| CustomProperties.NumeratorNonZero | src/excell/Reader/Excel2003XML.php:629 | a numeral is worth zero exactly when its whole and fraction digits are, whatever its sign and exponent |
| CustomProperties.NumericNonZeroSpec | src/excell/Reader/Excel2003XML.php:629 | a text compares unequal to 0 exactly when it starts, after whitespace, with a numeral whose whole or fraction digits are not all zero |
| CustomProperties.IntValNonZero | src/excell/Reader/Excel2003XML.php:629 | a text that `intval` reads as non-zero also compares unequal to 0 |
| CustomProperties.NonZeroFraction | src/excell/Reader/Excel2003XML.php:629 | `"n.f"` compares unequal to 0 unless n and f are both zero |
| CustomProperties.NonZeroExponent | src/excell/Reader/Excel2003XML.php:629 | `"nek"` compares unequal to 0 exactly when n is not zero, also when the value overflows a double |
| CustomProperties.NonZeroNegative | src/excell/Reader/Excel2003XML.php:629 | `-n` compares unequal to 0 exactly when n is not zero |
| CustomProperties.ExampleNonZero | src/excell/Reader/Excel2003XML.php:629 | `1e3` and `0.5` compare unequal to 0; `0` and `abc` do not |
| CustomProperties.ConvertProperty | src/excell/Reader/Excel2003XML.php:372-400 | the name handed on is the `hex2str`-decoded name and the tag is the one for `dt:dt`; the value for each tag is what `CustomProperties.TypeTagging` states case by case |
| CustomProperties.TypeTagging | src/excell/Reader/Excel2003XML.php:377-399 | `string` is trimmed, `boolean` is true exactly when the element has text, `integer` goes through `intval`, `float` passes its text, `dateTime.tz` its trimmed text; the tag is unknown exactly when the type is missing or not one of the five, and then the text passes unconverted |
| CustomProperties.ExampleBoolean | src/excell/Reader/Excel2003XML.php:383-386 | an empty `boolean` property is false, and one whose text is `0` is true |
| CustomProperties.ExampleInteger | src/excell/Reader/Excel2003XML.php:387-389 | an `integer` property with text ` 42 ` is handed on as 42 |
| CustomProperties.LoadCustomProperties | src/excell/Reader/Excel2003XML.php:373-402 | one call per property element, in order, each with the converted triple |
| Formula.DigitRun | src/excell/Reader/Excel2003XML.php:661 | the `\d*` run stays inside the text |
| Formula.DigitRunSpec | src/excell/Reader/Excel2003XML.php:661 | the run is all digits and ends where the digits do |
| Formula.ParsePart | src/excell/Reader/Excel2003XML.php:661 | a group `\[?-?\d*\]?` parsed at i stays inside the text |
| Formula.ParsePartText | src/excell/Reader/Excel2003XML.php:661 | the group parsed is exactly the text found there |
| Formula.RefAt | src/excell/Reader/Excel2003XML.php:661 | a match at i starts at i and is not empty |
| Formula.RefAtText | src/excell/Reader/Excel2003XML.php:661 | the text of a match is `R`, its row group, `C`, its column group |
| Formula.Scan | src/excell/Reader/Excel2003XML.php:661 | the `preg_match_all` search gives matches in left-to-right order, not overlapping |
| Formula.FindRefs | src/excell/Reader/Excel2003XML.php:661 | the matches of a segment are ordered and do not overlap |
| Formula.ScanMatch | src/excell/Reader/Excel2003XML.php:661 | every match found is what the matcher gives at its own start |
| Formula.FindRefsMatch | src/excell/Reader/Excel2003XML.php:661 | every match found is the match of the pattern at its own start |
| Formula.ScanCovers | src/excell/Reader/Excel2003XML.php:661 | every position where a match could start lies inside some match found |
| Formula.FindRefsCovers | src/excell/Reader/Excel2003XML.php:661 | no reference is missed: every position where the pattern matches is inside a match found |
| Formula.ScanSkip | src/excell/Reader/Excel2003XML.php:661 | positions where nothing matches are passed over |
| Formula.FindRefsSkip | src/excell/Reader/Excel2003XML.php:661 | text without `R` is passed over by the search |
| Formula.FindRefsNone | src/excell/Reader/Excel2003XML.php:661 | a segment without `R` has no matches |
| Formula.SpliceNone | src/excell/Reader/Excel2003XML.php:687 | a segment fails exactly when some matched reference has a column number below 1 |
| Formula.SpliceStep | src/excell/Reader/Excel2003XML.php:665-689 | a replacement right to left keeps the offsets of the matches still to come valid and the result on course |
| Formula.SpliceDone | src/excell/Reader/Excel2003XML.php:665-689 | once every match has been replaced, the text is the left-to-right splice |
| Formula.RewriteSegment | src/excell/Reader/Excel2003XML.php:661-689 | the reversed-match loop with `substr_replace` gives the segment with every match replaced by its address |
| Formula.SegmentWithoutReference | src/excell/Reader/Excel2003XML.php:661-689 | a segment without `R` is kept as it is |
| Formula.OfSegmentShape | src/excell/Reader/Excel2003XML.php:651 | an `of:` segment has no `.` and no `]` afterwards, and gains no `"` |
| Formula.OfSegmentPlain | src/excell/Reader/Excel2003XML.php:651 | an `of:` segment without `[`, `.` or `]` is kept |
| Formula.RewriteOfShape | src/excell/Reader/Excel2003XML.php:646-653 | even-indexed segments are stripped, odd-indexed ones kept, count kept |
| Formula.RewriteEvenShape | src/excell/Reader/Excel2003XML.php:656-660 | on success: same count, odd segments kept, even ones rewritten |
| Formula.RewriteEvenLast | src/excell/Reader/Excel2003XML.php:656-660 | the rewrite of n segments extends the rewrite of the first n - 1 |
| Formula.RewriteEvenPrefix | src/excell/Reader/Excel2003XML.php:656-660 | once a prefix fails, the whole rewrite fails |
| Formula.RewriteOfSegments | src/excell/Reader/Excel2003XML.php:646-653 | the `of:` loop over `$temp` rewrites the array in place into the even-stripped segments |
| Formula.RewriteEntry | src/excell/Reader/Excel2003XML.php:660-689 | one even entry is rewritten in place, or the whole rewrite fails |
| Formula.RewriteR1C1Segments | src/excell/Reader/Excel2003XML.php:656-691 | true exactly when every even segment rewrites, and then the array holds the rewritten segments |
| Formula.TranslateFormula | src/excell/Reader/Excel2003XML.php:644-695 | the reader's block computes the translation of the formula for the cell's row and 1-based column |
| Formula.QuotedSegmentsKept | src/excell/Reader/Excel2003XML.php:644-695 | in both dialects, quoted segments are kept byte for byte, the number of `"` is kept, and only even segments are rewritten |
| Formula.FindRefsNoQuote | src/excell/Reader/Excel2003XML.php:661 | a match in a segment without quotes has no quote in its row digits |
| Formula.NoQuoteInSplice | src/excell/Reader/Excel2003XML.php:688 | replacing references by addresses never brings in a `"` |
| Formula.NoQuoteInAddress | src/excell/Reader/Excel2003XML.php:687 | an A1 address holds no `"` |
| FormulaRefs.DigitRunExact | src/excell/Reader/Excel2003XML.php:661 | the digit run is exactly the digits up to the first non-digit |
| FormulaRefs.ParsePartExact | src/excell/Reader/Excel2003XML.php:661 | a written group followed by a character that cannot extend it is parsed back as that group |
| FormulaRefs.RefAtExact | src/excell/Reader/Excel2003XML.php:661 | a written reference followed by a character that cannot extend it is the match found there |
| FormulaRefs.OffsetPart | src/excell/Reader/Excel2003XML.php:674-677 | the bracketed group `[k]` has the value k |
| FormulaRefs.AbsolutePart | src/excell/Reader/Excel2003XML.php:669 | the bare group `n` has the value n |
| FormulaRefs.WholeReference | src/excell/Reader/Excel2003XML.php:661-689 | a segment that is just one reference becomes that reference's address |
| FormulaRefs.ReferenceInContext | src/excell/Reader/Excel2003XML.php:661-689 | one reference between text without `R` becomes that text around the address, or fails when the address does not exist |
| FormulaRefs.RelativeReference | src/excell/Reader/Excel2003XML.php:674-687 | `R[dr]C[dc]` becomes the column `col + dc` and the row `row + dr`, when that column exists |
| FormulaRefs.AbsoluteReference | src/excell/Reader/Excel2003XML.php:669-687 | `RnCm` becomes column m, row n (m at least 1) |
| FormulaRefs.CurrentReference | src/excell/Reader/Excel2003XML.php:670-682 | `RC` is the current cell |
| FormulaRefs.UnquotedFormula | src/excell/Reader/Excel2003XML.php:644-695 | a formula without quotes is rewritten as one segment |
| FormulaRefs.OneReferenceFormula | src/excell/Reader/Excel2003XML.php:656-695 | an R1C1 formula with one reference and no quotes becomes the text around that reference's address |
| FormulaRefs.RelativeFormula | src/excell/Reader/Excel2003XML.php:656-695 | `=R[dr]C[dc]` becomes `=` and the relative address |
| FormulaRefs.RelativeExample | src/excell/Reader/Excel2003XML.php:674-687 | `=R[-1]C[1]` at row 5, column 3 becomes `=D4` |
| FormulaRefs.AbsoluteExample | src/excell/Reader/Excel2003XML.php:669-687 | `R2C2` at row 5, column 3 becomes `B2` |
| Placement.Advance | src/excell/Reader/Excel2003XML.php:725-729 | after a cell the column moves on by 1 + the merged columns, and the counter is back to 0 |
| Placement.TypedValueSwitch | src/excell/Reader/Excel2003XML.php:600-638 | the type is null exactly when `ss:Type` is missing or none of the five; `String` gives the converted text, `Boolean` gives whether the text, read as a number, is not 0, every other type keeps the text; `Number` and `DateTime` are numeric, `Error` is an error, and no `Data` is a formula |
| Placement.BooleanCells | src/excell/Reader/Excel2003XML.php:627-630 | a `Boolean` cell with text `1e3` or `0.5` is true, and one with `0` or `abc` is false |
| Placement.DataValue | src/excell/Reader/Excel2003XML.php:600-638 | the value and type the walk sets are those of the switch that `Placement.TypedValueSwitch` states case by case |
| Placement.CellValueBlock | src/excell/Reader/Excel2003XML.php:590-703 | only a cell with `Data` gets a value; a formula replaces it, with the translated formula and the value as calculated value |
| Placement.CellContent | src/excell/Reader/Excel2003XML.php:590-724 | value, then comment (author `unknown` by default), then style over the cell's range |
| Placement.MergeCell | src/excell/Reader/Excel2003XML.php:576-588 | a merged cell registers the rectangle c..c+a, r..r+d, and the counter grows by `MergeAcross` |
| Placement.MergeColumnTo | src/excell/Reader/Excel2003XML.php:580 | `stringFromColumnIndex(columnIndexFromString(c) + a - 1)` is column c + a |
| Placement.MergedRange | src/excell/Reader/Excel2003XML.php:577-586 | the range built is the cell's rectangle |
| Placement.PlaceCell | src/excell/Reader/Excel2003XML.php:564-729 | one cell: `ss:Index`, the filter, the merge, the content and the column advance |
| Placement.PlaceAccepted | src/excell/Reader/Excel2003XML.php:576-729 | an accepted cell: merge events then content events, and the column moves past its merge |
| Placement.AcceptedPlacement | src/excell/Reader/Excel2003XML.php:570-729 | an accepted cell is placed at its column, with merge then content events |
| Placement.LoadRow | src/excell/Reader/Excel2003XML.php:562-730 | the cell loop of a row gives the walk's events and whether a cell was set, with the counter at 0 |
| Placement.LoadRowEntry | src/excell/Reader/Excel2003XML.php:556-742 | one row: `ss:Index`, the cells, the height when the row holds data, then the next row number |
| Placement.LoadRows | src/excell/Reader/Excel2003XML.php:552-744 | the row loop gives the events of the row walk |
| Placement.LoadColumnEntry | src/excell/Reader/Excel2003XML.php:540-548 | one `Column`: `ss:Index` moves the cursor, a width is set at the cursor, the cursor advances |
| Placement.LoadColumns | src/excell/Reader/Excel2003XML.php:537-550 | the column loop gives the events of the column walk |
| Placement.LoadWorksheet | src/excell/Reader/Excel2003XML.php:527-744 | a loaded sheet: create it, set its title if named, columns, rows; an unnamed sheet passes the previous name to the filter |
| Placement.LoadWorksheets | src/excell/Reader/Excel2003XML.php:515-746 | the sheet loop gives the events of the sheet walk |
| Placement.WalkCursor | src/excell/Reader/Excel2003XML.php:563-729 | the column cursor and the data flag of a row depend only on the cells, the filter and the row |
| Placement.ColumnOfWalk | src/excell/Reader/Excel2003XML.php:565-567 | the column offered for cell k is its `ss:Index`, or where the cursor stood after the cells before it |
| Placement.CursorPlain | src/excell/Reader/Excel2003XML.php:725-729 | without `ss:Index` and with every cell accepted, the cursor ends at the number of cells plus the merged columns |
| Placement.PlainColumns | src/excell/Reader/Excel2003XML.php:725-729 | without `ss:Index` and with every cell accepted, cell k is at column k plus the columns merged before it |
| Placement.RejectedColumnA | src/excell/Reader/Excel2003XML.php:570-574 | when the filter rejects column A, a row without `ss:Index` produces nothing: the cursor never moves |
| Placement.RowHasDataIff | src/excell/Reader/Excel2003XML.php:702 | a row counts as holding data exactly when some cell with `Data` got past the filter |
| Placement.CursorHasData | src/excell/Reader/Excel2003XML.php:702 | the same for the cursor-and-flag walk |
| Placement.RowHeightIff | src/excell/Reader/Excel2003XML.php:732-740 | a row gets its height exactly when it has `ss:Height` and some accepted cell has `Data` |
| Placement.RowsWalkCursor | src/excell/Reader/Excel2003XML.php:552-559 | the row cursor after the rows is computed from the `ss:Index` values alone |
| Placement.RowCursorPlain | src/excell/Reader/Excel2003XML.php:742 | with no `ss:Index`, the cursor after n rows is n + 1 |
| Placement.RowNumbers | src/excell/Reader/Excel2003XML.php:552-559 | row k is row k + 1 without `ss:Index`; it is the given index when there is one; an unindexed row follows its predecessor by 1, data or not |
| Placement.MergedCell | src/excell/Reader/Excel2003XML.php:576-588 | an accepted merged cell registers its rectangle first, and the cursor moves just right of it |
| Placement.StyleAppliedIff | src/excell/Reader/Excel2003XML.php:716-724 | a style is applied exactly when the cell has `Data` and its entry exists and is not empty, and always to the whole range |
| Placement.CommentOnly | src/excell/Reader/Excel2003XML.php:705-714 | a comment-only cell gets its comment by `unknown` and no value, and does not count as data |
| Placement.SkippedSheetsAbsent | src/excell/Reader/Excel2003XML.php:521-524 | loading under `loadSheetsOnly` is loading just the admitted sheets unrestricted: a skipped sheet leaves no event, takes no sheet index and passes no name on |
| Placement.AllSheetsLoaded | src/excell/Reader/Excel2003XML.php:527-528 | without `loadSheetsOnly` the sheet counter reaches the number of sheets: every sheet is loaded |
| Placement.FormulaCellExample | src/excell/Reader/Excel2003XML.php:641-701 | `=R[-1]C[1]` in C5 with value 7 is stored as `=D4` with calculated value 7 |
| Reader.SignatureParts | src/excell/Reader/Excel2003XML.php:73-76 | the signature is exactly the prolog and the `mso-application` instruction |
| Reader.CharSetAfter | src/excell/Reader/Excel2003XML.php:97-99 | with a sample that is not valid UTF-8 or has no declaration `charSet` keeps its previous value; otherwise it is the capture upper-cased, with no lower-case letter |
| Reader.Excel2003XmlReader.constructor | src/excell/Reader/Excel2003XML.php:36 | a fresh reader has no styles, `UTF-8`, no sheet restriction and a filter accepting everything |
| Reader.Excel2003XmlReader.CanRead | src/excell/Reader/Excel2003XML.php:73-101 | true exactly when both parts occur in the normalised sample; `charSet` becomes `Reader.CharSetAfter` of its previous value: it changes only when the sample is valid UTF-8 and declares an encoding; the other fields are unchanged |
| Reader.Excel2003XmlReader.LoadStyles | src/excell/Reader/Excel2003XML.php:404-513 | the `styles` field becomes the style loop's table started from its previous value |
| Reader.Excel2003XmlReader.ListWorksheetInfo | src/excell/Reader/Excel2003XML.php:144-210 | a missing file is an error with the reader's message; otherwise one entry per sheet, in order, as `WorksheetInfo.SheetInfo` gives it; there is no signature check |
| Reader.Excel2003XmlReader.ListWorksheetNames | src/excell/Reader/Excel2003XML.php:110-136 | missing file and refused file are errors with the reader's messages; otherwise every sheet's converted name, in order |
| Reader.Excel2003XmlReader.LoadIntoExisting | src/excell/Reader/Excel2003XML.php:285-750 | missing file and refused file are errors; otherwise the converted custom properties, the style table extended in the field, and the events of the sheet walk under the new styles and `charSet` |
| Reader.CarriedAcrossLoads | src/excell/Reader/Excel2003XML.php:407 | an entry of a first load whose ID a second load does not reuse is still there, unchanged |
| Reader.CharSetSticks | src/excell/Reader/Excel2003XML.php:97-99 | a file without a declaration, or whose sample is not valid UTF-8, keeps the earlier `charSet`; a declaration PCRE accepts replaces it |
| Reader.AsciiSampleDecides | src/excell/Reader/Excel2003XML.php:97-99 | for an ASCII file the declaration alone decides: none keeps `charSet`, one sets it to the capture upper-cased |
| Reader.Latin1KeepsCharSet | src/excell/Reader/Excel2003XML.php:83-99 | a Latin-1 accented letter before an ASCII byte in the sample keeps the previous `charSet` |
| Reader.SplitCharacterKeepsCharSet | src/excell/Reader/Excel2003XML.php:83-99 | a sample cut after the lead byte of a multi-byte character keeps the previous `charSet` |
| Reader.ShortFileSampledWhole | src/excell/Reader/Excel2003XML.php:83-85 | a file under 2048 bytes is sampled whole, quotes normalised |

## Left out

- File and XML plumbing is not modelled: `openFile`, `fread`, `fclose`, `file_exists`, `file_get_contents`, `securityScan`, `simplexml_load_string` and namespace lookup. The file is given as its name, its contents (absent when the file does not exist) and its parsed tree.
- `convertStringEncoding` (`StringHelper::convertEncoding`) is a parameter `convert`. It is applied only when `charSet` is not `UTF-8`.
- The `DocumentProperties` switch (lines 331-372) is not modelled; it only copies converted strings and parsed dates to the store. The property store itself is not part of this model either; what the reader hands it is.
- Floating point is not modelled:
  - `Number` coercion with `(float)` and `floor` (lines 620-626); the value is kept as its text.
  - `floatval` properties (line 393); the text is passed on.
  - The column width divided by 5.4 (line 546); the width is kept as its text.
  - `pixel2WidthUnits` and `widthUnits2Pixel` (lines 248-270), which nothing calls.
- Dates are not modelled: `strtotime`, `Date::PHPToExcel` and time zones. A `DateTime` cell keeps its text with the numeric type. A `dateTime.tz` property passes its trimmed text.
- Comments: `asXML`, `strip_tags` and rich text are library calls. The comment's text is taken as already stripped.
- `getCell(...)->setValue(null)` before a style (lines 719-721) is not modelled, because only a cell that has just been given a value reaches it.
- `ArrayRange` (lines 595-597) is not modelled; it is read and never used.
- The row `StyleID` (lines 733-735) is not modelled; it is read and never used.
- CustomProperties.NumericNonZero: a `Boolean` data cell is `$cellValue != 0` as PHP 7 evaluates it, with the element's text read as a number. The numeral's exact value is compared with 0. A value so small that the double rounds it to 0 (2^-1075 or less, such as `1e-400`) is therefore `true` here, while PHP gives `false`. PHP 8 casts the element to an integer for this comparison; that is not modelled.
- CustomProperties.ConvertProperty: `(bool)` of an element is also `true` when the element has child elements or attributes without a namespace prefix. The tree holds only a property's text and `dt:dt`, so the model's `boolean` value depends on the text alone.
- Formula.RowText: row and column offsets are unbounded integers. PHP adds them to the current row or column in 64-bit arithmetic and turns a sum outside that range into a float (`R[9223372036854775807]C` in row 5 gives `9.2233720368548E+18`), so those references are not modelled. The same holds for Formula.ColumnNumber.
- CustomProperties.IntVal: follows `intval` from PHP 7.1 on, which reads a leading fraction and exponent (`1e3` is 1000). It takes the numeral's exact value, truncates it and saturates it at the 64-bit bounds, and gives 0 when the value reaches the double overflow limit. The rounding of the numeral to the nearest double is not modelled, so a text whose value rounds across an integer (such as 17 nines after a point) can differ. PHP 7.0, which stops at the first non-digit, is not modelled.
- The `loadSheetsOnly` test uses `in_array`, which compares loosely; the model compares names exactly.
- Formula.Address: `stringFromColumnIndex` is not defined here for column numbers below 1. Such a reference makes the translation `None`, recorded as a `FormulaUnresolved` event.
- Column letters (`stringFromColumnIndex`, `columnIndexFromString`, `++`) come from a class that is not part of this model. They are defined as base-26 letters with A as 0.
- `ss:Index`, `MergeAcross` and `MergeDown` are taken as well-formed numbers in the tree; malformed attribute values are not modelled.
- The style entries are computed as values (`StyleTable`) and assigned to the `styles` field one element at a time. The nested `$this->styles[$id][...][...] = ...` updates inside one element are not modelled in place.
- `src/excell/Writer/PDF/DomPDF.php` is not part of this model. It is a wrapper around a third-party PDF library.
