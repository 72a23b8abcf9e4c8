/** The already-parsed XML Spreadsheet 2003 document the reader walks.
    Attributes in the `ss` namespace appear as optional fields; element
    order is kept as sequence order. Loading the file, the security scan
    and SimpleXML's namespace lookup happen before this tree exists. */
module Tree {

  import opened Wrappers

  /** A 1-based column number given by an `ss:Index` attribute. */
  type ColumnNumber = n: int | n >= 1 witness 1

  /** One attribute, in document order. */
  datatype Attr = Attr(key: string, value: string)

  /** A child element of a `Style` element, by element name. */
  datatype StyleChild =
    | AlignmentNode(attrs: seq<Attr>)
      /** the attributes of each `Border` child, in order */
    | BordersNode(borders: seq<seq<Attr>>)
    | FontNode(attrs: seq<Attr>)
    | InteriorNode(attrs: seq<Attr>)
    | NumberFormatNode(attrs: seq<Attr>)
    | ProtectionNode(attrs: seq<Attr>)
    | OtherNode(name: string, attrs: seq<Attr>)

  /** A `Style` element: its `ss:ID` and its children. */
  datatype StyleNode = StyleNode(id: Option<string>, children: seq<StyleChild>)

  /** A cell's `Data` element: its `ss:Type` and its text content. */
  datatype DataNode = DataNode(dataType: Option<string>, text: string)

  /** A cell's `Comment` element: `ss:Author` and the body with markup
      already stripped (`asXML` and `strip_tags` are library calls). */
  datatype CommentNode = CommentNode(author: Option<string>, text: string)

  datatype CellNode = CellNode(
    index: Option<ColumnNumber>,
    mergeAcross: Option<nat>,
    mergeDown: Option<nat>,
    formula: Option<string>,
    styleId: Option<string>,
    data: Option<DataNode>,
    comment: Option<CommentNode>)

  datatype RowNode = RowNode(
    index: Option<int>,
    styleId: Option<string>,
    height: Option<string>,
    cells: seq<CellNode>)

  /** A `Column` element of a table: `ss:Index` and `ss:Width`. */
  datatype ColumnNode = ColumnNode(index: Option<ColumnNumber>, width: Option<string>)

  /** A `Worksheet` element: `ss:Name` and its `Table`'s columns and rows
      (a sheet without a `Table` has none). */
  datatype Worksheet = Worksheet(name: Option<string>, columns: seq<ColumnNode>, rows: seq<RowNode>)

  /** One child of `CustomDocumentProperties`: element name, `dt:dt`
      attribute and text. */
  datatype CustomPropertyNode = CustomPropertyNode(name: string, dtType: Option<string>, text: string)

  datatype Document = Document(
    customProperties: seq<CustomPropertyNode>,
    styles: seq<StyleNode>,
    worksheets: seq<Worksheet>)

  predicate HasData(c: CellNode) { c.data.Some? }
}
