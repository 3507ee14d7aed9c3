/** The document tree the parsers build. Only plain data: no operation here. */
module Elems {

  import Tittles

  /** Inline content of a line: the source's `LineContent`, restricted to the three variants
      the scanner produces, with its `Content` wrapper folded in. */
  datatype Content =
    | Text(text: string)
    /** `**bold**` or `__bold__` */
    | Bold(text: string)
    /** `*italic*` or `_italic_` */
    | Ltalic(text: string)

  datatype QouteItem = QouteContent(text: string) | Qoute(inner: QouteItem)

  datatype ListItem =
    | Ordered(text: string, children: seq<ListItem>)
    | Plus(text: string, children: seq<ListItem>)
    | Dash(text: string, children: seq<ListItem>)
    | Star(text: string, children: seq<ListItem>)

  datatype Code = Code(attr: string, content: string)

  datatype Table = Table(header: seq<string>, rows: seq<seq<string>>)

  /** A top-level block of the document. */
  datatype BasicItem =
    | Tittle(tittle: Tittles.Tittle)
    | Paragraph(lines: seq<Content>)
    | QouteBlock(qoutes: seq<QouteItem>)
    | List(listItems: seq<ListItem>)
    | CodeBlock(code: Code)
    | HLine
    | Comment(text: string)
    | Latex(text: string)
    | TableBlock(table: Table)

  /** The parsed document: front-matter attributes in input order, then the blocks. */
  datatype Document = Document(attrs: seq<(string, string)>, items: seq<BasicItem>)

  const EmptyDocument := Document([], [])
}
