# mext Markdown core in Dafny

This project models three pieces of the `mext` Markdown parser and proves properties about them.

- **The inline scanner** (`core/src/parser/content.rs`). It recognises bold text (`**…**`, `__…__`) and italic text (`*…*`, `_…_`, which the code spells "ltalic") on a trimmed line. `ContentParser` holds the trimmed line and a growing list of `Content` values. `parse_bold_or_ltalic` appends the earlier-starting span, and bold wins a tie. `parse` walks the line up to its first delimiter.
- **The title recogniser** (`core/src/elems/tittle.rs`). It matches `(#+)\s(.*)` anywhere in a string and builds a `Tittle` from it. The level is the length of the `#` run cast to `u8`. The title is the rest of that line.
- **The front-matter loop** (`core/src/parse.rs`). `MarkdownParser::parse_markdown` reads trimmed lines and drives a three-state machine (`Begin`, `DocumentAttr`, `Document`). A `---` line toggles attribute mode. Every line inside that mode is split on `:` into a key and a value, and the pair is appended to `document.attrs`.

Modules:

- `Base` (`base.dfy`): `Option`, `Result` (errors carry the message text), `u8` and the truncating cast.
- `Strings` (`strings.dfy`):
  - Unicode White_Space, used both by `str::trim` and by the regex class `\s`.
  - `trim`.
  - `split(':')`.
  - Runs of one repeated character.
- `Elems` (`elems.dfy`): the document datatypes, with no behaviour.
- `Tittles` (`tittle.dfy`): the title pattern, written as an explicit leftmost search.
- `Inline` (`inline.dfy`):
  - The two emphasis patterns as explicit searches: the leftmost opener, then the first closer after it (the lazy `.*?`). `.` never crosses a line feed.
  - The `ContentParser` class. `contents` is a `seq<Content>` field, and its methods reassign it.
- `Parse` (`parse.dfy`):
  - The loop is a method of the `MarkdownParser` class, running over a `seq<string>` of lines.
  - It is proved against the pure functions `Step` (one pass of the loop body) and `Run` (the whole loop).
  - Lemmas about `Run` state what a front-matter block does.

Points where the model follows the code exactly as written:

- **`---` inside attribute mode goes back to `Begin`, not to `Document`.** A later `---` therefore opens attribute mode again. The `Document` state is never entered (`Parse.NeverDocument`).
- **Attributes are pushed to a vector.** A repeated key adds a second pair and does not replace the first.
- **`ContentParser::parse` drops the text before the first delimiter.** It returns the delimiter's index plus the span's end, and that end is already counted from the start of the line. So the result can exceed the line length (`Inline.MarkerOffsetParseExample`).
- **With no delimiter, `parse` returns the index of the last character**, not the length (0 for an empty line).
- **`utils::is_header` accepts every line, and its branch does nothing.** A non-`---` line outside attribute mode changes nothing.

## Model

| member | source | states |
|---|---|---|
| Strings.Trim | core/src/parse.rs:46 | `str::trim`: leading then trailing whitespace removed; its meaning is stated by `Strings.TrimSpec` |
| Strings.TrimStartSpec | core/src/parse.rs:46 | leading trim removes exactly the longest whitespace prefix |
| Strings.TrimEndSpec | core/src/parse.rs:46 | trailing trim removes exactly the longest whitespace suffix |
| Strings.TrimSpec | core/src/parser/content.rs:16 | `trim` returns the infix between a whitespace prefix and a whitespace suffix, and neither of its ends is whitespace |
| Strings.TrimIdempotent | core/src/parse.rs:46 | trimming an already trimmed line changes nothing |
| Strings.RunAt | core/src/parser/content.rs:80 | the character-by-character test holds exactly when `w` copies of the delimiter start at `j` |
| Strings.IndexOf | core/src/parse.rs:63 | returns the first occurrence of the character, or none exactly when the character is absent |
| Strings.Split | core/src/parse.rs:63 | the pieces joined with the separator give back the line; no piece holds the separator; there is a single piece exactly when the separator is absent |
| Strings.SplitHead | core/src/parse.rs:63-65 | the first piece is the text before the first separator; the remaining pieces are the split of the text after it |
| Tittles.HashRunEnd | core/src/elems/tittle.rs:22 | the greedy `#+` stops at the first character that is not `#` |
| Tittles.MatchEndIsRunEnd | core/src/elems/tittle.rs:22 | a match at a given start ends exactly where its `#` run ends, so each start has at most one match |
| Tittles.NoMatchAt | core/src/elems/tittle.rs:22 | no match starts on a character other than `#` |
| Tittles.FindFrom | core/src/elems/tittle.rs:30 | returns the leftmost `#`-run-then-whitespace match, or none when no match exists from that point on |
| Tittles.LineEnd | core/src/elems/tittle.rs:22 | `.*` reaches the next line feed or the end of the string, and crosses no line feed |
| Tittles.Is | core/src/elems/tittle.rs:25-27 | true exactly when some run of one or more `#` is followed directly by a whitespace character, anywhere in the string |
| Tittles.New | core/src/elems/tittle.rs:29-47 | succeeds exactly when `Is` holds; otherwise fails with "Failed to match"; the title never holds a line feed |
| Tittles.NewFields | core/src/elems/tittle.rs:32-46 | for the leftmost match, the `#` run is maximal and at least one long; the level is its length cast to `u8` (no cap at 6); the title is the rest of the line after the single separator |
| Tittles.HeaderExample | core/src/elems/tittle.rs:58-69 | `### Header 3` matches and gives level 3 and title `Header 3` |
| Tittles.UnanchoredExample | core/src/elems/tittle.rs:21-22 | the match need not start the line: `a ## b` gives level 2 and title `b` |
| Tittles.LevelWrapsExample | core/src/elems/tittle.rs:44 | a run of 256 `#` gives level 0 |
| Inline.CloseFrom | core/src/parser/content.rs:80 | finds the first closer at or after a position (the lazy `.*?`), or reports none when a line feed or the end of the line comes first |
| Inline.MatchAt | core/src/parser/content.rs:80 | the shortest delimited span that starts at a given index, or none when no span starts there |
| Inline.FindFrom | core/src/parser/content.rs:83-88 | the leftmost delimited span, shortest for its start, or none when no span starts from that point on |
| Inline.ParseBold | core/src/parser/content.rs:78-95 | none exactly when no `**…**`/`__…__` span exists; otherwise the leftmost, shortest span with the two-character delimiters stripped, plus its start and end |
| Inline.ParseLtalic | core/src/parser/content.rs:97-113 | none exactly when no `*…*`/`_…_` span exists; otherwise the leftmost, shortest span with the delimiters stripped, plus its start and end |
| Inline.BoldOrLtalic | core/src/parser/content.rs:55-73 | the choice `parse_bold_or_ltalic` makes between the two matches, the earlier start with bold on a tie; its meaning is stated by `Inline.BoldOrLtalicChoice` |
| Inline.LastCharIndex | core/src/parser/content.rs:25-48 | the value of `cidx` after the loop: the index of the last character, 0 for an empty line; `Inline.ContentParser.Parse` returns it and `Inline.PlainParseExample` shows it |
| Inline.FirstMarker | core/src/parser/content.rs:27-44 | the first `*` or `_` of the line, or none exactly when the line has neither |
| Inline.ContentParser.constructor | core/src/parser/content.rs:14-19 | the parser holds the trimmed line and no content |
| Inline.ContentParser.ParseBoldOrLtalic | core/src/parser/content.rs:51-75 | on a chosen span, appends exactly its content and returns its end; otherwise fails with "No bold or ltalic found" and leaves `contents` unchanged |
| Inline.ContentParser.Parse | core/src/parser/content.rs:21-49 | with no delimiter, appends one `Text` holding the whole trimmed line and returns the last character's index; otherwise returns the first delimiter's index plus the chosen span's end, appends that span's content, and drops the text before the delimiter |
| Inline.BoldOpensLtalic | core/src/parser/content.rs:99 | every bold span begins with an (empty) italic span at the same start |
| Inline.NoCloserInside | core/src/parser/content.rs:80 | a reported span holds no closer strictly inside it and no line feed |
| Inline.LtalicPayload | core/src/parser/content.rs:104-106 | the italic payload holds neither its delimiter nor a line feed |
| Inline.BoldPayload | core/src/parser/content.rs:86-88 | the bold payload holds no doubled delimiter, does not end with the delimiter, and holds no line feed |
| Inline.LtalicNoLater | core/src/parser/content.rs:55-57 | whenever a bold span exists, an italic span exists too and starts no later |
| Inline.ChosenBold | core/src/parser/content.rs:57-59 | when the bold start is not after the italic start, the bold span is the leftmost span of either kind and carries its payload |
| Inline.ChosenLtalic | core/src/parser/content.rs:60-62 | when the italic span starts first (or there is no bold span), it is the leftmost span of either kind, carries its payload, and no bold span starts there |
| Inline.BoldOrLtalicChoice | core/src/parser/content.rs:55-73 | no span exactly when no italic span exists; otherwise the span starts at the leftmost position where either kind starts; it is bold exactly when a bold span starts there (bold wins the tie), and italic otherwise; its end is within the line |
| Inline.CloseFromExtends | core/src/parser/content.rs:80 | text appended after the first closer does not change it |
| Inline.OpensAtStart | core/src/parser/content.rs:83-88 | a span that opens at index 0 and first closes at a given point is the reported span |
| Inline.CloseFromSkips | core/src/parser/content.rs:80 | the closer search passes over characters that are neither the delimiter nor a line feed |
| Inline.BoldOf | core/src/parser/content.rs:78-88 | a doubled delimiter, a payload without that delimiter or a line feed, and the doubled delimiter again give that bold span, starting at 0 and ending after the closing pair, whatever text follows |
| Inline.LtalicOf | core/src/parser/content.rs:97-106 | a delimiter, a non-empty payload without that delimiter or a line feed, and the delimiter again give that italic span, starting at 0, whatever text follows |
| Inline.BoldExample | core/src/parser/content.rs:121-127 | a line that opens with a doubled delimiter yields the bold span, ahead of the empty italic span at the same start |
| Inline.BoldStarSpacedExample | core/src/parser/content.rs:142 | `**abcd asdas **` gives `Bold("abcd asdas ")` ending at 15 |
| Inline.BoldStarBlankExample | core/src/parser/content.rs:143 | `** **` gives `Bold(" ")` ending at 5 |
| Inline.BoldStarEmptyExample | core/src/parser/content.rs:144 | `****` gives the empty `Bold("")` ending at 4 |
| Inline.BoldStarLazyExample | core/src/parser/content.rs:145 | `**abcd asdas ****asdasd**` gives `Bold("abcd asdas ")` ending at 15 |
| Inline.BoldUnderscoreSpacedExample | core/src/parser/content.rs:147 | `__abcd asdas __` gives `Bold("abcd asdas ")` ending at 15 |
| Inline.BoldUnderscoreBlankExample | core/src/parser/content.rs:148 | `__ __` gives `Bold(" ")` ending at 5 |
| Inline.BoldUnderscoreEmptyExample | core/src/parser/content.rs:149 | `____` gives the empty `Bold("")` ending at 4 |
| Inline.BoldUnderscoreLazyExample | core/src/parser/content.rs:150 | `__abcd asdas ____asdasd__` gives `Bold("abcd asdas ")` ending at 15 |
| Inline.LtalicExample | core/src/parser/content.rs:129-136 | a line that opens with a single delimiter yields the italic span that starts there |
| Inline.LtalicSpacedExample | core/src/parser/content.rs:152 | `*abcd asdas *` gives `Ltalic("abcd asdas ")` ending at 13 |
| Inline.LtalicBlankExample | core/src/parser/content.rs:153 | `* *` gives `Ltalic(" ")` ending at 3 |
| Inline.LtalicEmptyExample | core/src/parser/content.rs:154 | `**` gives the empty `Ltalic("")` ending at 2 |
| Inline.LtalicBeforeBoldExample | core/src/parser/content.rs:155 | `*abcd asdas **asdasd**` gives `Ltalic("abcd asdas ")` ending at 13, ahead of the later bold span |
| Inline.MarkerOffsetExample | core/src/parser/content.rs:33 | on `ab*c*` the first delimiter is at 2 and the chosen span `*c*` ends at 5, measured from the start of the line |
| Inline.BoldParserExample | core/src/parser/content.rs:121-127 | a fresh parser on `**abcd asdas **` followed by `parse_bold_or_ltalic` returns 15 and holds exactly `[Bold("abcd asdas ")]` |
| Inline.LtalicParserExample | core/src/parser/content.rs:129-136 | a fresh parser on `*abcd asdas *` followed by `parse_bold_or_ltalic` returns 13 and holds exactly `[Ltalic("abcd asdas ")]` |
| Inline.MarkerOffsetParseExample | core/src/parser/content.rs:21-49 | `parse` on `ab*c*` returns 7, past the end of the five-character line, and emits only `Ltalic("c")` |
| Inline.PlainParseExample | core/src/parser/content.rs:39-48 | `parse` on `abc` emits `[Text("abc")]` and returns 2, the last character's index |
| Parse.SplitAttr | core/src/parse.rs:63-66 | fails with "Failed to get value" exactly when the line holds no `:` |
| Parse.SplitAttrFields | core/src/parse.rs:63-66 | the key is the trimmed text before the first `:`; the value is the trimmed text between the first and the second `:`, or to the end of the line |
| Parse.SplitAttrPair | core/src/parse.rs:63-66 | `key:value` with no other `:` gives the trimmed key and the trimmed value |
| Parse.SplitAttrDropsExtra | core/src/parse.rs:63-66 | text after a second `:` is dropped |
| Parse.AttrLinePair | core/src/parse.rs:62-70 | an already trimmed `key:value` line is appended in attribute mode as the trimmed pair |
| Parse.Step | core/src/parse.rs:52-73 | one pass of the loop body on a trimmed line: the next state and attributes, or the value error; `Parse.RunHead`, `Parse.AttrLines` and `Parse.RunErrors` state what it does |
| Parse.Run | core/src/parse.rs:36-74 | the whole loop over the remaining lines, ending successfully at end of input in every state; `Parse.MarkdownParser.ParseMarkdown` is proved equal to it, and `Parse.FrontMatter`, `Parse.UnclosedFrontMatter`, `Parse.RunErrors`, `Parse.NeverDocument` and `Parse.RunOnlyAppends` state its meaning |
| Parse.MarkdownParser.constructor | core/src/parse.rs:21-30 | the parser starts in `Begin` with an empty buffer, an empty document and `read_new_line` set |
| Parse.MarkdownParser.ParseMarkdown | core/src/parse.rs:33-75 | the final state, attributes, buffer and result are those of `Run` over the input lines; the document's items are untouched |
| Parse.RunHead | core/src/parse.rs:36-74 | a line the loop body accepts moves the run on to the remaining lines in the state and with the attributes the body produced |
| Parse.AttrLines | core/src/parse.rs:62-71 | in attribute mode, every line of a block is appended as one pair, in order and without merging equal keys, and the mode stays on |
| Parse.FrontMatter | core/src/parse.rs:52-61 | `---`, attribute lines, `---` append the block's pairs in order and return to `Begin` |
| Parse.UnclosedFrontMatter | core/src/parse.rs:42-43 | a block that is never closed ends successfully, in attribute mode, with every pair appended |
| Parse.MissingColonStops | core/src/parse.rs:66 | an attribute-mode line without `:` (an empty line included) stops parsing with "Failed to get value", leaving the attributes as they were and the line in the buffer |
| Parse.RunErrors | core/src/parse.rs:62-66 | the only failure is the value error, raised in attribute mode on a line that is neither `---` nor holds a `:` |
| Parse.ReopenedBlocks | core/src/parse.rs:57-61 | a later `---` re-opens attribute mode, and the second block's pairs follow the first block's |
| Parse.IsHeader | core/src/parse.rs:83-85 | `utils::is_header` accepts every line; its meaning in the loop is stated by `Parse.BeginSkipsLine` |
| Parse.BeginSkipsLine | core/src/parse.rs:72-73 | outside attribute mode, a line other than `---` changes nothing |
| Parse.RunOnlyAppends | core/src/parse.rs:70 | the attributes collected earlier stay a prefix, and at most one pair is added per line |
| Parse.NeverDocument | core/src/parse.rs:57-61 | the `Document` state is never entered |
| Parse.AttrLineOf | core/src/parse.rs:62-70 | a `key: value` line whose key and value need no trimming and hold no `:` is an attribute line that gives exactly `(key, value)` |
| Parse.TwoAttrBlock | core/src/parse.rs:36-73 | a document of `---`, two `key: value` lines and `---` yields both pairs in order, ends in `Begin` and succeeds |
| Parse.DuplicateKeyExample | core/src/parse.rs:70 | `---`, `a: 1`, `a: 2`, `---` keeps both pairs for `a`, in order |
| Parse.AttrExample | core/src/parse.rs:96-111 | the test document yields `[("key1", "value1"), ("key2", "value2")]`, ends in `Begin` and succeeds |

## Left out

- Reading input: the `BufReader`, `read_line`, its I/O errors and the line terminators. The input is a sequence of lines, each given without its terminator.
- Logging (`log::debug!`) and the test logger setup.
- The lazily compiled regex statics and their `expect` on compilation failure. Each of the three patterns is written out as an explicit search; no general regex engine is modelled.
- Byte offsets: the source reports UTF-8 byte positions, and the model uses character positions. They coincide on ASCII text.
- The errors "Failed to get key", "Failed to get index" and "Failed to get tittle". `split` always yields a first piece, and a successful match always has both capture groups, so these errors cannot occur.
- The `trim` applied to the `#` run in `Tittle::new`. The run holds only `#`, so trimming it changes nothing.
- The other Markdown constructs: lists, quotes, tables, code blocks, comments, display math, links, images, inline code, dates and references. They are declared as data only, with no parsing code.
- `Elems.Content` stands for the source's `LineContent` restricted to the three variants the scanner produces (`Text`, `Bold`, `Ltalic`); the source's `Content` struct wrapper around it is folded in. The other ten variants (`Delete`, `Image`, `Hyperlink`, `Latex`, `Code` with its `Color`/`TimeDate`/`TimeConjob` payloads, `Attr`, `FootnoteAttr`, `WarningAttr`, `DashAttr`, `Reference`) and their payload types are not mirrored, because no modelled operation builds them.
- The `serde` derives and `MarkdownParser::document`, which only hands the document back.
