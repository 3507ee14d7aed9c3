/** The line-driven front-matter parser. Lines arrive one at a time, are trimmed, and drive a
    three-state machine: `---` toggles attribute mode, and each line inside it is split into a
    key and a value. */
module Parse {

  import opened Base
  import opened Strings
  import opened Elems

  datatype ParserState = Begin | DocumentAttr | Document

  const Delimiter := "---"
  const NoValue := "Failed to get value"

  /** `utils::is_header`: a placeholder that accepts every line. */
  function IsHeader(s: string): bool
  {
    true
  }

  /** Splits an attribute line with `split(':')`: the key is the first piece, the value the
      second, both trimmed; later pieces are dropped. A line without `:` has no second piece. */
  function SplitAttr(line: string): (r: Result<(string, string)>)
    ensures r.Err? <==> ':' !in line
    ensures r.Err? ==> r.error == NoValue
  {
    var pieces := Split(line, ':');
    if |pieces| < 2 then Err(NoValue) else Ok((Trim(pieces[0]), Trim(pieces[1])))
  }

  /** The pair in terms of the colons of the line: the key is the trimmed text before the first
      `:`, the value the trimmed text between the first and the second `:` (or the end of the
      line). */
  lemma SplitAttrFields(line: string)
    requires ':' in line
    ensures var i := IndexOf(line, ':').value;
            var rest := line[i + 1..];
            SplitAttr(line) ==
              Ok((Trim(line[..i]),
                  Trim(match IndexOf(rest, ':') case Some(j) => rest[..j] case None => rest)))
  {
    var i := IndexOf(line, ':').value;
    SplitHead(line, ':');
    SplitHead(line[i + 1..], ':');
  }

  /** One pass of the loop body on a trimmed line: the next state and attributes, or the error
      that ends parsing. */
  function Step(state: ParserState, attrs: seq<(string, string)>, line: string)
    : Result<(ParserState, seq<(string, string)>)>
  {
    if state == Begin && line == Delimiter then Ok((DocumentAttr, attrs))
    else if state == DocumentAttr && line == Delimiter then Ok((Begin, attrs))
    else if state == DocumentAttr then
      match SplitAttr(line)
      case Err(e) => Err(e)
      case Ok(kv) => Ok((state, attrs + [kv]))
    else
      // In `Begin` the `is_header` branch is empty; `Document` has no branch at all.
      Ok((state, attrs))
  }

  /** Where a run of the loop over `lines` ends: the final state, the attributes, what is left in
      the line buffer, and the result returned. */
  datatype Outcome = Outcome(state: ParserState, attrs: seq<(string, string)>, buffer: string,
                             result: Result<()>)

  /** The loop of `parse_markdown` over the remaining `lines`, from `state` with the attributes
      `attrs` collected so far. End of input ends it successfully in every state. */
  function Run(state: ParserState, attrs: seq<(string, string)>, lines: seq<string>): Outcome
    decreases |lines|
  {
    if lines == [] then Outcome(state, attrs, "", Ok(()))
    else
      var line := Trim(lines[0]);
      match Step(state, attrs, line)
      case Err(e) => Outcome(state, attrs, line, Err(e))
      case Ok((next, attrs')) => Run(next, attrs', lines[1..])
  }

  /** The parser object: its state, the current line and the document being built. */
  class MarkdownParser {
    var state: ParserState
    var buffer: string
    var document: Document
    var readNewLine: bool

    /** `MarkdownParser::default`. */
    constructor ()
      ensures state == Begin && buffer == "" && document == EmptyDocument && readNewLine
    {
      state := Begin;
      buffer := "";
      document := EmptyDocument;
      readNewLine := true;
    }

    /** `parse_markdown` over the lines of the input (each without its line terminator). */
    method ParseMarkdown(lines: seq<string>) returns (r: Result<()>)
      requires readNewLine
      modifies this
      ensures readNewLine && document.items == old(document.items)
      ensures var o := Run(old(state), old(document.attrs), lines);
              state == o.state && document.attrs == o.attrs && buffer == o.buffer && r == o.result
    {
      var i := 0;
      while true
        invariant i <= |lines| && readNewLine && document.items == old(document.items)
        invariant Run(state, document.attrs, lines[i..]) == Run(old(state), old(document.attrs), lines)
        decreases |lines| - i
      {
        if readNewLine {
          buffer := "";
          if i == |lines| {
            return Ok(());
          }
          buffer := Trim(lines[i]);
          i := i + 1;
        }
        assert lines[i - 1..][1..] == lines[i..];
        ghost var before, attrs := state, document.attrs;
        if state == Begin && buffer == Delimiter {
          state := DocumentAttr;
          readNewLine := true;
        } else if state == DocumentAttr && buffer == Delimiter {
          state := Begin;
          readNewLine := true;
        } else if state == DocumentAttr {
          var kv := SplitAttr(buffer);
          if kv.Err? {
            return Err(kv.error);
          }
          document := document.(attrs := document.attrs + [kv.value]);
          readNewLine := true;
        } else if state == Begin && IsHeader(buffer) {
        }
        assert Step(before, attrs, buffer) == Ok((state, document.attrs));
      }
    }
  }

  /** A line that attribute mode appends: it does not close the block and it has a `:`. */
  predicate IsAttrLine(line: string)
  {
    Trim(line) != Delimiter && ':' in Trim(line)
  }

  /** The lines of an attribute block. */
  predicate AttrBody(body: seq<string>)
  {
    forall k :: 0 <= k < |body| ==> IsAttrLine(body[k])
  }

  /** The pairs an attribute block contributes, one per line and in line order. */
  function AttrsOf(body: seq<string>): (r: seq<(string, string)>)
    requires AttrBody(body)
    ensures |r| == |body|
  {
    if body == [] then [] else [SplitAttr(Trim(body[0])).value] + AttrsOf(body[1..])
  }

  /** Concatenation regrouped; stated apart because the context of `AttrLines` makes the solver
      lose its way on this step. */
  lemma AppendAssoc<T>(a: seq<T>, b: seq<T>, c: seq<T>)
    ensures a + b + c == a + (b + c)
  {
  }

  /** One line of input that the loop accepts moves the run on to the rest of the lines. */
  lemma RunHead(state: ParserState, attrs: seq<(string, string)>, line: string,
                rest: seq<string>)
    requires Step(state, attrs, Trim(line)).Ok?
    ensures var (next, attrs') := Step(state, attrs, Trim(line)).value;
            Run(state, attrs, [line] + rest) == Run(next, attrs', rest)
  {
    assert ([line] + rest)[0] == line && ([line] + rest)[1..] == rest;
  }

  /** Inside attribute mode every line of a block is appended, in order and without merging equal
      keys, and the state stays in attribute mode. */
  lemma {:induction false} AttrLines(attrs: seq<(string, string)>, body: seq<string>,
                                      rest: seq<string>)
    requires AttrBody(body)
    ensures Run(DocumentAttr, attrs, body + rest) == Run(DocumentAttr, attrs + AttrsOf(body), rest)
    decreases |body|
  {
    if body != [] {
      var line, tail := body[0], body[1..];
      assert IsAttrLine(line);
      var kv := SplitAttr(Trim(line)).value;
      assert Step(DocumentAttr, attrs, Trim(line)) == Ok((DocumentAttr, attrs + [kv]));
      assert body + rest == [line] + (tail + rest);
      RunHead(DocumentAttr, attrs, line, tail + rest);
      assert AttrBody(tail) by {
        forall k | 0 <= k < |tail| ensures IsAttrLine(tail[k]) {
          assert tail[k] == body[k + 1];
        }
      }
      AttrLines(attrs + [kv], tail, rest);
      assert AttrsOf(body) == [kv] + AttrsOf(tail);
      AppendAssoc(attrs, [kv], AttrsOf(tail));
    } else {
      assert body + rest == rest && attrs + AttrsOf(body) == attrs;
    }
  }

  /** A front-matter block between two `---` lines appends its pairs in order and returns the
      parser to `Begin`. */
  lemma FrontMatter(attrs: seq<(string, string)>, open: string, body: seq<string>, close: string,
                    rest: seq<string>)
    requires Trim(open) == Delimiter && Trim(close) == Delimiter && AttrBody(body)
    ensures Run(Begin, attrs, [open] + body + [close] + rest) ==
            Run(Begin, attrs + AttrsOf(body), rest)
  {
    assert ([open] + body + [close] + rest)[1..] == body + ([close] + rest);
    AttrLines(attrs, body, [close] + rest);
  }

  /** A block that is never closed is not an error: the input ends in attribute mode with every
      pair appended. */
  lemma UnclosedFrontMatter(attrs: seq<(string, string)>, open: string, body: seq<string>)
    requires Trim(open) == Delimiter && AttrBody(body)
    ensures Run(Begin, attrs, [open] + body) ==
            Outcome(DocumentAttr, attrs + AttrsOf(body), "", Ok(()))
  {
    assert ([open] + body)[1..] == body + [];
    AttrLines(attrs, body, []);
  }

  /** An attribute line without `:` stops parsing with the value error; the attributes, the
      state and the failing line in the buffer are what is left. */
  lemma MissingColonStops(attrs: seq<(string, string)>, line: string, rest: seq<string>)
    requires Trim(line) != Delimiter && ':' !in Trim(line)
    ensures Run(DocumentAttr, attrs, [line] + rest) ==
            Outcome(DocumentAttr, attrs, Trim(line), Err(NoValue))
  {
  }

  /** A closed block does not end attribute parsing for good: a later `---` re-opens attribute
      mode, and the pairs of the second block follow those of the first. */
  lemma ReopenedBlocks(attrs: seq<(string, string)>, first: seq<string>, second: seq<string>,
                       rest: seq<string>)
    requires AttrBody(first) && AttrBody(second)
    ensures Run(Begin, attrs, [Delimiter] + first + [Delimiter] + [Delimiter] + second +
                              [Delimiter] + rest) ==
            Run(Begin, attrs + AttrsOf(first) + AttrsOf(second), rest)
  {
    DelimiterTrimmed();
    var tail := [Delimiter] + second + [Delimiter] + rest;
    assert [Delimiter] + first + [Delimiter] + [Delimiter] + second + [Delimiter] + rest ==
           [Delimiter] + first + [Delimiter] + tail;
    FrontMatter(attrs, Delimiter, first, Delimiter, tail);
    FrontMatter(attrs + AttrsOf(first), Delimiter, second, Delimiter, rest);
  }

  /** Outside attribute mode a line other than `---` changes nothing. */
  lemma BeginSkipsLine(attrs: seq<(string, string)>, line: string, rest: seq<string>)
    requires Trim(line) != Delimiter
    ensures Run(Begin, attrs, [line] + rest) == Run(Begin, attrs, rest)
  {
    assert ([line] + rest)[1..] == rest;
  }

  /** Attributes are only ever appended: what was collected before is a prefix of the result,
      which grows by at most one pair per line. */
  lemma {:induction false} RunOnlyAppends(state: ParserState, attrs: seq<(string, string)>,
                                          lines: seq<string>)
    ensures attrs <= Run(state, attrs, lines).attrs
    ensures |Run(state, attrs, lines).attrs| <= |attrs| + |lines|
    decreases |lines|
  {
    if lines != [] {
      match Step(state, attrs, Trim(lines[0]))
      case Err(_) =>
      case Ok((next, attrs')) => RunOnlyAppends(next, attrs', lines[1..]);
    }
  }

  /** The `Document` state is never entered: a closing `---` goes back to `Begin`. */
  lemma {:induction false} NeverDocument(state: ParserState, attrs: seq<(string, string)>,
                                         lines: seq<string>)
    requires !state.Document?
    ensures !Run(state, attrs, lines).state.Document?
    decreases |lines|
  {
    if lines != [] {
      match Step(state, attrs, Trim(lines[0]))
      case Err(_) =>
      case Ok((next, attrs')) => NeverDocument(next, attrs', lines[1..]);
    }
  }

  /** A line `key:value` whose two parts hold no `:` splits into the trimmed parts. */
  lemma SplitAttrPair(key: string, value: string)
    requires ':' !in key && ':' !in value
    ensures SplitAttr(key + ":" + value) == Ok((Trim(key), Trim(value)))
  {
    var line := key + ":" + value;
    assert line[|key|] == ':' && line[..|key|] == key && line[|key| + 1..] == value;
    SplitAttrFields(line);
    assert IndexOf(line, ':').value == |key|;
  }

  /** `key:value` as the parser sees it once the line is trimmed: the trimmed key and value. */
  lemma AttrLinePair(line: string, key: string, value: string)
    requires line == key + ":" + value && Trim(line) == line
    requires ':' !in key && ':' !in value
    ensures IsAttrLine(line) && SplitAttr(Trim(line)) == Ok((Trim(key), Trim(value)))
  {
    assert line[|key|] == ':';
    SplitAttrPair(key, value);
  }

  /** Text after a second `:` is dropped: `key:value:more` gives the trimmed key and value. */
  lemma SplitAttrDropsExtra(key: string, value: string, more: string)
    requires ':' !in key && ':' !in value
    ensures SplitAttr(key + ":" + value + ":" + more) == Ok((Trim(key), Trim(value)))
  {
    var line := key + ":" + value + ":" + more;
    var rest := value + ":" + more;
    assert line[|key|] == ':' && line[..|key|] == key && line[|key| + 1..] == rest;
    assert rest[|value|] == ':' && rest[..|value|] == value;
    SplitAttrFields(line);
    assert IndexOf(line, ':').value == |key|;
    assert IndexOf(rest, ':').value == |value|;
  }

  /** The only way a run fails: an attribute-mode line (not `---`) without `:`, which is left in
      the buffer together with the value error. */
  lemma {:induction false} RunErrors(state: ParserState, attrs: seq<(string, string)>,
                                     lines: seq<string>)
    ensures var o := Run(state, attrs, lines);
            o.result.Err? ==>
              o.result.error == NoValue && o.state == DocumentAttr &&
              o.buffer != Delimiter && ':' !in o.buffer
    decreases |lines|
  {
    if lines != [] {
      match Step(state, attrs, Trim(lines[0]))
      case Err(_) =>
      case Ok((next, attrs')) => RunErrors(next, attrs', lines[1..]);
    }
  }

  /** The usual layout `key: value`, with a key and a value that need no trimming and hold no
      `:`, is an attribute line that gives exactly `(key, value)`. */
  lemma AttrLineOf(key: string, value: string)
    requires Tight(key) && Tight(value) && ':' !in key && ':' !in value
    ensures IsAttrLine(key + ": " + value)
    ensures SplitAttr(Trim(key + ": " + value)) == Ok((key, value))
  {
    var line := key + ": " + value;
    var padded := " " + value;
    assert line == key + ":" + padded;
    assert line[0] == key[0] && line[|line| - 1] == value[|value| - 1];
    TightTrim(line);
    TightTrim(key);
    assert padded[1..] == value;
    TightTrim(value);
    assert ':' !in padded;
    AttrLinePair(line, key, padded);
  }

  /** The delimiter line is already trimmed. */
  lemma DelimiterTrimmed()
    ensures Trim(Delimiter) == Delimiter
  {
  }

  /** A block of two attribute lines contributes their two pairs. */
  lemma AttrsOfTwo(first: string, second: string)
    requires IsAttrLine(first) && IsAttrLine(second)
    ensures AttrBody([first, second])
    ensures AttrsOf([first, second]) ==
            [SplitAttr(Trim(first)).value, SplitAttr(Trim(second)).value]
  {
    var body := [first, second];
    assert body[1..] == [second] && body[1..][1..] == [];
  }

  /** The four lines regrouped; stated apart for the same reason as `AppendAssoc`. */
  lemma FourLines<T>(a: T, b: T, c: T, d: T)
    ensures [a] + [b, c] + [d] + [] == [a, b, c, d]
  {
  }

  /** A whole document made of one front-matter block with two `key: value` lines: both pairs,
      in order, and the parser back in `Begin`. */
  lemma TwoAttrBlock(key1: string, value1: string, key2: string, value2: string)
    requires Tight(key1) && Tight(value1) && ':' !in key1 && ':' !in value1
    requires Tight(key2) && Tight(value2) && ':' !in key2 && ':' !in value2
    ensures Run(Begin, [], [Delimiter, key1 + ": " + value1, key2 + ": " + value2, Delimiter]) ==
            Outcome(Begin, [(key1, value1), (key2, value2)], "", Ok(()))
  {
    var first, second := key1 + ": " + value1, key2 + ": " + value2;
    AttrLineOf(key1, value1);
    AttrLineOf(key2, value2);
    AttrsOfTwo(first, second);
    DelimiterTrimmed();
    FrontMatter([], Delimiter, [first, second], Delimiter, []);
    FourLines(Delimiter, first, second, Delimiter);
  }

  /** Equal keys are not merged: `---`, `a: 1`, `a: 2`, `---` keeps both pairs, in order. */
  lemma DuplicateKeyExample()
    ensures Run(Begin, [], ["---", "a: 1", "a: 2", "---"]) ==
            Outcome(Begin, [("a", "1"), ("a", "2")], "", Ok(()))
  {
    assert "a: 1" == "a" + ": " + "1" && "a: 2" == "a" + ": " + "2";
    TwoAttrBlock("a", "1", "a", "2");
  }

  /** The source's test input `---`, `key1: value1`, `key2: value2`, `---`. */
  lemma AttrExample()
    ensures Run(Begin, [], ["---", "key1: value1", "key2: value2", "---"]) ==
            Outcome(Begin, [("key1", "value1"), ("key2", "value2")], "", Ok(()))
  {
    assert "key1: value1" == "key1" + ": " + "value1";
    assert "key2: value2" == "key2" + ": " + "value2";
    TwoAttrBlock("key1", "value1", "key2", "value2");
  }
}
