/** The bold/italic scanner of a single line. The two regular expressions
    `(\*\*.*?\*\*|__.*?__)` and `(\*.*?\*|_.*?_)` are written out as explicit searches:
    leftmost opener first, then the earliest closer after it (the lazy `.*?`), with `.` never
    crossing a line feed. */
module Inline {

  import opened Base
  import opened Strings
  import opened Elems

  const NoBoldOrLtalic := "No bold or ltalic found"

  /** The two emphasis delimiters. */
  predicate IsMarker(c: char)
  {
    c == '*' || c == '_'
  }

  /** `s[start..end]` is one match of `D{w}.*?D{w}` for a delimiter `D` (`w == 2` for bold,
      `w == 1` for italic): it opens and closes with `w` copies of the same delimiter and has
      no line feed in between. Says nothing about which match the engine reports. */
  predicate Delimited(s: string, w: nat, start: int, end: int)
  {
    1 <= w && 0 <= start && start + 2 * w <= end <= |s| && IsMarker(s[start]) &&
    RepeatsAt(s, s[start], w, start) && RepeatsAt(s, s[start], w, end - w) &&
    NoNewline(s, start + w, end - w)
  }

  /** The match the regex engine reports: the leftmost start, and for that start the shortest
      match. */
  ghost predicate FirstMatch(s: string, w: nat, start: int, end: int)
  {
    Delimited(s, w, start, end) &&
    (forall a, b :: a < start ==> !Delimited(s, w, a, b)) &&
    (forall b :: b < end ==> !Delimited(s, w, start, b))
  }

  /** The first closer (`w` copies of `d`) at or after `k`, unless a line feed comes first. */
  function CloseFrom(s: string, d: char, w: nat, k: nat): (r: Option<nat>)
    requires 1 <= w && d != '\n' && k <= |s|
    decreases |s| - k
    ensures r.Some? ==> k <= r.value && RepeatsAt(s, d, w, r.value) && NoNewline(s, k, r.value) &&
                        forall j :: k <= j < r.value ==> !RepeatsAt(s, d, w, j)
    ensures r.None? ==> forall j :: k <= j <= |s| && NoNewline(s, k, j) ==> !RepeatsAt(s, d, w, j)
  {
    if k + w > |s| then None
    else if RunAt(s, d, w, k) then Some(k)
    else if s[k] == '\n' then None
    else CloseFrom(s, d, w, k + 1)
  }

  /** The shortest match that starts at `i`, as its end. */
  function MatchAt(s: string, w: nat, i: nat): (r: Option<nat>)
    requires 1 <= w && i <= |s|
    ensures r.Some? ==> Delimited(s, w, i, r.value) && forall b :: b < r.value ==> !Delimited(s, w, i, b)
    ensures r.None? ==> forall b :: !Delimited(s, w, i, b)
  {
    if i < |s| && IsMarker(s[i]) && RunAt(s, s[i], w, i) then
      match CloseFrom(s, s[i], w, i + w)
      case Some(j) => Some(j + w)
      case None => None
    else None
  }

  /** The leftmost match starting at or after `i`, shortest for its start. */
  function FindFrom(s: string, w: nat, i: nat): (r: Option<(nat, nat)>)
    requires 1 <= w && i <= |s|
    decreases |s| - i
    ensures r.Some? ==> i <= r.value.0 && Delimited(s, w, r.value.0, r.value.1) &&
                        (forall a, b :: i <= a < r.value.0 ==> !Delimited(s, w, a, b)) &&
                        (forall b :: b < r.value.1 ==> !Delimited(s, w, r.value.0, b))
    ensures r.None? ==> forall a, b :: i <= a ==> !Delimited(s, w, a, b)
  {
    if i == |s| then None
    else match MatchAt(s, w, i)
      case Some(e) => Some((i, e))
      case None => FindFrom(s, w, i + 1)
  }

  /** `parse_bold`: the reported `**…**` / `__…__` match with both delimiters stripped, with its
      start and end. */
  function ParseBold(s: string): (r: Option<(Content, nat, nat)>)
    ensures r.None? <==> forall a, b :: !Delimited(s, 2, a, b)
    ensures r.Some? ==> FirstMatch(s, 2, r.value.1, r.value.2) &&
                        r.value.0 == Bold(s[r.value.1 + 2..r.value.2 - 2])
  {
    match FindFrom(s, 2, 0)
    case None => None
    case Some((a, b)) => Some((Bold(s[a + 2..b - 2]), a, b))
  }

  /** `parse_ltalic`: the reported `*…*` / `_…_` match with both delimiters stripped, with its
      start and end. */
  function ParseLtalic(s: string): (r: Option<(Content, nat, nat)>)
    ensures r.None? <==> forall a, b :: !Delimited(s, 1, a, b)
    ensures r.Some? ==> FirstMatch(s, 1, r.value.1, r.value.2) &&
                        r.value.0 == Ltalic(s[r.value.1 + 1..r.value.2 - 1])
  {
    match FindFrom(s, 1, 0)
    case None => None
    case Some((a, b)) => Some((Ltalic(s[a + 1..b - 1]), a, b))
  }

  /** The choice `parse_bold_or_ltalic` makes: the earlier-starting span, bold on a tie. */
  function BoldOrLtalic(s: string): Option<(Content, nat, nat)>
  {
    match (ParseBold(s), ParseLtalic(s))
    case (Some(b), Some(l)) => if b.1 <= l.1 then Some(b) else Some(l)
    case (Some(b), None) => Some(b)
    case (None, Some(l)) => Some(l)
    case (None, None) => None
  }

  /** The first index of a delimiter in `s`. */
  function FirstMarker(s: string, from: nat := 0): (r: Option<nat>)
    requires from <= |s|
    decreases |s| - from
    ensures r.Some? ==> from <= r.value < |s| && IsMarker(s[r.value]) &&
                        forall k :: from <= k < r.value ==> !IsMarker(s[k])
    ensures r.None? <==> forall k :: from <= k < |s| ==> !IsMarker(s[k])
  {
    if from == |s| then None
    else if IsMarker(s[from]) then Some(from)
    else FirstMarker(s, from + 1)
  }

  /** The index of the last character, or 0 for the empty string. */
  function LastCharIndex(s: string): nat
  {
    if |s| == 0 then 0 else |s| - 1
  }

  /** The scanner over one trimmed line, collecting the content it recognises. */
  class ContentParser {
    const origin: string
    var contents: seq<Content>

    /** `ContentParser::new`: the line is trimmed once, up front. */
    constructor (s: string)
      ensures origin == Trim(s) && contents == []
    {
      origin := Trim(s);
      contents := [];
    }

    /** `parse_bold_or_ltalic`: appends the chosen span's content and returns its end, or fails
        and leaves `contents` alone. */
    method ParseBoldOrLtalic() returns (r: Result<nat>)
      modifies this
      ensures match BoldOrLtalic(origin)
        case Some((c, _, end)) => r == Ok(end) && contents == old(contents) + [c]
        case None => r == Err(NoBoldOrLtalic) && contents == old(contents)
    {
      var bold := ParseBold(origin);
      var ltalic := ParseLtalic(origin);
      match (bold, ltalic) {
        case (Some(b), Some(l)) =>
          if b.1 <= l.1 {
            contents := contents + [b.0];
            r := Ok(b.2);
          } else {
            contents := contents + [l.0];
            r := Ok(l.2);
          }
        case (Some(b), None) =>
          contents := contents + [b.0];
          r := Ok(b.2);
        case (None, Some(l)) =>
          contents := contents + [l.0];
          r := Ok(l.2);
        case (None, None) =>
          r := Err(NoBoldOrLtalic);
      }
    }

    /** `parse`: walks the line up to its first delimiter. Without one, the whole line becomes a
        single `Text` and the last character's index is returned; at the first delimiter, the
        index of that delimiter plus the end `ParseBoldOrLtalic` reports for the whole line is
        returned, and the characters before the delimiter are not emitted. */
    method Parse() returns (r: Result<nat>)
      modifies this
      ensures match FirstMarker(origin)
        case None => r == Ok(LastCharIndex(origin)) && contents == old(contents) + [Text(origin)]
        case Some(idx) =>
          match BoldOrLtalic(origin)
          case Some((c, _, end)) => r == Ok(idx + end) && contents == old(contents) + [c]
          case None => r == Err(NoBoldOrLtalic) && contents == old(contents)
    {
      var s := "";
      var cidx := 0;
      var i := 0;
      while i < |origin|
        invariant i <= |origin|
        invariant forall k :: 0 <= k < i ==> !IsMarker(origin[k])
        invariant s == origin[..i]
        invariant cidx == LastCharIndex(s)
        invariant contents == old(contents)
      {
        var c := origin[i];
        if c == '*' || c == '_' {
          var advance := ParseBoldOrLtalic();
          if advance.Err? {
            return Err(advance.error);
          }
          return Ok(i + advance.value);
        }
        s := s + [c];
        cidx := i;
        i := i + 1;
      }
      assert s == origin;
      contents := contents + [Text(s)];
      return Ok(cidx);
    }
  }

  /** Every bold match begins with an italic match: `**` (or `__`) is itself `*…*` with an empty
      payload. */
  lemma BoldOpensLtalic(s: string, a: int, b: int)
    requires Delimited(s, 2, a, b)
    ensures Delimited(s, 1, a, a + 2)
  {
  }

  /** The lazy close: a reported span holds no closer strictly inside it. For italic the payload
      holds no copy of the delimiter; for bold no two adjacent copies, and it does not end with
      one. No payload crosses a line feed. */
  lemma {:induction false} NoCloserInside(s: string, w: nat, start: int, end: int)
    requires FirstMatch(s, w, start, end)
    ensures forall j :: start + w <= j < end - w ==> !RepeatsAt(s, s[start], w, j)
    ensures '\n' !in s[start + w..end - w]
  {
    forall j | start + w <= j < end - w && RepeatsAt(s, s[start], w, j)
      ensures false
    {
      assert Delimited(s, w, start, j + w);
    }
  }

  /** The payload of `parse_ltalic` holds neither the delimiter nor a line feed. */
  lemma LtalicPayload(s: string)
    requires ParseLtalic(s).Some?
    ensures var (c, start, _) := ParseLtalic(s).value; s[start] !in c.text && '\n' !in c.text
  {
    var (c, start, end) := ParseLtalic(s).value;
    NoCloserInside(s, 1, start, end);
    forall k | 0 <= k < |c.text| ensures c.text[k] != s[start] {
      assert c.text[k] == s[start + 1 + k];
      assert !RepeatsAt(s, s[start], 1, start + 1 + k);
    }
  }

  /** The payload of `parse_bold` holds no doubled delimiter, does not end with the delimiter,
      and holds no line feed. */
  lemma BoldPayload(s: string)
    requires ParseBold(s).Some?
    ensures var (c, start, _) := ParseBold(s).value;
            var p, d := c.text, s[start];
            (forall k :: 0 <= k < |p| - 1 ==> !(p[k] == d && p[k + 1] == d)) &&
            (p == [] || p[|p| - 1] != d) && '\n' !in p
  {
    var (c, start, end) := ParseBold(s).value;
    var p, d := c.text, s[start];
    NoCloserInside(s, 2, start, end);
    forall k | 0 <= k < |p| - 1 && p[k] == d && p[k + 1] == d ensures false {
      assert RepeatsAt(s, d, 2, start + 2 + k);
    }
    if p != [] && p[|p| - 1] == d {
      assert RepeatsAt(s, d, 2, end - 3);
    }
  }

  /** A bold match brings an italic match that starts no later. */
  lemma LtalicNoLater(s: string)
    requires ParseBold(s).Some?
    ensures ParseLtalic(s).Some? && ParseLtalic(s).value.1 <= ParseBold(s).value.1
  {
    var (_, bs, be) := ParseBold(s).value;
    BoldOpensLtalic(s, bs, be);
  }

  /** When a bold span is chosen: it starts where the italic span does, and nothing of either
      kind starts earlier. */
  lemma ChosenBold(s: string)
    requires ParseBold(s).Some? && ParseLtalic(s).Some?
    requires ParseBold(s).value.1 <= ParseLtalic(s).value.1
    ensures var (c, start, end) := ParseBold(s).value;
      start < end <= |s| &&
      (forall a, b :: a < start ==> !Delimited(s, 1, a, b) && !Delimited(s, 2, a, b)) &&
      FirstMatch(s, 2, start, end) && c == Bold(s[start + 2..end - 2])
  {
    LtalicNoLater(s);
  }

  /** When an italic span is chosen: no bold span starts at or before it. */
  lemma ChosenLtalic(s: string)
    requires ParseLtalic(s).Some?
    requires ParseBold(s).None? || ParseLtalic(s).value.1 < ParseBold(s).value.1
    ensures var (c, start, end) := ParseLtalic(s).value;
      start < end <= |s| &&
      (forall a, b :: a < start ==> !Delimited(s, 1, a, b) && !Delimited(s, 2, a, b)) &&
      FirstMatch(s, 1, start, end) && c == Ltalic(s[start + 1..end - 1]) &&
      forall b :: !Delimited(s, 2, start, b)
  {
  }

  /** What `parse_bold_or_ltalic` chooses, without reference to the code: nothing exactly when no
      italic-shaped span exists; otherwise a span at the leftmost position where either kind
      can start, bold when a bold span starts there and italic when none does, delimiters
      stripped, ending within the line. */
  lemma {:induction false} BoldOrLtalicChoice(s: string)
    ensures BoldOrLtalic(s).None? <==> forall a, b :: !Delimited(s, 1, a, b)
    ensures BoldOrLtalic(s).Some? ==>
      var (c, start, end) := BoldOrLtalic(s).value;
      start < end <= |s| &&
      (forall a, b :: a < start ==> !Delimited(s, 1, a, b) && !Delimited(s, 2, a, b)) &&
      (c.Bold? || c.Ltalic?) &&
      (c.Bold? ==> FirstMatch(s, 2, start, end) && c.text == s[start + 2..end - 2]) &&
      (c.Ltalic? ==> FirstMatch(s, 1, start, end) && c.text == s[start + 1..end - 1] &&
                     forall b :: !Delimited(s, 2, start, b))
  {
    if ParseBold(s).Some? {
      LtalicNoLater(s);
      if ParseBold(s).value.1 <= ParseLtalic(s).value.1 {
        ChosenBold(s);
      } else {
        ChosenLtalic(s);
      }
    } else if ParseLtalic(s).Some? {
      ChosenLtalic(s);
    }
  }

  /** The closer search looks no further than the closer it finds: text appended after it
      changes nothing. */
  lemma {:induction false} CloseFromExtends(s: string, t: string, d: char, w: nat, k: nat)
    requires 1 <= w && d != '\n' && k <= |s| && CloseFrom(s, d, w, k).Some?
    ensures CloseFrom(s + t, d, w, k) == CloseFrom(s, d, w, k)
    decreases |s| - k
  {
    var u := s + t;
    if k + w <= |s| {
      assert forall i :: 0 <= i < |s| ==> u[i] == s[i];
      assert RunAt(u, d, w, k) == RunAt(s, d, w, k);
      if !RunAt(s, d, w, k) {
        CloseFromExtends(s, t, d, w, k + 1);
      }
    }
  }

  /** A span that opens at index 0 and first closes at `close` is the one reported. */
  lemma OpensAtStart(s: string, w: nat, close: nat)
    requires 1 <= w <= |s| && IsMarker(s[0]) && RunAt(s, s[0], w, 0)
    requires CloseFrom(s, s[0], w, w) == Some(close)
    ensures FindFrom(s, w, 0) == Some((0, close + w))
  {
  }

  /** The closer search passes over characters that are neither the delimiter nor a line feed. */
  lemma {:induction false} CloseFromSkips(s: string, d: char, w: nat, k: nat, m: nat)
    requires 1 <= w && d != '\n' && k <= m <= |s|
    requires forall j :: k <= j < m ==> s[j] != d && s[j] != '\n'
    ensures CloseFrom(s, d, w, k) == CloseFrom(s, d, w, m)
    decreases m - k
  {
    if k < m && k + w <= |s| {
      assert s[k] != d && s[k] != '\n';
      assert !RunAt(s, d, w, k);
      CloseFromSkips(s, d, w, k + 1, m);
    }
  }

  /** A line that opens with a doubled delimiter, then a payload without that delimiter or a
      line feed, then the doubled delimiter again, yields that bold span whatever follows: the
      first closing pair ends it. */
  lemma BoldOf(d: char, p: string, t: string)
    requires IsMarker(d) && d !in p && '\n' !in p
    ensures BoldOrLtalic([d, d] + p + [d, d] + t) == Some((Bold(p), 0, |p| + 4))
  {
    var s := [d, d] + p + [d, d] + t;
    var close := |p| + 2;
    assert s[2..close] == p;
    forall j | 2 <= j < close ensures s[j] != d && s[j] != '\n' {
      assert s[j] == p[j - 2];
    }
    CloseFromSkips(s, d, 2, 2, close);
    assert RunAt(s, d, 2, close) by {
      assert s[close] == d && s[close + 1] == d;
    }
    BoldExample(s, close, p);
  }

  /** A line that opens with a single delimiter, then a non-empty payload without that delimiter
      or a line feed, then the delimiter again, yields that italic span whatever follows. */
  lemma LtalicOf(d: char, p: string, t: string)
    requires IsMarker(d) && p != [] && d !in p && '\n' !in p
    ensures BoldOrLtalic([d] + p + [d] + t) == Some((Ltalic(p), 0, |p| + 2))
  {
    var s := [d] + p + [d] + t;
    var close := |p| + 1;
    assert s[1..close] == p;
    forall j | 1 <= j < close ensures s[j] != d && s[j] != '\n' {
      assert s[j] == p[j - 1];
    }
    CloseFromSkips(s, d, 1, 1, close);
    assert RunAt(s, d, 1, close) by {
      assert s[close] == d;
    }
    assert s[1] == p[0];
    LtalicExample(s, close, p);
  }

  /** The bold examples of the source's tests: a bold span at index 0 wins the tie with the
      empty italic span `**` that also starts there. */
  lemma BoldExample(s: string, close: nat, payload: string)
    requires 4 <= |s| && IsMarker(s[0]) && s[1] == s[0]
    requires CloseFrom(s, s[0], 2, 2) == Some(close) && s[2..close] == payload
    ensures BoldOrLtalic(s) == Some((Bold(payload), 0, close + 2))
  {
    OpensAtStart(s, 2, close);
    assert CloseFrom(s, s[0], 1, 1) == Some(1);
    OpensAtStart(s, 1, 1);
  }

  /* The examples below take the example line as a parameter pinned by their `requires`,
     rather than writing the literal in the `ensures`: with a literal argument the verifier
     unfolds the whole search on it eagerly, which is far more costly than going through
     `BoldOf`/`LtalicOf`. */
  lemma BoldStarSpacedExample(s: string)
    requires s == "**abcd asdas **"
    ensures BoldOrLtalic(s) == Some((Bold("abcd asdas "), 0, 15))
  {
    assert s == ['*', '*'] + "abcd asdas " + ['*', '*'] + "";
    BoldOf('*', "abcd asdas ", "");
  }

  lemma BoldStarBlankExample(s: string)
    requires s == "** **"
    ensures BoldOrLtalic(s) == Some((Bold(" "), 0, 5))
  {
    assert s == ['*', '*'] + " " + ['*', '*'] + "";
    BoldOf('*', " ", "");
  }

  lemma BoldStarEmptyExample(s: string)
    requires s == "****"
    ensures BoldOrLtalic(s) == Some((Bold(""), 0, 4))
  {
    assert s == ['*', '*'] + "" + ['*', '*'] + "";
    BoldOf('*', "", "");
  }

  lemma BoldStarLazyExample(s: string)
    requires s == "**abcd asdas ****asdasd**"
    ensures BoldOrLtalic(s) == Some((Bold("abcd asdas "), 0, 15))
  {
    assert "**abcd asdas **" == ['*', '*'] + "abcd asdas " + ['*', '*'];
    assert s == "**abcd asdas **" + "**asdasd**";
    BoldOf('*', "abcd asdas ", "**asdasd**");
  }

  lemma BoldUnderscoreSpacedExample(s: string)
    requires s == "__abcd asdas __"
    ensures BoldOrLtalic(s) == Some((Bold("abcd asdas "), 0, 15))
  {
    assert s == ['_', '_'] + "abcd asdas " + ['_', '_'] + "";
    BoldOf('_', "abcd asdas ", "");
  }

  lemma BoldUnderscoreBlankExample(s: string)
    requires s == "__ __"
    ensures BoldOrLtalic(s) == Some((Bold(" "), 0, 5))
  {
    assert s == ['_', '_'] + " " + ['_', '_'] + "";
    BoldOf('_', " ", "");
  }

  lemma BoldUnderscoreEmptyExample(s: string)
    requires s == "____"
    ensures BoldOrLtalic(s) == Some((Bold(""), 0, 4))
  {
    assert s == ['_', '_'] + "" + ['_', '_'] + "";
    BoldOf('_', "", "");
  }

  lemma BoldUnderscoreLazyExample(s: string)
    requires s == "__abcd asdas ____asdasd__"
    ensures BoldOrLtalic(s) == Some((Bold("abcd asdas "), 0, 15))
  {
    assert "__abcd asdas __" == ['_', '_'] + "abcd asdas " + ['_', '_'];
    assert s == "__abcd asdas __" + "__asdasd__";
    BoldOf('_', "abcd asdas ", "__asdasd__");
  }

  /** The italic examples of the source's tests: no bold span starts at index 0, so the italic
      span there wins. */
  lemma LtalicExample(s: string, close: nat, payload: string)
    requires 2 <= |s| && IsMarker(s[0]) && s[1] != s[0]
    requires CloseFrom(s, s[0], 1, 1) == Some(close) && s[1..close] == payload
    ensures BoldOrLtalic(s) == Some((Ltalic(payload), 0, close + 1))
  {
    OpensAtStart(s, 1, close);
    assert MatchAt(s, 2, 0).None?;
  }

  lemma LtalicSpacedExample(s: string)
    requires s == "*abcd asdas *"
    ensures BoldOrLtalic(s) == Some((Ltalic("abcd asdas "), 0, 13))
  {
    assert s == ['*'] + "abcd asdas " + ['*'] + "";
    LtalicOf('*', "abcd asdas ", "");
  }

  lemma LtalicBlankExample(s: string)
    requires s == "* *"
    ensures BoldOrLtalic(s) == Some((Ltalic(" "), 0, 3))
  {
    assert s == ['*'] + " " + ['*'] + "";
    LtalicOf('*', " ", "");
  }

  /** The earlier-starting italic span wins over the bold span `**asdasd**` further on. */
  lemma LtalicBeforeBoldExample(s: string)
    requires s == "*abcd asdas **asdasd**"
    ensures BoldOrLtalic(s) == Some((Ltalic("abcd asdas "), 0, 13))
  {
    assert "*abcd asdas *" == ['*'] + "abcd asdas " + ['*'];
    assert s == "*abcd asdas *" + "*asdasd**";
    LtalicOf('*', "abcd asdas ", "*asdasd**");
  }

  /** `**` alone holds no bold span (it needs four delimiters) but is an empty italic span. */
  lemma LtalicEmptyExample()
    ensures BoldOrLtalic("**") == Some((Ltalic(""), 0, 2))
  {
    var s := "**";
    assert CloseFrom(s, '*', 1, 1) == Some(1);
    OpensAtStart(s, 1, 1);
    assert MatchAt(s, 2, 0).None? && MatchAt(s, 2, 1).None?;
    assert ParseBold(s).None?;
    assert FindFrom(s, 1, 0) == Some((0, 2));
    assert s[1..1] == "";
  }

  /** `parse` adds the marker's index to an end that is already counted from the start of the
      line: on `ab*c*` the first marker is at 2 and the span `*c*` ends at 5, so `parse` reports
      7, past the end of the five-character line. */
  lemma MarkerOffsetExample()
    ensures FirstMarker("ab*c*") == Some(2)
    ensures BoldOrLtalic("ab*c*") == Some((Ltalic("c"), 2, 5))
  {
    var s := "ab*c*";
    assert CloseFrom(s, '*', 1, 3) == Some(4);
    assert MatchAt(s, 1, 0).None? && MatchAt(s, 1, 1).None?;
    assert MatchAt(s, 1, 2) == Some(5);
    assert FindFrom(s, 1, 0) == Some((2, 5));
    assert MatchAt(s, 2, 2).None? && MatchAt(s, 2, 3).None? && MatchAt(s, 2, 4).None?;
    assert FindFrom(s, 2, 0).None?;
    assert s[3..4] == "c";
  }

  /** The harness of the source's bold tests: a fresh parser on `**abcd asdas **`, then
      `parse_bold_or_ltalic`, then the first content. */
  method BoldParserExample() returns (r: Result<nat>, contents: seq<Content>)
    ensures r == Ok(15) && contents == [Bold("abcd asdas ")]
  {
    var s := "**abcd asdas **";
    TightTrim(s);
    BoldStarSpacedExample(s);
    var parser := new ContentParser(s);
    r := parser.ParseBoldOrLtalic();
    contents := parser.contents;
  }

  /** The harness of the source's italic tests on `*abcd asdas *`. */
  method LtalicParserExample() returns (r: Result<nat>, contents: seq<Content>)
    ensures r == Ok(13) && contents == [Ltalic("abcd asdas ")]
  {
    var s := "*abcd asdas *";
    TightTrim(s);
    LtalicSpacedExample(s);
    var parser := new ContentParser(s);
    r := parser.ParseBoldOrLtalic();
    contents := parser.contents;
  }

  /** `parse` on `ab*c*` returns 7, past the end of the five-character line, and emits only
      the italic span: `ab` is dropped. */
  method MarkerOffsetParseExample() returns (r: Result<nat>, contents: seq<Content>)
    ensures r == Ok(7) && contents == [Ltalic("c")]
  {
    var s := "ab*c*";
    TightTrim(s);
    MarkerOffsetExample();
    var parser := new ContentParser(s);
    r := parser.Parse();
    contents := parser.contents;
  }

  /** `parse` on a line without a delimiter emits the whole line as text and returns the index
      of its last character, 2 for `abc`. */
  method PlainParseExample() returns (r: Result<nat>, contents: seq<Content>)
    ensures r == Ok(2) && contents == [Text("abc")]
  {
    var s := "abc";
    TightTrim(s);
    assert FirstMarker(s).None?;
    var parser := new ContentParser(s);
    r := parser.Parse();
    contents := parser.contents;
  }
}
