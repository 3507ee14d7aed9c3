/** Title lines: the pattern `(#+)\s(.*)`, searched anywhere in the string. */
module Tittles {

  import opened Base
  import opened Strings

  /** A heading: `level` is the length of the `#` run cast to `u8`, `tittle` the text after the
      separator. */
  datatype Tittle = Tittle(level: u8, tittle: string)

  const NoMatch := "Failed to match"

  /** `s[i..j]` is a non-empty run of `#` followed by whitespace at `j`: a match of `(#+)\s` that
      starts at `i` (the trailing `.*` matches in every case). */
  predicate TitleMatch(s: string, i: int, j: int)
  {
    0 <= i < j < |s| && Repeats(s, '#', i, j) && IsWhitespace(s[j])
  }

  /** The end of the run of `#` that starts at `i`. */
  function HashRunEnd(s: string, i: nat): (r: nat)
    requires i <= |s|
    decreases |s| - i
    ensures i <= r <= |s| && Repeats(s, '#', i, r)
    ensures r == |s| || s[r] != '#'
  {
    if i < |s| && s[i] == '#' then HashRunEnd(s, i + 1) else i
  }

  /** The greedy `#+` cannot stop early: a match starting at `i` ends exactly where the run of
      `#` ends, so each start has at most one match. */
  lemma MatchEndIsRunEnd(s: string, i: nat, j: int)
    requires TitleMatch(s, i, j)
    ensures j == HashRunEnd(s, i)
  {
  }

  /** A match starts on a `#`. */
  lemma NoMatchAt(s: string, a: nat)
    requires a < |s| && s[a] != '#'
    ensures forall b :: !TitleMatch(s, a, b)
  {
  }

  /** The leftmost match starting at or after `i`, as the start and end of its `#` run. */
  function FindFrom(s: string, i: nat): (r: Option<(nat, nat)>)
    requires i <= |s|
    decreases |s| - i
    ensures r.Some? ==> i <= r.value.0 && TitleMatch(s, r.value.0, r.value.1) &&
                        forall a, b :: i <= a < r.value.0 ==> !TitleMatch(s, a, b)
    ensures r.None? ==> forall a, b :: i <= a ==> !TitleMatch(s, a, b)
  {
    if i == |s| then None
    else
      var e := HashRunEnd(s, i);
      if s[i] == '#' && e < |s| && IsWhitespace(s[e]) then Some((i, e))
      else
        var rest := FindFrom(s, i + 1);
        assert forall b :: !TitleMatch(s, i, b) by {
          forall b | TitleMatch(s, i, b) ensures false { MatchEndIsRunEnd(s, i, b); }
        }
        rest
  }

  /** The end of the line that contains index `k`: what the greedy `.*` reaches from `k`. */
  function LineEnd(s: string, k: nat): (r: nat)
    requires k <= |s|
    decreases |s| - k
    ensures k <= r <= |s| && NoNewline(s, k, r)
    ensures r == |s| || s[r] == '\n'
  {
    if k == |s| || s[k] == '\n' then k else LineEnd(s, k + 1)
  }

  /** `Tittle::is`: the pattern matches somewhere in `s`. */
  function Is(s: string): (r: bool)
    ensures r <==> exists i, j :: TitleMatch(s, i, j)
  {
    var m := FindFrom(s, 0);
    assert m.Some? ==> TitleMatch(s, m.value.0, m.value.1);
    m.Some?
  }

  /** `Tittle::new`: the leftmost match's `#` run gives the level, the rest of its line after the
      one separator character gives the text. */
  function New(s: string): (r: Result<Tittle>)
    ensures r.Ok? <==> Is(s)
    ensures r.Err? ==> r.error == NoMatch
    ensures r.Ok? ==> '\n' !in r.value.tittle
  {
    match FindFrom(s, 0)
    case None => Err(NoMatch)
    case Some((i, j)) =>
      var t := s[j + 1..LineEnd(s, j + 1)];
      assert forall k :: 0 <= k < |t| ==> t[k] == s[j + 1 + k];
      Ok(Tittle(AsU8(j - i), t))
  }

  /** What `New` returns, in terms of the leftmost match alone: the run is maximal (no `#` just
      before it), at least one `#` long, and its length is cast to `u8` without any cap. */
  lemma {:induction false} NewFields(s: string, i: nat, j: nat)
    requires TitleMatch(s, i, j)
    requires forall a, b :: a < i ==> !TitleMatch(s, a, b)
    ensures i == 0 || s[i - 1] != '#'
    ensures j - i >= 1
    ensures New(s) == Ok(Tittle(AsU8(j - i), s[j + 1..LineEnd(s, j + 1)]))
  {
    assert i > 0 && s[i - 1] == '#' ==> TitleMatch(s, i - 1, j);
    var m := FindFrom(s, 0);
    var (i', j') := m.value;
    MatchEndIsRunEnd(s, i, j);
    MatchEndIsRunEnd(s, i, j');
  }

  /** The example heading of the source's test. */
  lemma HeaderExample()
    ensures Is("### Header 3")
    ensures New("### Header 3") == Ok(Tittle(3, "Header 3"))
  {
    var s := "### Header 3";
    assert TitleMatch(s, 0, 3);
    NewFields(s, 0, 3);
    assert LineEnd(s, 4) == 12;
    assert s[4..12] == "Header 3";
  }

  /** The pattern is not anchored: a run later in the line is found too. */
  lemma UnanchoredExample()
    ensures New("a ## b") == Ok(Tittle(2, "b"))
  {
    var s := "a ## b";
    assert TitleMatch(s, 2, 4);
    NoMatchAt(s, 0);
    NoMatchAt(s, 1);
    NewFields(s, 2, 4);
    assert LineEnd(s, 5) == 6;
    assert s[5..6] == "b";
  }

  /** There is no cap at six levels, and a run of 256 `#` wraps to level 0. */
  lemma LevelWrapsExample()
    ensures New(seq(256, _ => '#') + " x") == Ok(Tittle(0, "x"))
  {
    var s := seq(256, _ => '#') + " x";
    assert TitleMatch(s, 0, 256);
    NewFields(s, 0, 256);
    assert LineEnd(s, 257) == 258;
    assert s[257..258] == "x";
  }
}
