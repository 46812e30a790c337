/** The column count both collection scripts read off a grid's computed
    `grid-template-columns`: `template.split(" ").filter(Boolean).length`. */
module GridColumns {

  /** `s.split(" ")`: the pieces between single spaces, empty ones included. */
  function Split(s: string): (r: seq<string>)
    ensures |r| >= 1
    ensures forall p :: p in r ==> ' ' !in p
    decreases |s|
  {
    if s == [] then [""]
    else
      var rest := Split(s[1..]);
      if s[0] == ' ' then [""] + rest
      else
        assert rest[0] in rest;
        [[s[0]] + rest[0]] + rest[1..]
  }

  /** `pieces.join(" ")`. */
  function Join(pieces: seq<string>): string
    decreases |pieces|
  {
    if pieces == [] then ""
    else if |pieces| == 1 then pieces[0]
    else pieces[0] + " " + Join(pieces[1..])
  }

  /** Splitting on spaces loses nothing: joining the pieces back gives the template. */
  lemma {:induction false} SplitJoin(s: string)
    ensures Join(Split(s)) == s
    decreases |s|
  {
    if s != [] {
      SplitJoin(s[1..]);
      var rest := Split(s[1..]);
      if s[0] != ' ' {
        var r := Split(s);
        assert r[0] == [s[0]] + rest[0] && r[1..] == rest[1..];
        if |rest| == 1 {
          assert s == [s[0]] + s[1..];
        } else {
          assert Join(rest) == rest[0] + " " + Join(rest[1..]);
          assert s == [s[0]] + s[1..];
        }
      } else {
        assert s == [' '] + s[1..];
      }
    }
  }

  /** `.filter(Boolean).length`: the number of non-empty pieces. */
  function NonEmpty(pieces: seq<string>): nat
    decreases |pieces|
  {
    if pieces == [] then 0
    else (if pieces[0] != "" then 1 else 0) + NonEmpty(pieces[1..])
  }

  /** The column count of a template (`|| 0` never applies: a length is a number). */
  function Cols(template: string): nat
  {
    NonEmpty(Split(template))
  }

  /** An independent count: the characters that end a word, that is a
      non-space followed by a space or by the end of the template. */
  function WordEnds(s: string): nat
    decreases |s|
  {
    if s == [] then 0
    else (if s[0] != ' ' && (|s| == 1 || s[1] == ' ') then 1 else 0) + WordEnds(s[1..])
  }

  lemma {:induction false} FirstPieceEmpty(s: string)
    ensures Split(s)[0] == "" <==> s == [] || s[0] == ' '
  {
  }

  /** The column count is the number of space-separated words, however many
      spaces separate or surround them. */
  lemma {:induction false} ColsCountsWords(s: string)
    ensures Cols(s) == WordEnds(s)
    decreases |s|
  {
    if s != [] {
      ColsCountsWords(s[1..]);
      var rest := Split(s[1..]);
      FirstPieceEmpty(s[1..]);
      if s[0] != ' ' {
        var r := Split(s);
        assert r[1..] == rest[1..];
        assert NonEmpty(rest) == (if rest[0] != "" then 1 else 0) + NonEmpty(rest[1..]);
      } else {
        assert Split(s)[1..] == rest;
      }
    }
  }

  /** An empty template has no columns, while the computed value `none` of
      a box that is not a grid counts as one. */
  lemma ColsExamples()
    ensures Cols("") == 0
    ensures Cols("none") == 1
    ensures Cols("1fr 1fr") == 2
  {
    SplitNone();
    SplitTwoTracks();
  }

  lemma SplitNone()
    ensures Split("none") == ["none"]
  {
    assert Split("e") == ["e"] by { assert "e"[1..] == ""; assert ['e'] + "" == "e"; }
    assert Split("ne") == ["ne"] by { assert "ne"[1..] == "e"; assert ['n'] + "e" == "ne"; }
    assert Split("one") == ["one"] by { assert "one"[1..] == "ne"; assert ['o'] + "ne" == "one"; }
    assert "none"[1..] == "one";
    assert ['n'] + "one" == "none";
  }

  lemma SplitTrack()
    ensures Split("1fr") == ["1fr"]
  {
    assert Split("r") == ["r"] by { assert "r"[1..] == ""; assert ['r'] + "" == "r"; }
    assert Split("fr") == ["fr"] by { assert "fr"[1..] == "r"; assert ['f'] + "r" == "fr"; }
    assert "1fr"[1..] == "fr";
    assert ['1'] + "fr" == "1fr";
  }

  lemma SplitTwoTracks()
    ensures Split("1fr 1fr") == ["1fr", "1fr"]
  {
    SplitTrack();
    assert Split(" 1fr") == ["", "1fr"] by { assert " 1fr"[1..] == "1fr"; }
    assert Split("r 1fr") == ["r", "1fr"] by { assert "r 1fr"[1..] == " 1fr"; assert ['r'] + "" == "r"; }
    assert Split("fr 1fr") == ["fr", "1fr"] by { assert "fr 1fr"[1..] == "r 1fr"; assert ['f'] + "r" == "fr"; }
    assert "1fr 1fr"[1..] == "fr 1fr";
    assert ['1'] + "fr" == "1fr";
  }
}
