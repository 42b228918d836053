/**
 * The string helpers of src/debugger.cpp: `split`, which tokenises a
 * command line with `std::getline`, and `is_prefix`.
 */
module Text {

  // -----------------------------------------------------------------------
  // Splitting on a delimiter
  // -----------------------------------------------------------------------

  /**
   * The pieces of `s` between delimiters, including an empty piece before a
   * leading delimiter, between two adjacent ones and after a trailing one.
   * There is always one more piece than there are delimiters.
   */
  function Pieces(s: string, delim: char): (p: seq<string>)
    ensures |p| >= 1
    decreases |s|
  {
    if s == [] then [[]]
    else
      var p := Pieces(s[..|s| - 1], delim);
      var c := s[|s| - 1];
      if c == delim then p + [[]]
      else p[..|p| - 1] + [p[|p| - 1] + [c]]
  }

  /** The pieces glued back together with one delimiter between neighbours. */
  function Join(ts: seq<string>, delim: char): string
    requires |ts| >= 1
  {
    if |ts| == 1 then ts[0]
    else Join(ts[..|ts| - 1], delim) + [delim] + ts[|ts| - 1]
  }

  /**
   * The tokens the `std::getline` loop of `split` produces: every piece,
   * except that a last piece that is empty is never extracted.
   */
  function Tokens(s: string, delim: char): (t: seq<string>)
    ensures s == [] ==> t == []
    ensures forall i :: 0 <= i < |t| ==> delim !in t[i]
  {
    PiecesAvoidDelimiter(s, delim);
    var p := Pieces(s, delim);
    if p[|p| - 1] == [] then p[..|p| - 1] else p
  }

  /** No piece contains the delimiter. */
  lemma {:induction false} PiecesAvoidDelimiter(s: string, delim: char)
    ensures forall i :: 0 <= i < |Pieces(s, delim)| ==> delim !in Pieces(s, delim)[i]
    decreases |s|
  {
    if s != [] {
      PiecesAvoidDelimiter(s[..|s| - 1], delim);
    }
  }

  /** There is exactly one more piece than there are delimiters in `s`. */
  lemma {:induction false} PiecesCount(s: string, delim: char)
    ensures |Pieces(s, delim)| == multiset(s)[delim] + 1
    decreases |s|
  {
    if s != [] {
      PiecesCount(s[..|s| - 1], delim);
      assert s == s[..|s| - 1] + [s[|s| - 1]];
    }
  }

  /** The last piece is empty exactly when `s` is empty or ends with the delimiter. */
  lemma LastPieceEmpty(s: string, delim: char)
    ensures var p := Pieces(s, delim);
      p[|p| - 1] == [] <==> (s == [] || s[|s| - 1] == delim)
  {
  }

  /** Joining the pieces gives the string back. */
  lemma {:induction false} JoinPieces(s: string, delim: char)
    ensures Join(Pieces(s, delim), delim) == s
    decreases |s|
  {
    if s != [] {
      var init := s[..|s| - 1];
      var c := s[|s| - 1];
      var p := Pieces(init, delim);
      JoinPieces(init, delim);
      if c == delim {
        assert (p + [[]])[..|p|] == p;
      } else {
        JoinLast(p, delim, c);
      }
      assert init + [c] == s;
    }
  }

  /** Appending a character to the last piece appends it to the joined string. */
  lemma JoinLast(p: seq<string>, delim: char, c: char)
    requires |p| >= 1
    ensures Join(p[..|p| - 1] + [p[|p| - 1] + [c]], delim) == Join(p, delim) + [c]
  {
    var q := p[..|p| - 1] + [p[|p| - 1] + [c]];
    if |p| > 1 {
      assert q[..|q| - 1] == p[..|p| - 1];
    }
  }

  /** Splitting a string made by joining delimiter-free pieces gives the pieces back. */
  lemma {:induction false} PiecesJoin(ts: seq<string>, delim: char)
    requires |ts| >= 1
    requires forall i :: 0 <= i < |ts| ==> delim !in ts[i]
    ensures Pieces(Join(ts, delim), delim) == ts
    decreases |ts|
  {
    if |ts| == 1 {
      PiecesOfPlain([], ts[0], delim);
      assert [] + ts[0] == ts[0];
    } else {
      var init := ts[..|ts| - 1];
      PiecesJoin(init, delim);
      PiecesJoinStep(init, ts[|ts| - 1], delim);
      assert init + [ts[|ts| - 1]] == ts;
    }
  }

  /** The induction step of `PiecesJoin`: one more delimiter-free piece. */
  lemma PiecesJoinStep(init: seq<string>, last: string, delim: char)
    requires |init| >= 1 && Pieces(Join(init, delim), delim) == init
    requires delim !in last
    ensures Pieces(Join(init, delim) + [delim] + last, delim) == init + [last]
  {
    var j := Join(init, delim) + [delim];
    assert Pieces(j, delim) == init + [[]] by {
      assert j[..|j| - 1] == Join(init, delim);
    }
    PiecesOfPlain(j, last, delim);
    assert (init + [[]])[..|init|] == init;
    assert [] + last == last;
  }

  /** Appending one character other than the delimiter extends the last piece by it. */
  lemma PiecesSnoc(s: string, c: char, delim: char)
    requires c != delim
    ensures var p := Pieces(s, delim);
      Pieces(s + [c], delim) == p[..|p| - 1] + [p[|p| - 1] + [c]]
  {
    var sc := s + [c];
    assert sc[..|sc| - 1] == s;
    assert sc[|sc| - 1] == c;
  }

  /**
   * Appending delimiter-free text `t` to `s` extends the last piece of `s`
   * by `t` and leaves the other pieces alone.
   */
  lemma {:induction false} PiecesOfPlain(s: string, t: string, delim: char)
    requires delim !in t
    ensures var p := Pieces(s, delim);
      Pieces(s + t, delim) == p[..|p| - 1] + [p[|p| - 1] + t]
    decreases |t|, 1
  {
    if t == [] {
      var p := Pieces(s, delim);
      assert s + t == s;
      assert p[|p| - 1] + t == p[|p| - 1];
      assert p[..|p| - 1] + [p[|p| - 1]] == p;
    } else {
      PiecesOfPlainStep(s, t[..|t| - 1], t[|t| - 1], delim);
      assert t[..|t| - 1] + [t[|t| - 1]] == t;
    }
  }

  /** The induction step of `PiecesOfPlain`: text `t` followed by one more character `c`. */
  lemma {:induction false} PiecesOfPlainStep(s: string, t: string, c: char, delim: char)
    requires delim !in t + [c]
    ensures var p := Pieces(s, delim);
      Pieces(s + (t + [c]), delim) == p[..|p| - 1] + [p[|p| - 1] + (t + [c])]
    decreases |t| + 1, 0
  {
    assert delim !in t && c != delim by {
      assert forall k :: 0 <= k < |t| ==> (t + [c])[k] == t[k];
      assert (t + [c])[|t|] == c;
    }
    PiecesOfPlain(s, t, delim);
    PiecesSnoc(s + t, c, delim);
    assert s + (t + [c]) == (s + t) + [c];
    ExtendLast(Pieces(s, delim), t, c);
  }

  /** Extending the last string of a list by `t` and then by `c` extends it by `t + [c]`. */
  lemma ExtendLast(p: seq<string>, t: string, c: char)
    requires |p| >= 1
    ensures var q := p[..|p| - 1] + [p[|p| - 1] + t];
      q[..|q| - 1] + [q[|q| - 1] + [c]] == p[..|p| - 1] + [p[|p| - 1] + (t + [c])]
  {
    var q := p[..|p| - 1] + [p[|p| - 1] + t];
    assert q[..|q| - 1] == p[..|p| - 1];
    assert (p[|p| - 1] + t) + [c] == p[|p| - 1] + (t + [c]);
  }

  /**
   * `split` on a line made of delimiter-free tokens, the last one non-empty,
   * gives those tokens back.
   */
  lemma TokensOfJoin(ts: seq<string>, delim: char)
    requires |ts| >= 1 && ts[|ts| - 1] != []
    requires forall i :: 0 <= i < |ts| ==> delim !in ts[i]
    ensures Tokens(Join(ts, delim), delim) == ts
  {
    PiecesJoin(ts, delim);
  }

  /**
   * What `split` returns: tokens free of the delimiter that, joined back,
   * give the line (less its trailing delimiter, if any); one token per
   * delimiter, plus one when the line does not end with a delimiter.
   */
  lemma TokensSpec(s: string, delim: char)
    ensures var t := Tokens(s, delim);
      && (forall i :: 0 <= i < |t| ==> delim !in t[i])
      && |t| == multiset(s)[delim] + (if s == [] || s[|s| - 1] == delim then 0 else 1)
      && (s == [] <==> t == [])
      && (t != [] ==> Join(t, delim) + (if s[|s| - 1] == delim then [delim] else []) == s)
  {
    var p := Pieces(s, delim);
    PiecesAvoidDelimiter(s, delim);
    PiecesCount(s, delim);
    LastPieceEmpty(s, delim);
    JoinPieces(s, delim);
    if s != [] && s[|s| - 1] == delim {
      var init := s[..|s| - 1];
      assert p == Pieces(init, delim) + [[]];
      assert p[..|p| - 1] == Pieces(init, delim);
      JoinPieces(init, delim);
      assert init + [delim] == s;
    }
  }

  /** Adjacent delimiters give an empty token between them. */
  lemma SplitAdjacentDelimiters()
    ensures Tokens("a  b", ' ') == ["a", "", "b"]
  {
    var ts: seq<string> := ["a", "", "b"];
    assert Join(ts, ' ') == "a  b" by {
      assert ts[..2] == ["a", ""] && ts[..2][..1] == ["a"];
    }
    TokensOfJoin(ts, ' ');
  }

  /** A trailing delimiter gives no empty token after it. */
  lemma SplitTrailingDelimiter()
    ensures Tokens("a ", ' ') == ["a"]
  {
    var t := Tokens("a ", ' ');
    TokensSpec("a ", ' ');
    assert multiset("a ")[' '] == 1;
    assert t[0] + [' '] == "a ";
  }

  /**
   * `split`: extract tokens with `std::getline(ss, item, delimiter)` until it
   * fails, i.e. until it reaches the end of the string without extracting a
   * single character.
   */
  method Split(s: string, delim: char) returns (out: seq<string>)
    ensures out == Tokens(s, delim)
  {
    out := [];
    var item: string := [];
    var i := 0;
    while i < |s|
      invariant 0 <= i <= |s|
      invariant out + [item] == Pieces(s[..i], delim)
    {
      assert s[..i + 1][..i] == s[..i];
      if s[i] == delim {
        out := out + [item];
        item := [];
      } else {
        item := item + [s[i]];
      }
      i := i + 1;
    }
    assert s[..i] == s;
    var p := Pieces(s, delim);
    assert p[..|p| - 1] == out;
    if item != [] {
      out := out + [item];
    }
  }

  // -----------------------------------------------------------------------
  // Prefixes
  // -----------------------------------------------------------------------

  /**
   * `is_prefix(s, of)`: false when `s` is longer than `of`, otherwise whether
   * `s` equals the first `|s|` characters of `of`.
   */
  function IsPrefix(s: string, of: string): (r: bool)
    ensures r <==> |s| <= |of| && s == of[..|s|]
  {
    if |s| > |of| then false
    else if s == [] then true
    else s[0] == of[0] && IsPrefix(s[1..], of[1..])
  }
}
