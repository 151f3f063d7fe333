/** Java's `String.split("\\s")`, as DataStorage.addData uses it to cut a line
    into pieces.

    The pattern `\s` matches exactly one character of the class
    [ \t\n\x0B\f\r], so a run of k whitespace characters yields k separators
    and k - 1 empty pieces between them.  With the default limit of zero Java
    then (1) returns the whole input as the only piece when the pattern does not
    occur in it at all (so "" splits to [""]), (2) keeps an empty leading piece
    when the input starts with whitespace, and (3) drops every empty piece at
    the end of the result. */
module WhitespaceSplit {

  /** The characters that Java's `\s` matches (no Unicode flag is set). */
  predicate IsWhitespace(c: char) {
    c == ' ' || c == '\t' || c == '\n' || c == '\r' || c as int == 0x0B || c as int == 0x0C
  }

  /** The characters of `s` that the pattern matches, in order. */
  function Separators(s: string): (seps: seq<char>)
    ensures |seps| <= |s|
  {
    if s == [] then [] else (if IsWhitespace(s[0]) then [s[0]] else []) + Separators(s[1..])
  }

  /** True when the pattern occurs somewhere in `s`. */
  predicate HasWhitespace(s: string) {
    Separators(s) != []
  }

  /** Every piece between consecutive separators, before Java drops the empty
      pieces at the end: one more piece than there are separators. */
  function RawPieces(s: string): (pieces: seq<string>)
    ensures |pieces| == |Separators(s)| + 1
  {
    if s == [] then [[]]
    else
      var rest := RawPieces(s[1..]);
      if IsWhitespace(s[0]) then [[]] + rest
      else [[s[0]] + rest[0]] + rest[1..]
  }

  /** Puts the pieces back together with the separators between them. */
  function Join(pieces: seq<string>, seps: seq<char>): (joined: string)
    requires |pieces| == |seps| + 1
  {
    if seps == [] then pieces[0] else pieces[0] + [seps[0]] + Join(pieces[1..], seps[1..])
  }

  /** `pieces` with its trailing empty strings removed. */
  function DropTrailingEmpty(pieces: seq<string>): (r: seq<string>)
    ensures r <= pieces
    ensures r == [] || r[|r| - 1] != []
    ensures forall i :: |r| <= i < |pieces| ==> pieces[i] == []
  {
    if pieces == [] || pieces[|pieces| - 1] != [] then pieces
    else DropTrailingEmpty(pieces[..|pieces| - 1])
  }

  /** `s.split("\\s")` in Java. */
  function Split(s: string): (pieces: seq<string>)
    ensures |pieces| <= |Separators(s)| + 1
  {
    if !HasWhitespace(s) then [s] else DropTrailingEmpty(RawPieces(s))
  }

  lemma JoinPrepend(c: char, pieces: seq<string>, seps: seq<char>)
    requires |pieces| == |seps| + 1
    ensures Join([[c] + pieces[0]] + pieces[1..], seps) == [c] + Join(pieces, seps)
  {
    if seps != [] {
      assert ([[c] + pieces[0]] + pieces[1..])[1..] == pieces[1..];
    }
  }

  lemma JoinEmptyFirst(c: char, pieces: seq<string>, seps: seq<char>)
    requires |pieces| == |seps| + 1
    ensures Join([[]] + pieces, [c] + seps) == [c] + Join(pieces, seps)
  {
    assert ([[]] + pieces)[1..] == pieces && ([c] + seps)[1..] == seps;
  }

  /** Splitting loses nothing but the choice of separator: the raw pieces,
      joined with the separators found, give back the input. */
  lemma {:induction false} RawPiecesJoin(s: string)
    ensures Join(RawPieces(s), Separators(s)) == s
  {
    if s != [] {
      var c, tail := s[0], s[1..];
      RawPiecesJoin(tail);
      var rest, seps := RawPieces(tail), Separators(tail);
      if IsWhitespace(c) {
        assert RawPieces(s) == [[]] + rest && Separators(s) == [c] + seps;
        JoinEmptyFirst(c, rest, seps);
      } else {
        assert RawPieces(s) == [[c] + rest[0]] + rest[1..] && Separators(s) == seps;
        JoinPrepend(c, rest, seps);
      }
      assert s == [c] + tail;
    }
  }

  /** No raw piece contains a whitespace character. */
  lemma {:induction false} RawPiecesHaveNoWhitespace(s: string)
    ensures forall p :: p in RawPieces(s) ==> !HasWhitespace(p)
  {
    if s != [] {
      RawPiecesHaveNoWhitespace(s[1..]);
      var rest := RawPieces(s[1..]);
      if !IsWhitespace(s[0]) {
        assert ([s[0]] + rest[0])[1..] == rest[0];
        assert rest[0] in rest;
        forall p | p in [[s[0]] + rest[0]] + rest[1..] ensures !HasWhitespace(p) {
          if p != [s[0]] + rest[0] {
            assert p in rest;
          }
        }
      }
    }
  }

  /** A string without whitespace is its own single raw piece. */
  lemma {:induction false} RawPiecesOfWord(s: string)
    requires !HasWhitespace(s)
    ensures RawPieces(s) == [s]
  {
    if s != [] {
      RawPiecesOfWord(s[1..]);
      assert s == [s[0]] + s[1..];
    }
  }

  /** A string made only of whitespace has only empty raw pieces. */
  lemma {:induction false} RawPiecesOfBlank(s: string)
    requires forall i :: 0 <= i < |s| ==> IsWhitespace(s[i])
    ensures forall p :: p in RawPieces(s) ==> p == []
  {
    if s != [] {
      RawPiecesOfBlank(s[1..]);
    }
  }

  /** Every separator is a whitespace character. */
  lemma {:induction false} SeparatorsAreWhitespace(s: string)
    ensures forall i :: 0 <= i < |Separators(s)| ==> IsWhitespace(Separators(s)[i])
  {
    if s != [] {
      SeparatorsAreWhitespace(s[1..]);
    }
  }

  /** Joining empty pieces gives back just the separators. */
  lemma {:induction false} JoinEmptyPieces(pieces: seq<string>, seps: seq<char>)
    requires |pieces| == |seps| + 1
    requires forall i :: 0 <= i < |pieces| ==> pieces[i] == []
    ensures Join(pieces, seps) == seps
  {
    if seps != [] {
      JoinEmptyPieces(pieces[1..], seps[1..]);
      assert seps == [seps[0]] + seps[1..];
    }
  }

  /** Dropping the trailing empty pieces of only empty pieces leaves nothing. */
  lemma {:induction false} DropAllEmpty(pieces: seq<string>)
    requires forall p :: p in pieces ==> p == []
    ensures DropTrailingEmpty(pieces) == []
  {
    if pieces != [] {
      assert pieces[|pieces| - 1] in pieces;
      var init := pieces[..|pieces| - 1];
      forall p | p in init ensures p == [] {
        var i :| 0 <= i < |init| && init[i] == p;
        assert pieces[i] in pieces;
      }
      DropAllEmpty(init);
    }
  }

  /** No piece of the split contains whitespace. */
  lemma SplitPiecesHaveNoWhitespace(s: string)
    ensures forall p :: p in Split(s) ==> !HasWhitespace(p)
  {
    if HasWhitespace(s) {
      RawPiecesHaveNoWhitespace(s);
      var raw := RawPieces(s);
      forall p | p in Split(s) ensures !HasWhitespace(p) {
        var i :| 0 <= i < |Split(s)| && Split(s)[i] == p;
        assert raw[i] == p;
      }
    }
  }

  /** The split is the raw pieces less some empty ones at the end, and the raw
      pieces rejoined with the separators are the input: the split keeps every
      non-whitespace character of the line, in order. */
  lemma SplitReconstructs(s: string)
    ensures Split(s) <= RawPieces(s)
    ensures forall i :: |Split(s)| <= i < |RawPieces(s)| ==> RawPieces(s)[i] == []
    ensures Join(RawPieces(s), Separators(s)) == s
  {
    RawPiecesJoin(s);
    if !HasWhitespace(s) {
      RawPiecesOfWord(s);
    }
  }

  /** The split is empty exactly when the line is non-empty and all whitespace;
      in particular the empty line splits to one empty piece. */
  lemma SplitEmptyIff(s: string)
    ensures Split(s) == [] <==> s != [] && forall i :: 0 <= i < |s| ==> IsWhitespace(s[i])
  {
    if s != [] && forall i :: 0 <= i < |s| ==> IsWhitespace(s[i]) {
      assert IsWhitespace(s[0]) && s == [s[0]] + s[1..];
      assert HasWhitespace(s);
      RawPiecesOfBlank(s);
      DropAllEmpty(RawPieces(s));
    }
    if Split(s) == [] {
      assert HasWhitespace(s);
      var raw := RawPieces(s);
      RawPiecesJoin(s);
      JoinEmptyPieces(raw, Separators(s));
      SeparatorsAreWhitespace(s);
    }
  }

  /** One step of the raw split at a separator. */
  lemma RawPiecesAtSeparator(c: char, s: string)
    requires IsWhitespace(c)
    ensures RawPieces([c] + s) == [[]] + RawPieces(s)
    ensures Separators([c] + s) == [c] + Separators(s)
  {
    assert ([c] + s)[0] == c && ([c] + s)[1..] == s;
  }

  /** One step of the raw split at any other character. */
  lemma RawPiecesAtChar(c: char, s: string)
    requires !IsWhitespace(c)
    ensures RawPieces([c] + s) == [[c] + RawPieces(s)[0]] + RawPieces(s)[1..]
    ensures Separators([c] + s) == Separators(s)
  {
    assert ([c] + s)[0] == c && ([c] + s)[1..] == s;
  }

  /** A single non-whitespace character is one piece. */
  lemma RawPiecesOfChar(c: char)
    requires !IsWhitespace(c)
    ensures RawPieces([c]) == [[c]] && Separators([c]) == []
  {
    RawPiecesAtChar(c, []);
    assert [c] + [] == [c];
  }

  // Java's behaviour at the edges, on small lines; `a` and `b` stand for any
  // characters other than whitespace.

  /** The empty line is one empty piece, and a word alone is itself. */
  lemma SplitNoMatchExamples(a: char, b: char)
    requires !IsWhitespace(a) && !IsWhitespace(b)
    ensures Split("") == [""]
    ensures Split([a, b]) == [[a, b]]
  {
    RawPiecesOfChar(b);
    RawPiecesAtChar(a, [b]);
    assert [a] + [b] == [a, b];
  }

  /** A leading separator gives an empty first piece. */
  lemma SplitLeadingExample(a: char, b: char)
    requires !IsWhitespace(a) && !IsWhitespace(b)
    ensures Split([' ', a, b]) == [[], [a, b]]
  {
    RawPiecesOfChar(b);
    RawPiecesAtChar(a, [b]);
    assert [a] + [b] == [a, b];
    RawPiecesAtSeparator(' ', [a, b]);
    assert [' '] + [a, b] == [' ', a, b];
  }

  /** Two separators in a row give an empty piece between them. */
  lemma SplitDoubleSpaceExample(a: char, b: char)
    requires !IsWhitespace(a) && !IsWhitespace(b)
    ensures Split([a, ' ', ' ', b]) == [[a], [], [b]]
  {
    RawPiecesOfChar(b);
    RawPiecesAtSeparator(' ', [b]);
    assert [' '] + [b] == [' ', b];
    RawPiecesAtSeparator(' ', [' ', b]);
    assert [' '] + [' ', b] == [' ', ' ', b];
    RawPiecesAtChar(a, [' ', ' ', b]);
    assert [a] + [' ', ' ', b] == [a, ' ', ' ', b] && [a] + [] == [a];
  }

  /** Empty pieces at the end are dropped, and a tab separates like a space. */
  lemma SplitTrailingExample(a: char, b: char)
    requires !IsWhitespace(a) && !IsWhitespace(b)
    ensures Split([a, '\t', b, ' ']) == [[a], [b]]
  {
    RawPiecesAtSeparator(' ', []);
    RawPiecesAtChar(b, [' ']);
    assert [b] + [' '] == [b, ' '] && [b] + [] == [b];
    RawPiecesAtSeparator('\t', [b, ' ']);
    assert ['\t'] + [b, ' '] == ['\t', b, ' '];
    RawPiecesAtChar(a, ['\t', b, ' ']);
    assert [a] + ['\t', b, ' '] == [a, '\t', b, ' '] && [a] + [] == [a];
    var raw: seq<string> := [[a], [b], []];
    assert RawPieces([a, '\t', b, ' ']) == raw && HasWhitespace([a, '\t', b, ' ']);
    assert raw[..2] == [[a], [b]];
    assert DropTrailingEmpty(raw) == DropTrailingEmpty(raw[..2]) == raw[..2];
  }

  /** A line of whitespace only has no pieces at all. */
  lemma SplitBlankExample()
    ensures Split([' ', ' ']) == []
  {
    RawPiecesAtSeparator(' ', []);
    RawPiecesAtSeparator(' ', [' ']);
    assert [' '] + [] == [' '] && [' '] + [' '] == [' ', ' '];
  }

  /** Every word of a line of repeated words is a piece. */
  lemma SplitRepeatedWordExample(a: char)
    requires !IsWhitespace(a)
    ensures Split([a, ' ', a, ' ', a]) == [[a], [a], [a]]
  {
    var s1, s2, s3, s4, s5 := [a], [' ', a], [a, ' ', a], [' ', a, ' ', a], [a, ' ', a, ' ', a];
    RawPiecesOfChar(a);
    assert s2 == [' '] + s1;
    RawPiecesAtSeparator(' ', s1);
    assert RawPieces(s2) == [[], [a]] && Separators(s2) == [' '];
    assert s3 == [a] + s2;
    RawPiecesAtChar(a, s2);
    assert RawPieces(s3) == [[a], [a]] && Separators(s3) == [' '];
    assert s4 == [' '] + s3;
    RawPiecesAtSeparator(' ', s3);
    assert RawPieces(s4) == [[], [a], [a]] && Separators(s4) == [' ', ' '];
    assert s5 == [a] + s4;
    RawPiecesAtChar(a, s4);
    assert RawPieces(s5) == [[a], [a], [a]] && HasWhitespace(s5);
  }
}
