/** DataStorage of the cryptogram solver: the registry of the encrypted
    message.  It keeps the message as it was read (every line followed by a
    newline) and the list of distinct encrypted words the solver works on,
    ordered longest first.  The punctuation rules it consults belong to the
    class Punctuation, which is not part of this model: its two checks are
    arbitrary functions supplied with the registry. */
module CryptogramSolver {
  import opened WhitespaceSplit
  import opened LengthSort

  /** The two checks DataStorage asks of the class Punctuation. */
  datatype Punctuation = Punctuation(
    removeBadPunctuation: string -> string,
    hasGoodPunctuation: string -> bool)

  // ---------------------------------------------------------------------------
  // The message

  /** The message as the StringBuilder holds it after the given lines were
      appended, each followed by a newline. */
  function Rendered(lines: seq<string>): (m: string)
    ensures m == [] <==> lines == []
    ensures m != [] ==> m[|m| - 1] == '\n'
  {
    if lines == [] then [] else lines[0] + "\n" + Rendered(lines[1..])
  }

  lemma {:induction false} RenderedAppend(lines: seq<string>, line: string)
    ensures Rendered(lines + [line]) == Rendered(lines) + line + "\n"
  {
    if lines != [] {
      assert (lines + [line])[1..] == lines[1..] + [line];
      RenderedAppend(lines[1..], line);
    }
  }

  /** Index of the first newline in `m`, or `|m|` when there is none. */
  function LineEnd(m: string): (i: nat)
    ensures i <= |m|
    ensures forall k :: 0 <= k < i ==> m[k] != '\n'
    ensures i < |m| ==> m[i] == '\n'
  {
    if m == [] || m[0] == '\n' then 0 else 1 + LineEnd(m[1..])
  }

  /** Cuts a message back into its lines, each ended by a newline (a last
      line without one is kept as it is). */
  function MessageLines(m: string): (lines: seq<string>)
    decreases |m|
  {
    if m == [] then []
    else
      var i := LineEnd(m);
      if i == |m| then [m] else [m[..i]] + MessageLines(m[i + 1..])
  }

  /** The message gives back exactly the lines that built it, as long as no
      line holds a newline itself (lines read from a file never do). */
  lemma {:induction false} MessageLinesRendered(lines: seq<string>)
    requires forall l :: l in lines ==> '\n' !in l
    ensures MessageLines(Rendered(lines)) == lines
  {
    if lines != [] {
      var first, rest := lines[0], Rendered(lines[1..]);
      var m := Rendered(lines);
      assert m == first + ("\n" + rest);
      assert first in lines;
      var i := LineEnd(m);
      assert m[|first|] == '\n';
      assert forall k :: 0 <= k < |first| ==> m[k] == first[k];
      assert i == |first|;
      assert m[..i] == first && m[i + 1..] == rest;
      forall l | l in lines[1..] ensures '\n' !in l {
        assert l in lines;
      }
      MessageLinesRendered(lines[1..]);
      assert lines == [first] + lines[1..];
    }
  }

  // ---------------------------------------------------------------------------
  // The word list

  /** `w` is what some piece becomes once its bad punctuation is removed. */
  ghost predicate Offered(pieces: seq<string>, pc: Punctuation, w: string) {
    exists p :: p in pieces && pc.removeBadPunctuation(p) == w
  }

  /** The loop of addData: each piece, with its bad punctuation removed, is
      appended to the list when it has no good punctuation either and the
      list does not hold it yet. */
  function Admit(d: seq<string>, pieces: seq<string>, pc: Punctuation): (r: seq<string>)
    ensures d <= r
    ensures |r| <= |d| + |pieces|
    decreases pieces
  {
    if pieces == [] then d
    else
      var w := pc.removeBadPunctuation(pieces[0]);
      Admit(if !pc.hasGoodPunctuation(w) && w !in d then d + [w] else d, pieces[1..], pc)
  }

  /** The words one line adds to the list `d`, in the order they are met. */
  function NewWords(d: seq<string>, line: string, pc: Punctuation): (added: seq<string>)
    ensures |added| <= |Split(line)|
  {
    Admit(d, Split(line), pc)[|d|..]
  }

  /** The word list after addData(line) when it was `d` before. */
  function AfterAddData(d: seq<string>, line: string, pc: Punctuation): (r: seq<string>)
    ensures |d| <= |r| <= |d| + |Split(line)|
  {
    SortByLength(Admit(d, Split(line), pc))
  }

  lemma OfferedCons(pieces: seq<string>, pc: Punctuation, w: string)
    requires pieces != []
    ensures Offered(pieces, pc, w) <==>
      pc.removeBadPunctuation(pieces[0]) == w || Offered(pieces[1..], pc, w)
  {
    if Offered(pieces, pc, w) {
      var p :| p in pieces && pc.removeBadPunctuation(p) == w;
      if p != pieces[0] {
        assert p in pieces[1..];
      }
    }
    if Offered(pieces[1..], pc, w) {
      var p :| p in pieces[1..] && pc.removeBadPunctuation(p) == w;
      assert p in pieces;
    }
    assert pieces[0] in pieces;
  }

  /** A word is in the list after the loop exactly when it was there before,
      or some piece yields it once its bad punctuation is removed and it has
      no good punctuation. */
  lemma {:induction false} AdmitMembership(d: seq<string>, pieces: seq<string>, pc: Punctuation, w: string)
    ensures w in Admit(d, pieces, pc) <==>
      w in d || (!pc.hasGoodPunctuation(w) && Offered(pieces, pc, w))
    decreases pieces
  {
    if pieces != [] {
      var w0 := pc.removeBadPunctuation(pieces[0]);
      var d' := if !pc.hasGoodPunctuation(w0) && w0 !in d then d + [w0] else d;
      AdmitMembership(d', pieces[1..], pc, w);
      OfferedCons(pieces, pc, w);
    }
  }

  /** The loop never puts a second copy of a word in the list. */
  lemma {:induction false} AdmitKeepsNoDuplicates(d: seq<string>, pieces: seq<string>, pc: Punctuation)
    requires NoDuplicates(d)
    ensures NoDuplicates(Admit(d, pieces, pc))
    decreases pieces
  {
    if pieces != [] {
      var w0 := pc.removeBadPunctuation(pieces[0]);
      var d' := if !pc.hasGoodPunctuation(w0) && w0 !in d then d + [w0] else d;
      AdmitKeepsNoDuplicates(d', pieces[1..], pc);
    }
  }

  /** When every piece yields a word that is listed already or has good
      punctuation, the loop leaves the list as it is. */
  lemma {:induction false} AdmitNothingNew(d: seq<string>, pieces: seq<string>, pc: Punctuation)
    requires forall p :: p in pieces ==>
      pc.hasGoodPunctuation(pc.removeBadPunctuation(p)) || pc.removeBadPunctuation(p) in d
    ensures Admit(d, pieces, pc) == d
  {
    if pieces != [] {
      assert pieces[0] in pieces;
      forall p | p in pieces[1..]
        ensures pc.hasGoodPunctuation(pc.removeBadPunctuation(p)) || pc.removeBadPunctuation(p) in d
      {
        assert p in pieces;
      }
      AdmitNothingNew(d, pieces[1..], pc);
    }
  }

  /** After addData the list is ordered by descending length. */
  lemma AddDataSorted(d: seq<string>, line: string, pc: Punctuation)
    ensures SortedByLength(AfterAddData(d, line, pc))
  {
    SortSorted(Admit(d, Split(line), pc));
  }

  /** addData keeps the list free of duplicates. */
  lemma AddDataKeepsNoDuplicates(d: seq<string>, line: string, pc: Punctuation)
    requires NoDuplicates(d)
    ensures NoDuplicates(AfterAddData(d, line, pc))
  {
    AdmitKeepsNoDuplicates(d, Split(line), pc);
    SortKeepsNoDuplicates(Admit(d, Split(line), pc));
  }

  /** A word is listed after addData(line) exactly when it was listed before,
      or it is a piece of the line with its bad punctuation removed and it has
      no good punctuation.  So nothing is ever removed, nothing else is added,
      and every admissible word of the line is there. */
  lemma AddDataMembership(d: seq<string>, line: string, pc: Punctuation, w: string)
    ensures w in AfterAddData(d, line, pc) <==>
      w in d || (!pc.hasGoodPunctuation(w) && Offered(Split(line), pc, w))
  {
    var admitted := Admit(d, Split(line), pc);
    AdmitMembership(d, Split(line), pc, w);
    SortPermutation(admitted);
    assert w in admitted <==> w in multiset(admitted);
  }

  /** addData keeps every listed word free of good punctuation. */
  lemma AddDataKeepsAdmissible(d: seq<string>, line: string, pc: Punctuation)
    requires forall w :: w in d ==> !pc.hasGoodPunctuation(w)
    ensures forall w :: w in AfterAddData(d, line, pc) ==> !pc.hasGoodPunctuation(w)
  {
    forall w | w in AfterAddData(d, line, pc) ensures !pc.hasGoodPunctuation(w) {
      AddDataMembership(d, line, pc, w);
    }
  }

  /** The words of each length keep their order across addData: the new
      words of that length follow the old ones, in the order they were met. */
  lemma AddDataStable(d: seq<string>, line: string, pc: Punctuation, n: nat)
    ensures OfLength(AfterAddData(d, line, pc), n) == OfLength(d, n) + OfLength(NewWords(d, line, pc), n)
  {
    var admitted := Admit(d, Split(line), pc);
    SortStable(admitted, n);
    assert admitted == d + NewWords(d, line, pc);
    OfLengthAppend(d, NewWords(d, line, pc), n);
  }

  /** Adding the same line a second time leaves the list unchanged. */
  lemma AddDataTwice(d: seq<string>, line: string, pc: Punctuation)
    ensures AfterAddData(AfterAddData(d, line, pc), line, pc) == AfterAddData(d, line, pc)
  {
    var e := AfterAddData(d, line, pc);
    forall p | p in Split(line)
      ensures pc.hasGoodPunctuation(pc.removeBadPunctuation(p)) || pc.removeBadPunctuation(p) in e
    {
      AddDataMembership(d, line, pc, pc.removeBadPunctuation(p));
    }
    AdmitNothingNew(e, Split(line), pc);
    AddDataSorted(d, line, pc);
    SortOfSorted(e);
  }

  /** Sorting after every line is the same as sorting once: when the list is
      the sorted form of `h`, the list after addData is the sorted form of `h`
      followed by the line's new words. */
  lemma AddDataResorts(h: seq<string>, line: string, pc: Punctuation)
    ensures AfterAddData(SortByLength(h), line, pc) ==
      SortByLength(h + NewWords(SortByLength(h), line, pc))
  {
    var d := SortByLength(h);
    var added := NewWords(d, line, pc);
    var r := AfterAddData(d, line, pc);
    AddDataSorted(d, line, pc);
    forall n: nat ensures OfLength(r, n) == OfLength(h + added, n) {
      AddDataStable(d, line, pc, n);
      SortStable(h, n);
      OfLengthAppend(h, added, n);
    }
    IsStableSortByLength(h + added, r);
  }

  /** What addData keeps of the registry's invariant, for a list that is the
      sorted form of the words in the order they were first added. */
  lemma AddDataKeepsInvariant(inserted: seq<string>, line: string, pc: Punctuation)
    requires NoDuplicates(SortByLength(inserted))
    requires forall w :: w in SortByLength(inserted) ==> !pc.hasGoodPunctuation(w)
    ensures var d := SortByLength(inserted);
      var r := AfterAddData(d, line, pc);
      && r == SortByLength(inserted + NewWords(d, line, pc))
      && NoDuplicates(r)
      && SortedByLength(r)
      && forall w :: w in r ==> !pc.hasGoodPunctuation(w)
  {
    var d := SortByLength(inserted);
    AddDataResorts(inserted, line, pc);
    AddDataKeepsNoDuplicates(d, line, pc);
    AddDataKeepsAdmissible(d, line, pc);
    AddDataSorted(d, line, pc);
  }

  // ---------------------------------------------------------------------------
  // The registry

  class DataStorage {
    /** The punctuation rules the registry consults. */
    const pc: Punctuation
    /** The distinct encrypted words, longest first. */
    var data: seq<string>
    /** The original message. */
    var msg: string
    /** Every line added since the registry was created or last cleared. */
    ghost var lines: seq<string>
    /** The listed words in the order they were first added. */
    ghost var inserted: seq<string>

    ghost predicate Valid()
      reads this
    {
      && msg == Rendered(lines)
      && data == SortByLength(inserted)
      && NoDuplicates(data)
      && forall w :: w in data ==> !pc.hasGoodPunctuation(w)
    }

    /** An empty registry. */
    constructor (pc: Punctuation)
      ensures Valid()
      ensures this.pc == pc && data == [] && msg == [] && lines == [] && inserted == []
    {
      this.pc := pc;
      data, msg := [], [];
      lines, inserted := [], [];
    }

    /** Adds a line read from the message. */
    method AddData(newData: string)
      requires Valid()
      modifies this
      ensures Valid()
      ensures msg == old(msg) + newData + "\n"
      ensures lines == old(lines) + [newData]
      ensures data == AfterAddData(old(data), newData, pc)
      ensures inserted == old(inserted) + NewWords(old(data), newData, pc)
      ensures SortedByLength(data)
    {
      msg := msg + newData;
      msg := msg + "\n";
      lines := lines + [newData];
      RenderedAppend(old(lines), newData);

      var pieces := Split(newData);
      ghost var admitted := Admit(data, pieces, pc);
      for i := 0 to |pieces|
        modifies this`data
        invariant Admit(data, pieces[i..], pc) == admitted
      {
        var noPunctuation := pc.removeBadPunctuation(pieces[i]);
        if !pc.hasGoodPunctuation(noPunctuation) && noPunctuation !in data {
          data := data + [noPunctuation];
        }
        assert pieces[i..][1..] == pieces[i + 1..];
      }
      assert pieces[|pieces|..] == [];
      inserted := inserted + NewWords(old(data), newData, pc);
      data := SortByLength(data);

      AddDataKeepsInvariant(old(inserted), newData, pc);
    }

    /** The original message: every line added, each followed by a newline. */
    method GetMsg() returns (m: string)
      requires Valid()
      ensures m == msg && m == Rendered(lines)
    {
      m := msg;
    }

    /** The word list: distinct, longest first, and equal-length words in the
        order they were first added. */
    method GetData() returns (d: seq<string>)
      requires Valid()
      ensures d == data
      ensures SortedByLength(d) && NoDuplicates(d)
      ensures forall w :: w in d ==> !pc.hasGoodPunctuation(w)
      ensures forall n: nat :: OfLength(d, n) == OfLength(inserted, n)
    {
      d := data;
      SortSorted(inserted);
      forall n: nat ensures OfLength(d, n) == OfLength(inserted, n) {
        SortStable(inserted, n);
      }
    }

    /** Empties the registry, whatever it held. */
    method Clear()
      modifies this
      ensures Valid()
      ensures data == [] && msg == [] && lines == [] && inserted == []
    {
      data := [];
      msg := [];
      lines, inserted := [], [];
    }
  }

  // ---------------------------------------------------------------------------
  // Small inputs

  /** A word repeated on a line is listed once (`a` is any character other
      than whitespace). */
  lemma RepeatedWordListedOnce(pc: Punctuation, a: char)
    requires !IsWhitespace(a)
    requires pc.removeBadPunctuation([a]) == [a] && !pc.hasGoodPunctuation([a])
    ensures AfterAddData([], [a, ' ', a, ' ', a], pc) == [[a]]
  {
    SplitRepeatedWordExample(a);
    var pieces: seq<string> := [[a], [a], [a]];
    assert pieces[1..] == [[a], [a]] && pieces[1..][1..] == [[a]] && pieces[1..][1..][1..] == [];
    assert Admit([[a]], [], pc) == [[a]];
    assert Admit([[a]], [[a]], pc) == [[a]];
    assert Admit([[a]], [[a], [a]], pc) == [[a]];
    assert [] + [[a]] == [[a]];
    assert Admit([], pieces, pc) == [[a]];
    assert SortByLength([[a]]) == [[a]];
  }

  /** A line that starts with whitespace has an empty first piece, and the
      empty string is listed, last, when it has no good punctuation (`a` and
      `b` are any characters other than whitespace). */
  lemma LeadingSpaceListsEmptyWord(pc: Punctuation, a: char, b: char)
    requires !IsWhitespace(a) && !IsWhitespace(b)
    requires pc.removeBadPunctuation("") == "" && !pc.hasGoodPunctuation("")
    requires pc.removeBadPunctuation([a, b]) == [a, b] && !pc.hasGoodPunctuation([a, b])
    ensures AfterAddData([], [' ', a, b], pc) == [[a, b], []]
  {
    SplitLeadingExample(a, b);
    var pieces: seq<string> := [[], [a, b]];
    assert pieces[1..] == [[a, b]] && pieces[1..][1..] == [];
    assert [a, b] !in pieces[..1] && pieces[..1] + pieces[1..] == pieces;
    assert Admit(pieces, [], pc) == pieces;
    assert Admit(pieces[..1], pieces[1..], pc) == pieces;
    var none: seq<string> := [];
    assert pc.removeBadPunctuation(pieces[0]) == "" && "" !in none;
    assert none + [""] == pieces[..1];
    assert Admit([], pieces, pc) == [[], [a, b]];
    assert pieces[1..] == [[a, b]];
    assert SortByLength([[a, b]]) == [[a, b]];
    assert InsertByLength([], [[a, b]]) == [[a, b], []];
  }

  /** An empty line adds no word when the empty string is listed already or
      has good punctuation. */
  lemma EmptyLineAddsNothing(d: seq<string>, pc: Punctuation)
    requires SortedByLength(d)
    requires pc.hasGoodPunctuation(pc.removeBadPunctuation("")) || pc.removeBadPunctuation("") in d
    ensures AfterAddData(d, "", pc) == d
  {
    assert Split("") == [""];
    AdmitNothingNew(d, [""], pc);
    SortOfSorted(d);
  }
}
