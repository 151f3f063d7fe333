# DataStorage of the cryptogram solver, in Dafny

The cryptogram solver reads an encrypted message line by line into one
registry, `DataStorage`. The registry keeps two things:

- the original message, with every line followed by a newline;
- the list of distinct encrypted words the solver works on, longest first.

`addData` does the following with a line:

1. It appends the line and a newline to the message.
2. It cuts the line with `split("\\s")`.
3. It removes the bad punctuation from each piece.
4. It appends the cleaned piece to the list when the piece has no good
   punctuation and the list does not hold it yet.
5. It re-sorts the list by descending length with Java's stable `List.sort`.

`clear` empties both the message and the list.

The model has three modules:

- `WhitespaceSplit` (`whitespace_split.dfy`) models Java's
  `String.split("\\s")` with its default limit of zero:
  - it cuts at every single whitespace character;
  - it keeps an empty leading piece;
  - it drops the empty pieces at the end;
  - a line with no whitespace at all, including the empty line, is its own
    only piece.
- `LengthSort` (`length_sort.dfy`) models the sort by descending length as an
  insertion sort. It proves the sort ordered, a permutation and stable. It
  also proves the sort unique: any list ordered by length whose words of each
  length come in the input's order is this sort's result.
- `CryptogramSolver` (`data_storage.dfy`) holds:
  - the datatype `Punctuation`, made of the two checks the registry asks of
    the class `Punctuation`;
  - the specification functions `Admit` (the loop of `addData`) and
    `AfterAddData` (the loop, then the sort);
  - the class `DataStorage`. Its fields `data` and `msg` are reassigned by
    `AddData` and `Clear`.

The class has two ghost fields:

- `lines` is every line added since creation or the last `Clear`.
- `inserted` is the listed words in the order they were first added.

Its invariant `Valid()` ties them to the real fields:

- the message is the rendering of `lines`;
- the list is the stable length sort of `inserted`;
- the list holds no duplicates;
- no listed word has good punctuation.

Two consequences of the code are easy to miss:

- `split("\\s")` cuts at every single whitespace character, not at runs of
  whitespace. So a leading space, a double space or an empty line gives an
  empty piece. That piece goes through `removeBadPunctuation` and
  `hasGoodPunctuation` like any other. When the cleaned empty piece
  `removeBadPunctuation("")` passes the checks and is not listed yet, it is
  added to the list (`LeadingSpaceListsEmptyWord`).
- An empty line can add a word. `"".split("\\s")` is the single piece `""`.
  So an empty line adds the cleaned empty piece `removeBadPunctuation("")`
  unless that word is listed already or has good punctuation. In those two
  cases the list is unchanged (`EmptyLineAddsNothing`). Conversely,
  `AddDataMembership` shows that whenever the cleaned empty piece is new and
  has no good punctuation, the empty line adds it.

## Model

| member | source | states |
|---|---|---|
| WhitespaceSplit.Split | src/main/com/cryptogram/solver/DataStorage.java:41 | `split("\\s")` with limit zero: the line itself when it holds no whitespace, otherwise the pieces between single whitespace characters less the empty ones at the end; never more pieces than whitespace characters plus one |
| LengthSort.SortByLength | src/main/com/cryptogram/solver/DataStorage.java:57 | the stable sort by descending length, as an insertion sort; the result has as many words as the input |
| CryptogramSolver.Admit | src/main/com/cryptogram/solver/DataStorage.java:44-54 | the loop over the pieces: each cleaned piece is appended when it has no good punctuation and is not listed; the old list stays a prefix, and at most one word is added per piece |
| CryptogramSolver.AfterAddData | src/main/com/cryptogram/solver/DataStorage.java:41-57 | the list after addData: the loop over the line's split, then the sort; the list never shrinks and grows by at most one word per piece of the line |
| CryptogramSolver.Rendered | src/main/com/cryptogram/solver/DataStorage.java:38-39 | the message after the given lines were appended, each followed by a newline; it is empty exactly when no line was added, and otherwise ends with a newline |
| WhitespaceSplit.DropTrailingEmpty | src/main/com/cryptogram/solver/DataStorage.java:41 | the split's trimming keeps a prefix of the pieces, ends on a non-empty piece, and drops only empty pieces |
| WhitespaceSplit.SplitPiecesHaveNoWhitespace | src/main/com/cryptogram/solver/DataStorage.java:41 | no piece of `split("\\s")` contains a whitespace character |
| WhitespaceSplit.SplitReconstructs | src/main/com/cryptogram/solver/DataStorage.java:41 | the split is the raw pieces between separators with only empty pieces dropped from the end, and those raw pieces rejoined with the separators give back the line |
| WhitespaceSplit.SplitEmptyIff | src/main/com/cryptogram/solver/DataStorage.java:41 | the split has no pieces exactly when the line is non-empty and all whitespace |
| WhitespaceSplit.SplitNoMatchExamples | src/main/com/cryptogram/solver/DataStorage.java:41 | a line without whitespace, the empty line included, splits to itself alone |
| WhitespaceSplit.SplitLeadingExample | src/main/com/cryptogram/solver/DataStorage.java:41 | a leading space yields an empty first piece |
| WhitespaceSplit.SplitDoubleSpaceExample | src/main/com/cryptogram/solver/DataStorage.java:41 | two spaces in a row yield an empty piece between the words |
| WhitespaceSplit.SplitTrailingExample | src/main/com/cryptogram/solver/DataStorage.java:41 | a tab separates like a space, and a trailing space adds no piece |
| WhitespaceSplit.SplitBlankExample | src/main/com/cryptogram/solver/DataStorage.java:41 | a line of spaces only splits to no pieces at all |
| WhitespaceSplit.SplitRepeatedWordExample | src/main/com/cryptogram/solver/DataStorage.java:41 | a word repeated between single spaces comes out once per occurrence |
| LengthSort.SortSorted | src/main/com/cryptogram/solver/DataStorage.java:57 | after the sort, lengths never increase from front to back |
| LengthSort.SortPermutation | src/main/com/cryptogram/solver/DataStorage.java:57 | the sort's result has the same multiset of words as its input |
| LengthSort.SortStable | src/main/com/cryptogram/solver/DataStorage.java:57 | the words of each length come out in the order they went in (`List.sort` is stable) |
| LengthSort.SortKeepsNoDuplicates | src/main/com/cryptogram/solver/DataStorage.java:57 | sorting a duplicate-free list gives a duplicate-free list |
| LengthSort.SortedUnique | src/main/com/cryptogram/solver/DataStorage.java:57 | two lists ordered by descending length that have the same words of each length, in the same order, are equal |
| LengthSort.IsStableSortByLength | src/main/com/cryptogram/solver/DataStorage.java:57 | a list is the sort's result if and only if it is ordered by descending length and keeps each length's words in input order |
| LengthSort.SortOfSorted | src/main/com/cryptogram/solver/DataStorage.java:57 | re-sorting a list already ordered by length leaves it unchanged |
| CryptogramSolver.RenderedAppend | src/main/com/cryptogram/solver/DataStorage.java:38-39 | appending a line to the history appends the line and one newline to the message |
| CryptogramSolver.MessageLinesRendered | src/main/com/cryptogram/solver/DataStorage.java:38-39 | cutting the message at its newlines gives back exactly the lines added, when no line holds a newline |
| CryptogramSolver.AdmitMembership | src/main/com/cryptogram/solver/DataStorage.java:44-54 | after the loop a word is listed if and only if it was listed before, or some piece yields it once bad punctuation is removed and it has no good punctuation |
| CryptogramSolver.AdmitKeepsNoDuplicates | src/main/com/cryptogram/solver/DataStorage.java:52-53 | the `contains` check keeps the list free of duplicates |
| CryptogramSolver.AdmitNothingNew | src/main/com/cryptogram/solver/DataStorage.java:52-53 | when every piece's cleaned word is listed or has good punctuation, the loop leaves the list unchanged |
| CryptogramSolver.AddDataSorted | src/main/com/cryptogram/solver/DataStorage.java:56-57 | after addData the list is ordered from longest to shortest |
| CryptogramSolver.AddDataKeepsNoDuplicates | src/main/com/cryptogram/solver/DataStorage.java:50-57 | addData keeps the list a set: no word is listed twice |
| CryptogramSolver.AddDataMembership | src/main/com/cryptogram/solver/DataStorage.java:37-58 | a word is listed after addData if and only if it was listed before, or it comes from a piece of the line and has no good punctuation: words are only ever added, and only admissible cleaned pieces |
| CryptogramSolver.AddDataKeepsAdmissible | src/main/com/cryptogram/solver/DataStorage.java:47-53 | addData keeps every listed word free of good punctuation |
| CryptogramSolver.AddDataStable | src/main/com/cryptogram/solver/DataStorage.java:44-57 | after addData the words of each length are the old ones in their old order, followed by the line's new ones in the order met |
| CryptogramSolver.AddDataTwice | src/main/com/cryptogram/solver/DataStorage.java:37-58 | adding the same line a second time leaves the word list unchanged |
| CryptogramSolver.AddDataResorts | src/main/com/cryptogram/solver/DataStorage.java:57 | re-sorting after every line gives the same list as one stable sort of all words in first-insertion order |
| CryptogramSolver.AddDataKeepsInvariant | src/main/com/cryptogram/solver/DataStorage.java:37-58 | addData keeps the list the sorted form of the words in first-insertion order, duplicate-free, ordered by length and admissible |
| CryptogramSolver.DataStorage.constructor | src/main/com/cryptogram/solver/DataStorage.java:14-21 | a new registry has an empty message and an empty word list |
| CryptogramSolver.DataStorage.AddData | src/main/com/cryptogram/solver/DataStorage.java:37-58 | the message grows by the line and a newline; the list becomes the old list with the admissible new pieces appended, then stably sorted by descending length; the invariant is kept |
| CryptogramSolver.DataStorage.GetMsg | src/main/com/cryptogram/solver/DataStorage.java:65-67 | returns the message, which is every added line each followed by a newline |
| CryptogramSolver.DataStorage.GetData | src/main/com/cryptogram/solver/DataStorage.java:69-71 | returns the list: duplicate-free, ordered by descending length, admissible, with the words of each length in first-insertion order |
| CryptogramSolver.DataStorage.Clear | src/main/com/cryptogram/solver/DataStorage.java:76-79 | empties both the message and the word list, whatever they held |
| CryptogramSolver.RepeatedWordListedOnce | src/main/com/cryptogram/solver/DataStorage.java:41-57 | a word repeated on one line is listed once |
| CryptogramSolver.LeadingSpaceListsEmptyWord | src/main/com/cryptogram/solver/DataStorage.java:41-57 | a leading space yields an empty piece; when `removeBadPunctuation("")` is `""` and has no good punctuation, it is listed, last |
| CryptogramSolver.EmptyLineAddsNothing | src/main/com/cryptogram/solver/DataStorage.java:41-57 | an empty line leaves a sorted list unchanged when the cleaned empty piece `removeBadPunctuation("")` is listed already or has good punctuation |

## Left out

- The class `Punctuation` is not part of this model. Its two checks
  `removeBadPunctuation` and `hasGoodPunctuation` are arbitrary pure functions
  fixed when the registry is built. A check that throws, or that depends on
  mutable state, is not modelled.
- The singleton (`instance` and `getInstance`, lines 12 and 28-30) becomes a
  plain constructor. Sharing one registry across the process is not modelled.
- CryptogramSolver.DataStorage.GetData returns the list as a value. In Java it
  returns the live `ArrayList`, so a caller can change the registry through
  it. That aliasing is not modelled.
- LengthSort.SortByLength counts a word's length in characters. Java's
  `String::length` counts UTF-16 code units, so a character outside the Basic
  Multilingual Plane counts twice there. Words made of such characters may
  sort differently.
- WhitespaceSplit.Split models the result of `Pattern.split`, not its regex
  engine. The sort is modelled by its result, not by TimSort's steps.
- Reading the message file and the callers of the registry are outside
  `DataStorage`, and are not modelled.
