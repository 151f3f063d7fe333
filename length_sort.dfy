/** The order DataStorage keeps its word list in: `List.sort` with the
    comparator "by length, reversed".  Java's `List.sort` is stable, so the
    result is the stable sort by descending length: longer words first, and
    words of equal length in the order they had before the sort. */
module LengthSort {

  /** Lengths never increase from front to back. */
  predicate SortedByLength(s: seq<string>) {
    forall i, j :: 0 <= i < j < |s| ==> |s[i]| >= |s[j]|
  }

  /** No string occurs twice. */
  predicate NoDuplicates(s: seq<string>) {
    forall i, j :: 0 <= i < j < |s| ==> s[i] != s[j]
  }

  /** The elements of `s` of length `n`, in their order in `s`.  A sort is
      stable exactly when it leaves every one of these subsequences as it was. */
  function OfLength(s: seq<string>, n: nat): (r: seq<string>) {
    if s == [] then [] else (if |s[0]| == n then [s[0]] else []) + OfLength(s[1..], n)
  }

  /** Puts `x` into `t` just before the first element that is not longer than it. */
  function InsertByLength(x: string, t: seq<string>): (r: seq<string>)
    ensures |r| == |t| + 1
  {
    if t == [] || |x| >= |t[0]| then [x] + t else [t[0]] + InsertByLength(x, t[1..])
  }

  /** The stable sort by descending length, as an insertion sort. */
  function SortByLength(s: seq<string>): (r: seq<string>)
    ensures |r| == |s|
  {
    if s == [] then [] else InsertByLength(s[0], SortByLength(s[1..]))
  }

  /** Insertion adds `x` and nothing else. */
  lemma {:induction false} InsertPermutation(x: string, t: seq<string>)
    ensures multiset(InsertByLength(x, t)) == multiset(t) + multiset{x}
  {
    if t != [] && |x| < |t[0]| {
      InsertPermutation(x, t[1..]);
      assert t == [t[0]] + t[1..];
    }
  }

  /** The sort is a permutation of its input. */
  lemma {:induction false} SortPermutation(s: seq<string>)
    ensures multiset(SortByLength(s)) == multiset(s)
  {
    if s != [] {
      SortPermutation(s[1..]);
      InsertPermutation(s[0], SortByLength(s[1..]));
      assert s == [s[0]] + s[1..];
    }
  }

  lemma {:induction false} OfLengthAppend(a: seq<string>, b: seq<string>, n: nat)
    ensures OfLength(a + b, n) == OfLength(a, n) + OfLength(b, n)
  {
    if a == [] {
      assert a + b == b;
    } else {
      assert (a + b)[1..] == a[1..] + b;
      OfLengthAppend(a[1..], b, n);
    }
  }

  lemma OfLengthSingleton(w: string, n: nat)
    ensures OfLength([w], n) == if |w| == n then [w] else []
  {
    assert [w][1..] == [];
  }

  /** The members of `OfLength(s, n)` are the members of `s` of length `n`. */
  lemma {:induction false} OfLengthMembers(s: seq<string>, n: nat, w: string)
    ensures w in OfLength(s, n) <==> w in s && |w| == n
  {
    if s != [] {
      OfLengthMembers(s[1..], n, w);
      assert s == [s[0]] + s[1..];
    }
  }

  /** Insertion adds no element longer than every element already present. */
  lemma {:induction false} InsertBounded(x: string, t: seq<string>, bound: nat)
    requires |x| <= bound && forall i :: 0 <= i < |t| ==> |t[i]| <= bound
    ensures forall i :: 0 <= i < |InsertByLength(x, t)| ==> |InsertByLength(x, t)[i]| <= bound
  {
    if t != [] && |x| < |t[0]| {
      InsertBounded(x, t[1..], bound);
    }
  }

  lemma {:induction false} InsertSorted(x: string, t: seq<string>)
    requires SortedByLength(t)
    ensures SortedByLength(InsertByLength(x, t))
  {
    if t != [] && |x| < |t[0]| {
      var rest := t[1..];
      InsertSorted(x, rest);
      InsertBounded(x, rest, |t[0]|);
      var r := InsertByLength(x, rest);
      assert InsertByLength(x, t) == [t[0]] + r;
    }
  }

  /** Insertion keeps the relative order of the equal-length elements, with
      `x` in front of those already in `t`. */
  lemma {:induction false} InsertStable(x: string, t: seq<string>, n: nat)
    ensures OfLength(InsertByLength(x, t), n) == OfLength([x] + t, n)
  {
    if t != [] && |x| < |t[0]| {
      var h, rest := t[0], t[1..];
      var oh, ox, orest := OfLength([h], n), OfLength([x], n), OfLength(rest, n);
      InsertStable(x, rest, n);
      assert InsertByLength(x, t) == [h] + InsertByLength(x, rest);
      OfLengthAppend([h], InsertByLength(x, rest), n);
      OfLengthAppend([x], rest, n);
      assert OfLength(InsertByLength(x, t), n) == oh + (ox + orest);
      SingletonsCommute(h, x, n);
      assert t == [h] + rest;
      OfLengthAppend([h], rest, n);
      OfLengthAppend([x], t, n);
      assert OfLength([x] + t, n) == ox + (oh + orest);
    }
  }

  /** Two elements of different lengths cannot both have length `n`, so
      their filters may be swapped. */
  lemma SingletonsCommute(h: string, x: string, n: nat)
    requires |h| != |x|
    ensures OfLength([h], n) + OfLength([x], n) == OfLength([x], n) + OfLength([h], n)
  {
    OfLengthSingleton(h, n);
    OfLengthSingleton(x, n);
    if |h| == n {
      assert OfLength([x], n) == [];
    } else {
      assert OfLength([h], n) == [];
    }
  }

  /** The members after insertion are `x` and the members of `t`. */
  lemma {:induction false} InsertMembers(x: string, t: seq<string>, w: string)
    ensures w in InsertByLength(x, t) <==> w == x || w in t
  {
    if t != [] && |x| < |t[0]| {
      InsertMembers(x, t[1..], w);
      assert t == [t[0]] + t[1..];
    }
  }

  lemma {:induction false} InsertKeepsNoDuplicates(x: string, t: seq<string>)
    requires NoDuplicates(t) && x !in t
    ensures NoDuplicates(InsertByLength(x, t))
  {
    if t != [] && |x| < |t[0]| {
      var rest := t[1..];
      assert t == [t[0]] + rest;
      InsertKeepsNoDuplicates(x, rest);
      InsertMembers(x, rest, t[0]);
      assert InsertByLength(x, t) == [t[0]] + InsertByLength(x, rest);
    }
  }

  /** The result of the sort is ordered by descending length. */
  lemma {:induction false} SortSorted(s: seq<string>)
    ensures SortedByLength(SortByLength(s))
  {
    if s != [] {
      SortSorted(s[1..]);
      InsertSorted(s[0], SortByLength(s[1..]));
    }
  }

  /** The sort is stable: equal-length elements keep their relative order. */
  lemma {:induction false} SortStable(s: seq<string>, n: nat)
    ensures OfLength(SortByLength(s), n) == OfLength(s, n)
  {
    if s != [] {
      var h, tail := s[0], s[1..];
      var sortedTail := SortByLength(tail);
      assert SortByLength(s) == InsertByLength(h, sortedTail);
      SortStable(tail, n);
      InsertStable(h, sortedTail, n);
      OfLengthAppend([h], sortedTail, n);
      OfLengthAppend([h], tail, n);
      assert [h] + tail == s;
    }
  }

  /** Sorting a list without duplicates gives a list without duplicates. */
  lemma {:induction false} SortKeepsNoDuplicates(s: seq<string>)
    requires NoDuplicates(s)
    ensures NoDuplicates(SortByLength(s))
  {
    if s != [] {
      assert s == [s[0]] + s[1..];
      SortKeepsNoDuplicates(s[1..]);
      SortPermutation(s[1..]);
      assert s[0] !in multiset(SortByLength(s[1..]));
      InsertKeepsNoDuplicates(s[0], SortByLength(s[1..]));
    }
  }

  /** In a list ordered by descending length no element is longer than the first. */
  lemma FirstIsLongest(s: seq<string>, w: string)
    requires SortedByLength(s) && w in s
    ensures |w| <= |s[0]|
  {
    var i :| 0 <= i < |s| && s[i] == w;
    if i > 0 {
      assert |s[0]| >= |s[i]|;
    }
  }

  /** A list with the same elements of every length as a non-empty list holds
      that list's first element. */
  lemma SameFiltersHoldFirst(a: seq<string>, b: seq<string>)
    requires a != []
    requires OfLength(a, |a[0]|) == OfLength(b, |a[0]|)
    ensures a[0] in b
  {
    OfLengthMembers(a, |a[0]|, a[0]);
    OfLengthMembers(b, |a[0]|, a[0]);
  }

  /** Dropping equal first elements keeps the per-length filters equal. */
  lemma SameFiltersOfTails(a: seq<string>, b: seq<string>, n: nat)
    requires a != [] && b != [] && a[0] == b[0]
    requires OfLength(a, n) == OfLength(b, n)
    ensures OfLength(a[1..], n) == OfLength(b[1..], n)
  {
    var head := if |a[0]| == n then [a[0]] else [];
    var ta, tb := OfLength(a[1..], n), OfLength(b[1..], n);
    assert OfLength(a, n) == head + ta;
    assert OfLength(b, n) == head + tb;
    assert ta == (head + ta)[|head|..];
    assert tb == (head + tb)[|head|..];
  }

  /** Two lists ordered by descending length with the same elements of every
      length, in the same order, are equal: a stable sort by length has only
      one possible result. */
  lemma {:induction false} SortedUnique(a: seq<string>, b: seq<string>)
    requires SortedByLength(a) && SortedByLength(b)
    requires forall n: nat :: OfLength(a, n) == OfLength(b, n)
    ensures a == b
  {
    if a != [] {
      SameFiltersHoldFirst(a, b);
    }
    if b != [] {
      SameFiltersHoldFirst(b, a);
    }
    if a != [] {
      FirstIsLongest(b, a[0]);
      FirstIsLongest(a, b[0]);
      var len := |a[0]|;
      assert OfLength(a, len)[0] == a[0];
      assert OfLength(b, len)[0] == b[0];
      assert OfLength(a, len) == OfLength(b, len);
      forall n: nat ensures OfLength(a[1..], n) == OfLength(b[1..], n) {
        SameFiltersOfTails(a, b, n);
      }
      SortedUnique(a[1..], b[1..]);
      assert a == [a[0]] + a[1..] && b == [b[0]] + b[1..];
    }
  }

  /** `r` is a stable sort of `s` by descending length: ordered by descending
      length, with the elements of each length as they come in `s`. */
  ghost predicate StableSortOf(r: seq<string>, s: seq<string>) {
    SortedByLength(r) && forall n: nat :: OfLength(r, n) == OfLength(s, n)
  }

  /** `SortByLength` is THE stable sort by descending length: `r` is its result
      exactly when `r` is a stable sort of `s` by descending length. */
  lemma IsStableSortByLength(s: seq<string>, r: seq<string>)
    ensures r == SortByLength(s) <==> StableSortOf(r, s)
  {
    var sorted := SortByLength(s);
    SortSorted(s);
    forall n: nat ensures OfLength(sorted, n) == OfLength(s, n) {
      SortStable(s, n);
    }
    assert StableSortOf(sorted, s);
    if StableSortOf(r, s) {
      forall n: nat ensures OfLength(r, n) == OfLength(sorted, n) {
        assert OfLength(r, n) == OfLength(s, n);
      }
      SortedUnique(r, sorted);
    }
  }

  /** Sorting a list that is already ordered by length changes nothing. */
  lemma SortOfSorted(s: seq<string>)
    requires SortedByLength(s)
    ensures SortByLength(s) == s
  {
    IsStableSortByLength(s, s);
  }
}
