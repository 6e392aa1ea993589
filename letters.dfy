/**
 * The letter-key normaliser of the word jumble solver: a string is put into
 * canonical form by sorting its characters by code point. Two strings are
 * anagrams exactly when their canonical forms are equal. No case folding
 * happens here; upper-casing is done only when the dictionary file is read.
 */
module Letters {

  /** Non-decreasing by character code point. */
  predicate Sorted(s: string) {
    forall i, j :: 0 <= i < j < |s| ==> s[i] <= s[j]
  }

  /** `a` is a rearrangement of `b`: same characters, same counts. */
  predicate IsAnagram(a: string, b: string) {
    multiset(a) == multiset(b)
  }

  /** Puts `c` into the sorted string `s`, before the first character above it. */
  function Insert(c: char, s: string): (r: string)
    requires Sorted(s)
    ensures Sorted(r)
    ensures multiset(r) == multiset(s) + multiset{c}
  {
    if s == [] || c <= s[0] then
      ConsSorted(c, s);
      [c] + s
    else
      SortedTail(s);
      var rest := Insert(c, s[1..]);
      InsertedAboveHead(c, s, rest);
      ConsSorted(s[0], rest);
      TailMultiset(s);
      [s[0]] + rest
  }

  /** The tail of a sorted string is sorted. */
  lemma SortedTail(s: string)
    requires Sorted(s) && s != []
    ensures Sorted(s[1..])
  {
  }

  /** The characters of a non-empty string are its head and the characters of its tail. */
  lemma TailMultiset(s: string)
    requires s != []
    ensures multiset(s) == multiset{s[0]} + multiset(s[1..])
    ensures multiset(s[1..]) == multiset(s) - multiset{s[0]}
  {
    assert s == [s[0]] + s[1..];
  }

  /** Putting a character no greater than any of a sorted string in front keeps it sorted. */
  lemma ConsSorted(x: char, s: string)
    requires Sorted(s) && forall i :: 0 <= i < |s| ==> x <= s[i]
    ensures Sorted([x] + s)
  {
  }

  /** Inserting above the head of a sorted string leaves every character at least the head. */
  lemma InsertedAboveHead(c: char, s: string, rest: string)
    requires Sorted(s) && s != [] && s[0] < c
    requires multiset(rest) == multiset(s[1..]) + multiset{c}
    ensures forall i :: 0 <= i < |rest| ==> s[0] <= rest[i]
  {
    forall i | 0 <= i < |rest|
      ensures s[0] <= rest[i]
    {
      assert rest[i] in multiset(rest);
      if rest[i] != c {
        assert rest[i] in multiset(s[1..]);
        TailMultiset(s);
        SortedHeadIsLeast(s, rest[i]);
      }
    }
  }

  /**
   * The canonical key: the characters of `s` in non-decreasing order.
   * Any sorting algorithm yields this same string (see SortedUnique).
   */
  function SortedLetters(s: string): (r: string)
    ensures Sorted(r)
    ensures multiset(r) == multiset(s)
    ensures |r| == |s|
  {
    if s == [] then
      []
    else
      assert s == [s[0]] + s[1..];
      Insert(s[0], SortedLetters(s[1..]))
  }

  /** The first character of a sorted string is its least. */
  lemma SortedHeadIsLeast(s: string, x: char)
    requires Sorted(s) && s != [] && x in multiset(s)
    ensures s[0] <= x
  {
    var i :| 0 <= i < |s| && s[i] == x;
  }

  /** A multiset of characters has exactly one sorted arrangement. */
  lemma {:induction false} SortedUnique(a: string, b: string)
    requires Sorted(a) && Sorted(b)
    requires multiset(a) == multiset(b)
    ensures a == b
    decreases |a|
  {
    assert |a| == |multiset(a)| == |multiset(b)| == |b|;
    if a != [] {
      SameHead(a, b);
      SortedTail(a);
      SortedTail(b);
      TailMultiset(a);
      TailMultiset(b);
      SortedUnique(a[1..], b[1..]);
      SameHeadAndTail(a, b);
    }
  }

  /** Strings with the same head and the same tail are equal. */
  lemma SameHeadAndTail(a: string, b: string)
    requires a != [] && b != [] && a[0] == b[0] && a[1..] == b[1..]
    ensures a == b
  {
    assert a == [a[0]] + a[1..];
    assert b == [b[0]] + b[1..];
  }

  /** Two non-empty sorted arrangements of the same characters start alike. */
  lemma SameHead(a: string, b: string)
    requires Sorted(a) && Sorted(b) && a != [] && b != []
    requires multiset(a) == multiset(b)
    ensures a[0] == b[0]
  {
    assert a[0] in multiset(a) && b[0] in multiset(b);
    SortedHeadIsLeast(a, b[0]);
    SortedHeadIsLeast(b, a[0]);
  }

  /** A string that is already sorted is its own key. */
  lemma SortedLettersOfSorted(s: string)
    requires Sorted(s)
    ensures SortedLetters(s) == s
  {
    SortedUnique(SortedLetters(s), s);
  }

  /** Normalising twice gives the same key as normalising once. */
  lemma SortedLettersIdempotent(s: string)
    ensures SortedLetters(SortedLetters(s)) == SortedLetters(s)
  {
    SortedLettersOfSorted(SortedLetters(s));
  }

  /** Two strings share a key exactly when they are anagrams of each other. */
  lemma SameKeyIffAnagram(a: string, b: string)
    ensures SortedLetters(a) == SortedLetters(b) <==> IsAnagram(a, b)
  {
    if IsAnagram(a, b) {
      SortedUnique(SortedLetters(a), SortedLetters(b));
    }
  }
}
