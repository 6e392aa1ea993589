/**
 * A whole puzzle: each scrambled word is solved on its own, the letters at
 * its circled positions in its first solution are collected in order, and
 * the collected letters are then solved as the final jumble.
 */
module Puzzle {
  import opened Letters
  import opened WordIndex
  import opened Combinations
  import opened FinalJumble

  /** The circle mark; any other character in a mask is a blank. */
  const Circle: char := 'O'

  function Min(a: int, b: int): int
  {
    if a <= b then a else b
  }

  /** The circled positions among the first n of the mask, in increasing order. */
  function CirclePositions(mask: string, n: nat): (r: seq<int>)
    requires n <= |mask|
    ensures Increasing(r) && InRange(r, 0, n)
  {
    if n == 0 then
      []
    else if mask[n - 1] == Circle then
      CirclePositions(mask, n - 1) + [n - 1]
    else
      CirclePositions(mask, n - 1)
  }

  /** A position is listed exactly when it is among the first n and circled. */
  lemma {:induction false} CirclePositionsMembership(mask: string, n: nat, i: int)
    requires n <= |mask|
    ensures i in CirclePositions(mask, n) <==> 0 <= i < n && mask[i] == Circle
  {
    if n > 0 {
      CirclePositionsMembership(mask, n - 1, i);
    }
  }

  /** The letters of word at the circled positions among the first n, in order. */
  function CircledUpTo(word: string, mask: string, n: nat): string
    requires n <= |word| && n <= |mask|
  {
    if n == 0 then
      []
    else
      CircledUpTo(word, mask, n - 1) + (if mask[n - 1] == Circle then [word[n - 1]] else [])
  }

  /** Walking word and mask side by side, as far as the shorter one goes, keeps the circled letters. */
  function Circled(word: string, mask: string): string
  {
    CircledUpTo(word, mask, Min(|word|, |mask|))
  }

  lemma RangeWithin(v: seq<int>, n: int, m: int)
    requires InRange(v, 0, n) && n <= m
    ensures InRange(v, 0, m)
  {
  }

  /** The circled letters are the word picked at the circled positions. */
  lemma {:induction false} CircledIsPick(word: string, mask: string, n: nat)
    requires n <= |word| && n <= |mask|
    ensures InRange(CirclePositions(mask, n), 0, |word|)
    ensures CircledUpTo(word, mask, n) == Pick(word, CirclePositions(mask, n))
  {
    RangeWithin(CirclePositions(mask, n), n, |word|);
    if n > 0 {
      var u := CirclePositions(mask, n - 1);
      CircledIsPick(word, mask, n - 1);
      if mask[n - 1] == Circle {
        PickSnoc(word, u, n - 1);
      } else {
        assert CircledUpTo(word, mask, n) == CircledUpTo(word, mask, n - 1) + [];
      }
    }
  }

  /** The circled letters are drawn from the word, one for each circle within the word's length. */
  lemma CircledFromWord(word: string, mask: string)
    ensures multiset(Circled(word, mask)) <= multiset(word)
    ensures |Circled(word, mask)| == |CirclePositions(mask, Min(|word|, |mask|))|
  {
    var n := Min(|word|, |mask|);
    CircledIsPick(word, mask, n);
    PickSubMultiset(word, CirclePositions(mask, n));
  }

  /**
   * What one scrambled word adds to the final letters: nothing when it has
   * no solution, otherwise the circled letters of its first solution. Those
   * are always letters of the scrambled word itself.
   */
  function Contribution(scrambled: string, mask: string, d: Index): (r: string)
    ensures ValidIndex(d) ==> multiset(r) <= multiset(scrambled)
  {
    var ws := SolveOneJumble(scrambled, d);
    if ws == [] then
      []
    else
      assert ws[0] in ws;
      CircledFromWord(ws[0], mask);
      Circled(ws[0], mask)
  }

  /** A solved word adds one letter per circle within its length. */
  lemma SolvedContribution(scrambled: string, mask: string, d: Index)
    requires ValidIndex(d) && SolveOneJumble(scrambled, d) != []
    ensures |Contribution(scrambled, mask, d)| == |CirclePositions(mask, Min(|scrambled|, |mask|))|
  {
    var w := SolveOneJumble(scrambled, d)[0];
    assert IsAnagram(w, scrambled);
    assert |w| == |multiset(w)| == |multiset(scrambled)| == |scrambled|;
    CircledFromWord(w, mask);
  }

  /** The scrambled words run together. */
  function Concat(words: seq<string>): string
  {
    if words == [] then [] else Concat(words[..|words| - 1]) + words[|words| - 1]
  }

  /**
   * The final letters: the contributions of the scrambled words in order.
   * Scrambled word i is read with mask i, so there must be a mask for each.
   */
  function AllCircled(letters: seq<string>, circles: seq<string>, d: Index): string
    requires |letters| <= |circles|
  {
    if letters == [] then
      []
    else
      var n := |letters| - 1;
      AllCircled(letters[..n], circles, d) + Contribution(letters[n], circles[n], d)
  }

  /** One more scrambled word appends its contribution. */
  lemma AllCircledSnoc(letters: seq<string>, circles: seq<string>, d: Index, i: nat)
    requires i < |letters| <= |circles|
    ensures AllCircled(letters[..i + 1], circles, d) ==
            AllCircled(letters[..i], circles, d) + Contribution(letters[i], circles[i], d)
  {
    assert letters[..i + 1][..i] == letters[..i];
  }

  /** The solutions of each scrambled word, in order. */
  function SolveAll(letters: seq<string>, d: Index): (r: seq<seq<string>>)
    ensures |r| == |letters|
  {
    if letters == [] then [] else SolveAll(letters[..|letters| - 1], d) + [SolveOneJumble(letters[|letters| - 1], d)]
  }

  /** Entry i of the solutions is the answer to scrambled word i. */
  lemma {:induction false} SolveAllAt(letters: seq<string>, d: Index, i: nat)
    requires i < |letters|
    ensures SolveAll(letters, d)[i] == SolveOneJumble(letters[i], d)
  {
    var n := |letters| - 1;
    var front := letters[..n];
    assert SolveAll(letters, d) == SolveAll(front, d) + [SolveOneJumble(letters[n], d)];
    if i < n {
      SolveAllAt(front, d, i);
      assert front[i] == letters[i];
    }
  }

  /** One more scrambled word appends its solutions. */
  lemma SolveAllSnoc(letters: seq<string>, d: Index, i: nat)
    requires i < |letters|
    ensures SolveAll(letters[..i + 1], d) == SolveAll(letters[..i], d) + [SolveOneJumble(letters[i], d)]
  {
    assert letters[..i + 1][..i] == letters[..i];
  }

  /** Every final letter comes from some scrambled word, never more often than the words hold it. */
  lemma {:induction false} FinalLettersFromJumbles(letters: seq<string>, circles: seq<string>, d: Index)
    requires |letters| <= |circles| && ValidIndex(d)
    ensures multiset(AllCircled(letters, circles, d)) <= multiset(Concat(letters))
  {
    if letters != [] {
      var n := |letters| - 1;
      FinalLettersFromJumbles(letters[..n], circles, d);
    }
  }

  /** When no scrambled word has a solution there are no final letters. */
  lemma {:induction false} NothingSolvedNoLetters(letters: seq<string>, circles: seq<string>, d: Index)
    requires |letters| <= |circles|
    requires forall i :: 0 <= i < |letters| ==> SolveOneJumble(letters[i], d) == []
    ensures AllCircled(letters, circles, d) == []
  {
    if letters != [] {
      var n := |letters| - 1;
      NothingSolvedNoLetters(letters[..n], circles, d);
    }
  }

  /** The zip loop: appends the letters of word whose mask position is circled. */
  method AppendCircled(finalLetters: string, word: string, mask: string) returns (r: string)
    ensures r == finalLetters + Circled(word, mask)
  {
    r := finalLetters;
    for i := 0 to Min(|word|, |mask|)
      invariant r == finalLetters + CircledUpTo(word, mask, i)
    {
      if mask[i] == Circle {
        r := r + [word[i]];
      }
    }
  }

  /** The first `count` scrambled words are solved into `solutions` and their contributions collected. */
  ghost predicate Collected(letters: seq<string>, circles: seq<string>, d: Index, count: nat,
                            solutions: seq<seq<string>>, finalLetters: string)
  {
    && count <= |letters| <= |circles|
    && solutions == SolveAll(letters[..count], d)
    && finalLetters == AllCircled(letters[..count], circles, d)
  }

  /**
   * Solves each scrambled word in turn, reporting its solutions, and
   * collects the circled letters of the first solution of each solved word.
   */
  method CollectCircledLetters(letters: seq<string>, circles: seq<string>, d: Index)
      returns (solutions: seq<seq<string>>, finalLetters: string)
    requires |letters| <= |circles|
    ensures solutions == SolveAll(letters, d)
    ensures finalLetters == AllCircled(letters, circles, d)
  {
    solutions, finalLetters := [], [];
    assert letters[..0] == [];
    for index := 0 to |letters|
      invariant Collected(letters, circles, d, index, solutions, finalLetters)
    {
      solutions, finalLetters := SolveJumble(letters, circles, d, index, solutions, finalLetters);
    }
    assert letters[..|letters|] == letters;
  }

  /** One turn of the loop: solves scrambled word `index` and adds its circled letters if it was solved. */
  method SolveJumble(letters: seq<string>, circles: seq<string>, d: Index, index: nat,
                     solutions: seq<seq<string>>, finalLetters: string)
      returns (solutions': seq<seq<string>>, finalLetters': string)
    requires index < |letters| && Collected(letters, circles, d, index, solutions, finalLetters)
    ensures Collected(letters, circles, d, index + 1, solutions', finalLetters')
  {
    AllCircledSnoc(letters, circles, d, index);
    SolveAllSnoc(letters, d, index);
    var words := SolveOneJumble(letters[index], d);
    solutions', finalLetters' := solutions + [words], finalLetters;
    if words != [] {
      finalLetters' := AppendCircled(finalLetters, words[0], circles[index]);
    }
  }

  /**
   * The whole puzzle. The final jumble is attempted only when some letters
   * were collected; then `mismatch` and `phrases` are those of the final
   * jumble solver.
   */
  method SolveWordJumble(letters: seq<string>, circles: seq<string>, final: seq<string>, d: Index)
      returns (solutions: seq<seq<string>>, finalLetters: string, attempted: bool, mismatch: bool, phrases: seq<Phrase>)
    requires |letters| <= |circles|
    ensures solutions == SolveAll(letters, d)
    ensures finalLetters == AllCircled(letters, circles, d)
    ensures attempted <==> finalLetters != []
    ensures attempted ==> (mismatch <==> TotalLength(final) != |finalLetters|)
    ensures attempted ==> phrases == FinalPhrases(finalLetters, final, d)
    ensures !attempted ==> !mismatch && phrases == []
  {
    solutions, finalLetters := CollectCircledLetters(letters, circles, d);
    attempted := finalLetters != [];
    if !attempted {
      return solutions, finalLetters, attempted, false, [];
    }
    mismatch, phrases := SolveFinalJumble(finalLetters, final, d);
  }

  /**
   * Over the index of a dictionary, every two-word answer to the puzzle is a
   * pair of dictionary words whose letters are all drawn from the scrambled words.
   */
  lemma PuzzlePhraseFromJumbles(letters: seq<string>, circles: seq<string>, final: seq<string>,
                                d: Index, words: seq<string>, p: Phrase)
    requires IsWordsDict(d, words) && |letters| <= |circles| && |final| == 2
    requires p in FinalPhrases(AllCircled(letters, circles, d), final, d)
    ensures |p| == 2 && p[0] in words && p[1] in words
    ensures multiset(p[0] + p[1]) <= multiset(Concat(letters))
  {
    WordsDictFilesEveryWord(d, words);
    TwoGroupSound(AllCircled(letters, circles, d), final, d, words, p);
    FinalLettersFromJumbles(letters, circles, d);
  }
}
