/**
 * The final jumble: the circled letters are unscrambled into a phrase with
 * one word per group of the final pattern. A single group is one lookup. Two
 * groups are solved by an exhaustive split: every combination of the letters
 * of the first group's size is looked up as the first word, the letters left
 * over after removing it as the second, and every resulting pair is kept once.
 * Any other number of groups gives no phrases.
 */
module FinalJumble {
  import opened Letters
  import opened WordIndex
  import opened Combinations

  /** A phrase: one word per group of the final pattern. */
  type Phrase = seq<string>

  // ---------------------------------------------------------------------
  // Removing letters by count

  /** The string without the first occurrence of c, as list.remove leaves it. */
  function RemoveFirst(s: string, c: char): (r: string)
    requires c in s
    ensures |r| == |s| - 1
    ensures multiset(r) == multiset(s) - multiset{c}
  {
    assert s == [s[0]] + s[1..];
    if s[0] == c then s[1..] else [s[0]] + RemoveFirst(s[1..], c)
  }

  /** RemoveFirst cuts s at the first occurrence of c and drops that one letter. */
  lemma {:induction false} RemoveFirstSplits(s: string, c: char) returns (before: string, after: string)
    requires c in s
    ensures s == before + [c] + after && c !in before
    ensures RemoveFirst(s, c) == before + after
  {
    var t := s[1..];
    assert s == [s[0]] + t;
    if s[0] == c {
      before, after := [], t;
    } else {
      var b, a := RemoveFirstSplits(t, c);
      before, after := [s[0]] + b, a;
      ConsAssociates(s[0], b, [c] + a);
      ConsAssociates(s[0], b, a);
    }
  }

  lemma ConsAssociates(x: char, b: string, a: string)
    ensures [x] + (b + a) == ([x] + b) + a
  {
  }

  /** The string after removing the letters of combo one by one, in order. */
  function RemoveAll(s: string, combo: string): (r: string)
    requires multiset(combo) <= multiset(s)
    ensures |r| == |s| - |combo|
    ensures multiset(r) == multiset(s) - multiset(combo)
    decreases |combo|
  {
    if combo == [] then
      s
    else
      HeadPresent(s, combo);
      var rest := RemoveFirst(s, combo[0]);
      var r := RemoveAll(rest, combo[1..]);
      RemovedInTurn(s, combo, rest, r);
      r
  }

  /** The first letter of a sub-multiset of s occurs in s, and the others are a sub-multiset of what is left. */
  lemma HeadPresent(s: string, combo: string)
    requires combo != [] && multiset(combo) <= multiset(s)
    ensures combo[0] in s
    ensures multiset(combo[1..]) <= multiset(s) - multiset{combo[0]}
  {
    assert combo == [combo[0]] + combo[1..];
    assert multiset(combo) == multiset{combo[0]} + multiset(combo[1..]);
    assert combo[0] in multiset(s);
  }

  /** Removing the first letter and then the others removes them all. */
  lemma RemovedInTurn(s: string, combo: string, rest: string, r: string)
    requires combo != [] && multiset(combo) <= multiset(s)
    requires multiset(rest) == multiset(s) - multiset{combo[0]}
    requires multiset(r) == multiset(rest) - multiset(combo[1..])
    ensures multiset(r) == multiset(s) - multiset(combo)
  {
    assert combo == [combo[0]] + combo[1..];
    assert multiset(combo) == multiset{combo[0]} + multiset(combo[1..]);
  }

  /**
   * The remainder loop: starting from the letters, removes each letter of
   * the combination in turn. Every removal finds its letter, and the letters
   * left over together with the combination are exactly the letters.
   */
  method RemoveLetters(letters: string, combo: string) returns (remaining: string)
    requires multiset(combo) <= multiset(letters)
    ensures remaining == RemoveAll(letters, combo)
    ensures multiset(remaining) + multiset(combo) == multiset(letters)
    ensures |remaining| == |letters| - |combo|
  {
    remaining := letters;
    for i := 0 to |combo|
      invariant multiset(combo[i..]) <= multiset(remaining)
      invariant RemoveAll(remaining, combo[i..]) == RemoveAll(letters, combo)
    {
      ghost var tail := combo[i..];
      assert tail[0] == combo[i] && tail[1..] == combo[i + 1..];
      HeadPresent(remaining, tail);
      remaining := RemoveFirst(remaining, combo[i]);
    }
    assert combo[|combo|..] == [];
    SubtractedBack(letters, combo, remaining);
  }

  /** What is left after removing a sub-multiset, together with it, is the whole. */
  lemma SubtractedBack(letters: string, combo: string, remaining: string)
    requires multiset(combo) <= multiset(letters)
    requires multiset(remaining) == multiset(letters) - multiset(combo)
    ensures multiset(remaining) + multiset(combo) == multiset(letters)
  {
  }

  // ---------------------------------------------------------------------
  // Phrases, in the order the nested loops produce them

  /** The phrases (w1, w2) for each second word w2, in order. */
  function Row(w1: string, seconds: seq<string>): (r: seq<Phrase>)
    ensures |r| == |seconds|
  {
    if seconds == [] then [] else Row(w1, seconds[..|seconds| - 1]) + [[w1, seconds[|seconds| - 1]]]
  }

  /** The phrases (w1, w2) for every first word w1 and then every second word w2. */
  function Pairs(firsts: seq<string>, seconds: seq<string>): seq<Phrase>
  {
    if firsts == [] then [] else Pairs(firsts[..|firsts| - 1], seconds) + Row(firsts[|firsts| - 1], seconds)
  }

  /** The phrases one combination yields: its words first, the words of the letters left over second. */
  function SplitPairs(letters: string, combo: string, d: Index): seq<Phrase>
    requires multiset(combo) <= multiset(letters)
  {
    Pairs(SolveOneJumble(combo, d), SolveOneJumble(RemoveAll(letters, combo), d))
  }

  /** Every combination is a sub-multiset of the letters. */
  ghost predicate AllSubMultisets(letters: string, combos: seq<string>)
  {
    forall j :: 0 <= j < |combos| ==> multiset(combos[j]) <= multiset(letters)
  }

  /** The phrases of all combinations, in order, repeats included. */
  function AllPairs(letters: string, combos: seq<string>, d: Index): seq<Phrase>
    requires AllSubMultisets(letters, combos)
  {
    if combos == [] then
      []
    else
      AllPairs(letters, combos[..|combos| - 1], d) + SplitPairs(letters, combos[|combos| - 1], d)
  }

  /** acc extended by the elements of s that are not yet in it, in order: the seen-set filter. */
  function AddAll(acc: seq<Phrase>, s: seq<Phrase>): seq<Phrase>
  {
    if s == [] then
      acc
    else
      var p := AddAll(acc, s[..|s| - 1]);
      if s[|s| - 1] in p then p else p + [s[|s| - 1]]
  }

  /** No phrase occurs twice. */
  predicate Distinct(s: seq<Phrase>)
  {
    forall i, j :: 0 <= i < j < |s| ==> s[i] != s[j]
  }

  /** The candidate first words: the letters taken at each k-combination of their positions. */
  function Candidates(letters: string, k: int): (r: seq<string>)
    ensures forall j :: 0 <= j < |r| ==> |r[j]| == k && multiset(r[j]) <= multiset(letters)
  {
    var vs := Combinations.Combinations(|letters|, k);
    var r := PickAll(letters, vs);
    assert forall j :: 0 <= j < |r| ==> |r[j]| == k && multiset(r[j]) <= multiset(letters) by {
      forall j | 0 <= j < |r|
        ensures |r[j]| == k && multiset(r[j]) <= multiset(letters)
      {
        PickSubMultiset(letters, vs[j]);
      }
    }
    r
  }

  /** The number of letters the final pattern has room for. */
  function TotalLength(groups: seq<string>): nat
  {
    if groups == [] then 0 else TotalLength(groups[..|groups| - 1]) + |groups[|groups| - 1]|
  }

  /** Each word as a phrase of one word. */
  function Singles(words: seq<string>): (r: seq<Phrase>)
    ensures |r| == |words|
  {
    if words == [] then [] else Singles(words[..|words| - 1]) + [[words[|words| - 1]]]
  }

  /**
   * The phrases of the final jumble: none when the pattern does not have
   * room for exactly the letters, the single-word solutions for one group,
   * the de-duplicated two-word splits for two groups, and none otherwise.
   */
  function FinalPhrases(letters: string, finalCircles: seq<string>, d: Index): seq<Phrase>
  {
    if TotalLength(finalCircles) != |letters| then
      []
    else if |finalCircles| == 1 then
      Singles(SolveOneJumble(letters, d))
    else if |finalCircles| == 2 then
      AddAll([], AllPairs(letters, Candidates(letters, |finalCircles[0]|), d))
    else
      []
  }

  // ---------------------------------------------------------------------
  // The solver

  /** `seen` holds exactly the phrases kept so far. */
  ghost predicate SeenIs(seen: set<Phrase>, phrases: seq<Phrase>)
  {
    forall p :: p in seen <==> p in phrases
  }

  /** The innermost loop: pairs w1 with each second word, keeping the phrases not seen before. */
  method AddRow(w1: string, seconds: seq<string>, phrases: seq<Phrase>, seen: set<Phrase>)
      returns (phrases': seq<Phrase>, seen': set<Phrase>)
    requires SeenIs(seen, phrases)
    ensures phrases' == AddAll(phrases, Row(w1, seconds))
    ensures SeenIs(seen', phrases')
  {
    phrases', seen' := phrases, seen;
    for b := 0 to |seconds|
      invariant phrases' == AddAll(phrases, Row(w1, seconds[..b]))
      invariant SeenIs(seen', phrases')
    {
      assert seconds[..b + 1][..b] == seconds[..b];
      var phrase := [w1, seconds[b]];
      if phrase !in seen' {
        seen' := seen' + {phrase};
        phrases' := phrases' + [phrase];
      }
    }
    assert seconds[..|seconds|] == seconds;
  }

  /** The middle loop: every first word with every second word, keeping unseen phrases. */
  method AddPairs(firsts: seq<string>, seconds: seq<string>, phrases: seq<Phrase>, seen: set<Phrase>)
      returns (phrases': seq<Phrase>, seen': set<Phrase>)
    requires SeenIs(seen, phrases)
    ensures phrases' == AddAll(phrases, Pairs(firsts, seconds))
    ensures SeenIs(seen', phrases')
  {
    phrases', seen' := phrases, seen;
    for a := 0 to |firsts|
      invariant phrases' == AddAll(phrases, Pairs(firsts[..a], seconds))
      invariant SeenIs(seen', phrases')
    {
      assert firsts[..a + 1][..a] == firsts[..a];
      AddAllAppend(phrases, Pairs(firsts[..a], seconds), Row(firsts[a], seconds));
      phrases', seen' := AddRow(firsts[a], seconds, phrases', seen');
    }
    assert firsts[..|firsts|] == firsts;
  }

  /**
   * Solves the final jumble. `mismatch` reports that the pattern does not
   * have room for exactly the letters (the case the program reports before
   * giving up); the phrases are FinalPhrases.
   */
  method SolveFinalJumble(letters: string, finalCircles: seq<string>, d: Index)
      returns (mismatch: bool, phrases: seq<Phrase>)
    ensures mismatch <==> TotalLength(finalCircles) != |letters|
    ensures mismatch ==> phrases == []
    ensures |finalCircles| != 1 && |finalCircles| != 2 ==> phrases == []
    ensures phrases == FinalPhrases(letters, finalCircles, d)
  {
    mismatch := TotalLength(finalCircles) != |letters|;
    if mismatch {
      return mismatch, [];
    }
    if |finalCircles| == 1 {
      return mismatch, Singles(SolveOneJumble(letters, d));
    }
    phrases := [];
    if |finalCircles| == 2 {
      phrases := SolveTwoGroups(letters, |finalCircles[0]|, d);
    }
  }

  /** The two-group case: every combination of k letters against the letters left over. */
  method SolveTwoGroups(letters: string, k: int, d: Index) returns (phrases: seq<Phrase>)
    ensures phrases == AddAll([], AllPairs(letters, Candidates(letters, k), d))
  {
    var combos := GetCombinations(letters, k);
    CandidatesSubMultisets(letters, k);
    phrases := [];
    var seen: set<Phrase> := {};
    ProcessedNone(letters, combos, d);
    for c := 0 to |combos|
      invariant Processed(letters, combos, c, d, phrases)
      invariant SeenIs(seen, phrases)
    {
      phrases, seen := AddCombination(letters, combos, c, d, phrases, seen);
    }
    ProcessedAll(letters, combos, d, phrases);
  }

  /** Every candidate first word is drawn from the letters. */
  lemma CandidatesSubMultisets(letters: string, k: int)
    ensures AllSubMultisets(letters, Candidates(letters, k))
  {
  }

  /** `phrases` are the kept phrases of the first c combinations. */
  ghost predicate Processed(letters: string, combos: seq<string>, c: nat, d: Index, phrases: seq<Phrase>)
  {
    && c <= |combos|
    && AllSubMultisets(letters, combos[..c])
    && phrases == AddAll([], AllPairs(letters, combos[..c], d))
  }

  lemma ProcessedNone(letters: string, combos: seq<string>, d: Index)
    ensures Processed(letters, combos, 0, d, [])
  {
    assert combos[..0] == [];
  }

  lemma ProcessedAll(letters: string, combos: seq<string>, d: Index, phrases: seq<Phrase>)
    requires Processed(letters, combos, |combos|, d, phrases)
    ensures AllSubMultisets(letters, combos)
    ensures phrases == AddAll([], AllPairs(letters, combos, d))
  {
    assert combos[..|combos|] == combos;
  }

  /** One turn of the outer loop: removes the combination's letters and adds the phrases it yields. */
  method AddCombination(letters: string, combos: seq<string>, c: nat, d: Index, phrases: seq<Phrase>, seen: set<Phrase>)
      returns (phrases': seq<Phrase>, seen': set<Phrase>)
    requires c < |combos| && AllSubMultisets(letters, combos)
    requires Processed(letters, combos, c, d, phrases) && SeenIs(seen, phrases)
    ensures Processed(letters, combos, c + 1, d, phrases') && SeenIs(seen', phrases')
  {
    var combo := combos[c];
    var remaining := RemoveLetters(letters, combo);
    var firstWords := SolveOneJumble(combo, d);
    var secondWords := SolveOneJumble(remaining, d);
    AllPairsSnoc(letters, combos, c, d);
    AddAllAppend([], AllPairs(letters, combos[..c], d), SplitPairs(letters, combo, d));
    phrases', seen' := AddPairs(firstWords, secondWords, phrases, seen);
  }

  // ---------------------------------------------------------------------
  // Properties

  /** Extending the processed combinations by one appends its phrases. */
  lemma AllPairsSnoc(letters: string, combos: seq<string>, c: nat, d: Index)
    requires c < |combos| && AllSubMultisets(letters, combos)
    ensures AllSubMultisets(letters, combos[..c]) && AllSubMultisets(letters, combos[..c + 1])
    ensures AllPairs(letters, combos[..c + 1], d) == AllPairs(letters, combos[..c], d) + SplitPairs(letters, combos[c], d)
  {
    assert combos[..c + 1][..c] == combos[..c];
  }

  /** Filtering a concatenation filters the first part and then the second. */
  lemma {:induction false} AddAllAppend(acc: seq<Phrase>, a: seq<Phrase>, b: seq<Phrase>)
    ensures AddAll(acc, a + b) == AddAll(AddAll(acc, a), b)
    decreases |b|
  {
    if b == [] {
      assert a + b == a;
    } else {
      var front := b[..|b| - 1];
      assert (a + b)[..|a + b| - 1] == a + front;
      AddAllAppend(acc, a, front);
    }
  }

  /** The filter keeps exactly the phrases of acc and of s. */
  lemma {:induction false} AddAllMembership(acc: seq<Phrase>, s: seq<Phrase>, x: Phrase)
    ensures x in AddAll(acc, s) <==> x in acc || x in s
    decreases |s|
  {
    if s != [] {
      var front := s[..|s| - 1];
      assert s == front + [s[|s| - 1]];
      AddAllMembership(acc, front, x);
      AddAllMembership(acc, front, s[|s| - 1]);
    }
  }

  /** The filter never keeps a phrase twice. */
  lemma {:induction false} AddAllDistinct(acc: seq<Phrase>, s: seq<Phrase>)
    requires Distinct(acc)
    ensures Distinct(AddAll(acc, s))
    decreases |s|
  {
    if s != [] {
      AddAllDistinct(acc, s[..|s| - 1]);
    }
  }

  /** A row holds exactly the phrases (w1, w2) with w2 among the second words. */
  lemma {:induction false} RowMembership(w1: string, seconds: seq<string>, p: Phrase)
    ensures p in Row(w1, seconds) <==> |p| == 2 && p[0] == w1 && p[1] in seconds
    decreases |seconds|
  {
    if seconds != [] {
      var front := seconds[..|seconds| - 1];
      assert seconds == front + [seconds[|seconds| - 1]];
      RowMembership(w1, front, p);
      if |p| == 2 {
        assert p == [p[0], p[1]];
      }
    }
  }

  /** The pairs are exactly the phrases (w1, w2) of a first word and a second word. */
  lemma {:induction false} PairsMembership(firsts: seq<string>, seconds: seq<string>, p: Phrase)
    ensures p in Pairs(firsts, seconds) <==> |p| == 2 && p[0] in firsts && p[1] in seconds
    decreases |firsts|
  {
    if firsts != [] {
      var front, last := firsts[..|firsts| - 1], firsts[|firsts| - 1];
      assert firsts == front + [last];
      PairsMembership(front, seconds, p);
      RowMembership(last, seconds, p);
    }
  }

  /** The phrases of all combinations are those of all but the last, then those of the last. */
  lemma AllPairsUnfold(letters: string, combos: seq<string>, d: Index)
    requires AllSubMultisets(letters, combos) && combos != []
    ensures AllSubMultisets(letters, combos[..|combos| - 1])
    ensures AllPairs(letters, combos, d) ==
            AllPairs(letters, combos[..|combos| - 1], d) + SplitPairs(letters, combos[|combos| - 1], d)
  {
  }

  /** A phrase of all the combinations comes from one of them. */
  lemma {:induction false} AllPairsSource(letters: string, combos: seq<string>, d: Index, p: Phrase) returns (j: nat)
    requires AllSubMultisets(letters, combos) && p in AllPairs(letters, combos, d)
    ensures j < |combos| && p in SplitPairs(letters, combos[j], d)
    decreases |combos|
  {
    var front, last := combos[..|combos| - 1], combos[|combos| - 1];
    AllPairsUnfold(letters, combos, d);
    if p in AllPairs(letters, front, d) {
      j := AllPairsSource(letters, front, d, p);
      assert combos[j] == front[j];
    } else {
      j := |combos| - 1;
    }
  }

  /** The phrases of any one combination are among the phrases of all of them. */
  lemma {:induction false} AllPairsInclude(letters: string, combos: seq<string>, d: Index, j: nat, p: Phrase)
    requires AllSubMultisets(letters, combos) && j < |combos|
    requires p in SplitPairs(letters, combos[j], d)
    ensures p in AllPairs(letters, combos, d)
    decreases |combos|
  {
    var front := combos[..|combos| - 1];
    AllPairsUnfold(letters, combos, d);
    if j < |combos| - 1 {
      assert combos[j] == front[j];
      AllPairsInclude(letters, front, d, j, p);
    }
  }

  /** The final phrases never repeat. */
  lemma FinalPhrasesDistinct(letters: string, finalCircles: seq<string>, d: Index)
    requires |finalCircles| != 1
    ensures Distinct(FinalPhrases(letters, finalCircles, d))
  {
    if TotalLength(finalCircles) == |letters| && |finalCircles| == 2 {
      AddAllDistinct([], AllPairs(letters, Candidates(letters, |finalCircles[0]|), d));
    }
  }

  /** The room of a two-group pattern is the sum of its two groups. */
  lemma TwoGroupLength(finalCircles: seq<string>)
    requires |finalCircles| == 2
    ensures TotalLength(finalCircles) == |finalCircles[0]| + |finalCircles[1]|
  {
    var first := finalCircles[..1];
    assert first[..0] == [] && first[0] == finalCircles[0];
    assert TotalLength(first) == |finalCircles[0]|;
  }

  /**
   * Every two-word phrase is a pair of dictionary words whose letters
   * together are exactly the letters, the first as long as the first group
   * and the second as long as the second.
   */
  lemma TwoGroupSound(letters: string, finalCircles: seq<string>, d: Index, words: seq<string>, p: Phrase)
    requires IsWordsDict(d, words) && |finalCircles| == 2
    requires p in FinalPhrases(letters, finalCircles, d)
    ensures |p| == 2 && p[0] in words && p[1] in words
    ensures multiset(p[0] + p[1]) == multiset(letters)
    ensures |p[0]| == |finalCircles[0]| && |p[1]| == |finalCircles[1]|
  {
    var k := |finalCircles[0]|;
    var combos := Candidates(letters, k);
    AddAllMembership([], AllPairs(letters, combos, d), p);
    var j := AllPairsSource(letters, combos, d, p);
    var combo := combos[j];
    var rest := RemoveAll(letters, combo);
    PairsMembership(SolveOneJumble(combo, d), SolveOneJumble(rest, d), p);
    SolveOneJumbleFinds(combo, d, words, p[0]);
    SolveOneJumbleFinds(rest, d, words, p[1]);
    SplitIsWhole(letters, combo, p[0], p[1]);
    TwoGroupLength(finalCircles);
  }

  /** Anagrams of a sub-multiset and of what is left of the letters together use exactly the letters. */
  lemma SplitIsWhole(letters: string, combo: string, w1: string, w2: string)
    requires multiset(combo) <= multiset(letters)
    requires IsAnagram(w1, combo) && IsAnagram(w2, RemoveAll(letters, combo))
    ensures multiset(w1 + w2) == multiset(letters)
    ensures |w1| == |combo| && |w2| == |letters| - |combo|
  {
    assert |w1| == |multiset(w1)| && |combo| == |multiset(combo)|;
    var rest := RemoveAll(letters, combo);
    assert |w2| == |multiset(w2)| && |rest| == |multiset(rest)|;
  }

  /**
   * Conversely, every pair of dictionary words whose letters together are
   * exactly the letters, the first as long as the first group, is a phrase.
   */
  lemma TwoGroupComplete(letters: string, finalCircles: seq<string>, d: Index, words: seq<string>, w1: string, w2: string)
    requires IsWordsDict(d, words) && |finalCircles| == 2
    requires TotalLength(finalCircles) == |letters|
    requires w1 in words && w2 in words && |w1| == |finalCircles[0]|
    requires multiset(w1 + w2) == multiset(letters)
    ensures [w1, w2] in FinalPhrases(letters, finalCircles, d)
  {
    var combos := Candidates(letters, |w1|);
    var j, combo := CandidateFor(letters, w1, w2);
    CandidatesSubMultisets(letters, |w1|);
    SplitPairsHas(letters, combo, d, words, w1, w2);
    AllPairsInclude(letters, combos, d, j, [w1, w2]);
    AddAllMembership([], AllPairs(letters, combos, d), [w1, w2]);
    FinalPhrasesOfTwo(letters, finalCircles, d);
  }

  /** With room for exactly the letters in two groups, the phrases are the filtered splits. */
  lemma FinalPhrasesOfTwo(letters: string, finalCircles: seq<string>, d: Index)
    requires |finalCircles| == 2 && TotalLength(finalCircles) == |letters|
    ensures AllSubMultisets(letters, Candidates(letters, |finalCircles[0]|))
    ensures FinalPhrases(letters, finalCircles, d) ==
            AddAll([], AllPairs(letters, Candidates(letters, |finalCircles[0]|), d))
  {
    CandidatesSubMultisets(letters, |finalCircles[0]|);
  }

  /** A combination yields the pair of any dictionary anagram of it and any of what it leaves. */
  lemma SplitPairsHas(letters: string, combo: string, d: Index, words: seq<string>, w1: string, w2: string)
    requires IsWordsDict(d, words) && multiset(combo) <= multiset(letters)
    requires w1 in words && w2 in words
    requires IsAnagram(w1, combo) && IsAnagram(w2, RemoveAll(letters, combo))
    ensures [w1, w2] in SplitPairs(letters, combo, d)
  {
    var rest := RemoveAll(letters, combo);
    SolveOneJumbleFinds(combo, d, words, w1);
    SolveOneJumbleFinds(rest, d, words, w2);
    PairsMembership(SolveOneJumble(combo, d), SolveOneJumble(rest, d), [w1, w2]);
  }

  /**
   * For a split of the letters into w1 and w2, some candidate first word,
   * at position j, is an anagram of w1, and what it leaves is an anagram of w2.
   */
  lemma CandidateFor(letters: string, w1: string, w2: string) returns (j: nat, combo: string)
    requires multiset(w1 + w2) == multiset(letters)
    ensures j < |Candidates(letters, |w1|)| && combo == Candidates(letters, |w1|)[j]
    ensures multiset(combo) <= multiset(letters)
    ensures IsAnagram(w1, combo) && IsAnagram(w2, RemoveAll(letters, combo))
  {
    assert multiset(w1 + w2) == multiset(w1) + multiset(w2);
    var v := SubMultisetPicked(letters, multiset(w1));
    assert |v| == |w1| by {
      assert |Pick(letters, v)| == |multiset(Pick(letters, v))| == |multiset(w1)| == |w1|;
    }
    j := CombinationsComplete(|letters|, v);
    combo := Candidates(letters, |w1|)[j];
    assert combo == Pick(letters, v);
  }

  /** With one group, the phrases are exactly the single dictionary words that are anagrams of the letters. */
  lemma OneGroupExact(letters: string, finalCircles: seq<string>, d: Index, words: seq<string>, p: Phrase)
    requires IsWordsDict(d, words) && |finalCircles| == 1
    requires TotalLength(finalCircles) == |letters|
    ensures p in FinalPhrases(letters, finalCircles, d) <==> |p| == 1 && p[0] in words && IsAnagram(p[0], letters)
  {
    var ws := SolveOneJumble(letters, d);
    SinglesMembership(ws, p);
    if |p| == 1 {
      SolveOneJumbleFinds(letters, d, words, p[0]);
    }
  }

  /** Singles holds exactly the one-word phrases of the words. */
  lemma {:induction false} SinglesMembership(words: seq<string>, p: Phrase)
    ensures p in Singles(words) <==> |p| == 1 && p[0] in words
    decreases |words|
  {
    if words != [] {
      var front := words[..|words| - 1];
      assert words == front + [words[|words| - 1]];
      SinglesMembership(front, p);
      if |p| == 1 {
        assert p == [p[0]];
      }
    }
  }
}
