# Word jumble solver, modelled in Dafny

A model of the core of `wordjumble.py`, a solver for newspaper word jumbles.
A puzzle has several scrambled words, each with a mask marking its
circled positions, and a final pattern of word groups. Each scrambled word is
solved by anagram lookup in an index built from a dictionary. The letters
at the circled positions of each word's first solution are collected in
order, and the collected letters are unscrambled into a phrase with one word
per group.

The model has five modules, one file each, following the structure of the program:

- `Letters` (`letters.dfy`): the canonical key, `sorted_letters`. A string's key is its
  characters in non-decreasing order. The key is proved unique, so any sorting
  algorithm gives the same key, and two strings share a key exactly when they are
  anagrams.
- `WordIndex` (`word_index.dfy`): the anagram index and its lookup, `create_words_dict`
  and `solve_one_jumble`.
  - The index is a `map` from keys to buckets, and the building loop is a method
    proved equal to a specification function.
  - Each bucket is proved to be the dictionary filtered by its key, in dictionary
    order, with duplicates kept.
  - A lookup returns exactly the dictionary words that are anagrams of the letters.
- `Combinations` (`combinations.dfy`): the odometer of `get_combinations`.
  - The index list is an `array<int>` updated in place. The scan for the pivot
    and the increment-and-reset are methods on that array.
  - The odometer is proved to produce the lexicographic enumeration `CombosFrom`
    of strictly increasing index vectors.
  - The enumeration is proved complete, strictly ordered and free of repeats, and
    to have `C(n, k)` members.
  - The edge cases `k < 0`, `k > n` and `k == 0` are handled as in the source.
- `FinalJumble` (`final_jumble.dfy`): `solve_final_jumble`.
  - A pattern that does not have room for exactly the letters gives no phrases,
    and a flag stands for the message printed in that case.
  - One group gives the single-word solutions.
  - Two groups give the de-duplicated splits. The remainder is removed letter by
    letter, as `list.remove` does, and a seen-set filters the phrases.
  - Any other number of groups gives no phrases.
  - The nested loops are methods proved equal to the specification function
    `FinalPhrases`.
  - For two groups, the phrases are proved sound, complete and free of repeats.
    For one group they are proved to be exactly the single-word anagrams.
- `Puzzle` (`puzzle.dfy`): the collecting loop of `solve_word_jumble`.
  - The inner zip over the first solution and the mask stops at the shorter of
    the two.
  - An unsolved word contributes nothing.
  - The final jumble is attempted only when some letters were collected.
  - The collected letters are proved to be drawn from the scrambled words.

Strings are `seq<char>`. Tuples of words are sequences of words (`Phrase`).

## Model

| member | source | states |
|---|---|---|
| Letters.SortedLetters | wordjumble.py:30-44 | the key is sorted and has the same characters, with the same counts, as the input |
| Letters.Insert | wordjumble.py:44 | inserting into a sorted string keeps it sorted and adds exactly that character |
| Letters.SortedUnique | wordjumble.py:44 | two sorted strings with the same characters are equal, so the key does not depend on the sorting algorithm |
| Letters.SortedLettersIdempotent | wordjumble.py:30-44 | the key of a key is the key itself |
| Letters.SameKeyIffAnagram | wordjumble.py:30-44 | two strings have the same key if and only if they are anagrams |
| WordIndex.CreateWordsDict | wordjumble.py:47-77 | the loop builds the index of the dictionary: one key per key of a word, and each bucket is the key's words in dictionary order |
| WordIndex.AddWord | wordjumble.py:68-75 | one pass of the loop body files the word at the end of its key's bucket, opening the bucket when the key is new |
| WordIndex.WordsDictBuckets | wordjumble.py:63-77 | the index has exactly the keys of the words, and each bucket is the key's filter of the dictionary |
| WordIndex.BucketMembership | wordjumble.py:66-75 | a word is in a bucket if and only if it is a dictionary word with that key |
| WordIndex.BucketCount | wordjumble.py:66-75 | a bucket holds a word as many times as the dictionary does, so duplicates are not merged |
| WordIndex.BucketAppend | wordjumble.py:66-75 | bucketing a concatenation gives the two bucketings one after the other, so buckets keep dictionary order |
| WordIndex.KeysOfMembership | wordjumble.py:68-72 | a key is present if and only if some dictionary word has it |
| WordIndex.WordsDictFilesEveryWord | wordjumble.py:47-77 | every bucket holds only words with its own key, every word is filed under its key, and no bucket is empty |
| WordIndex.SolveOneJumble | wordjumble.py:80-102 | over a well-formed index, every word returned is an anagram of the letters |
| WordIndex.SolveOneJumbleIsBucket | wordjumble.py:96-100 | the lookup returns the bucket of the letters' key, and an empty list for a missing key |
| WordIndex.SolveOneJumbleFinds | wordjumble.py:80-102 | a word is returned if and only if it is a dictionary word and an anagram of the letters |
| Combinations.Combinations | wordjumble.py:105-140 | every enumerated index vector has k entries, is strictly increasing and lies in [0, n) |
| Combinations.Pick | wordjumble.py:123 | the tuple has one item per index, item t being the item at index t |
| Combinations.PickAll | wordjumble.py:121-124 | the result has one tuple per index vector, in order |
| Combinations.Scan | wordjumble.py:127-129 | the pivot is -1 or a position below the start whose index is not yet at its largest value |
| Combinations.Advance | wordjumble.py:136-138 | increment-and-reset keeps the number of indices |
| Combinations.CombosAt | wordjumble.py:119-138 | each enumerated vector has k entries, is strictly increasing, lies in [lo, n) and has entry t at most n - k + t |
| Combinations.CombosCount | wordjumble.py:105-140 | the enumeration has C(n - lo, k) members |
| Combinations.CombinationsComplete | wordjumble.py:105-140 | every strictly increasing vector in [0, n) is enumerated |
| Combinations.CombosSorted | wordjumble.py:121-138 | the enumeration is strictly increasing in lexicographic order |
| Combinations.CombosDistinct | wordjumble.py:121-138 | no vector is enumerated twice |
| Combinations.CombosFirst | wordjumble.py:119 | when lo + k <= n the enumeration is non-empty and starts with lo, lo + 1, ..., lo + k - 1 |
| Combinations.NextIsSuccessor | wordjumble.py:126-138 | one scan-and-advance step moves from each enumerated vector to the next one, and stops after the last |
| Combinations.AdvanceValid | wordjumble.py:136-138 | advancing at a position below its largest value keeps the vector increasing, in range and bounded, and raises that entry by one |
| Combinations.AdvanceKeepsInvariant | wordjumble.py:126-138 | a step that does not stop yields a valid vector of the same length that is lexicographically greater |
| Combinations.PickSubMultiset | wordjumble.py:123 | items picked at increasing indices are a sub-multiset of the items |
| Combinations.SubMultisetPicked | wordjumble.py:123 | every sub-multiset of the items is picked by some increasing index vector |
| Combinations.FindPivot | wordjumble.py:127-129 | the inner while loop over the array returns the scan's pivot |
| Combinations.AdvanceInPlace | wordjumble.py:136-138 | the array after the increment and the reset loop is the advanced vector |
| Combinations.Turn | wordjumble.py:122-138 | one turn of the outer loop appends the current tuple and either moves to the next enumerated vector or finishes with every tuple picked |
| Combinations.RunOdometer | wordjumble.py:118-140 | for 0 < k <= n the odometer returns the items picked at every enumerated vector, in order |
| Combinations.GetCombinations | wordjumble.py:105-140 | gives no tuples for k < 0 or k > n and one empty tuple for k == 0; otherwise the tuples of all k-combinations in lexicographic order, C(n, k) of them |
| FinalJumble.RemoveFirst | wordjumble.py:188 | removing one occurrence shortens the string by one and takes exactly one copy of that letter out |
| FinalJumble.RemoveFirstSplits | wordjumble.py:188 | the occurrence removed is the first one |
| FinalJumble.RemoveAll | wordjumble.py:186-189 | removing a sub-multiset letter by letter leaves the multiset difference, shorter by the length of the combination |
| FinalJumble.RemoveLetters | wordjumble.py:186-189 | the loop never removes a missing letter, and what is left together with the combination is exactly the letters |
| FinalJumble.Candidates | wordjumble.py:181-183 | every candidate first word has the first group's length and is drawn from the letters |
| FinalJumble.AddRow | wordjumble.py:197-201 | the innermost loop appends the unseen phrases of one first word and keeps the seen-set equal to the kept phrases |
| FinalJumble.AddPairs | wordjumble.py:196-201 | the two inner loops append the unseen pairs of all first and second words and keep the seen-set equal to the kept phrases |
| FinalJumble.AddCombination | wordjumble.py:181-201 | one pass of the outer loop adds the unseen phrases of one combination |
| FinalJumble.SolveTwoGroups | wordjumble.py:177-201 | the two-group search returns the de-duplicated phrases of all combinations, in order |
| FinalJumble.SolveFinalJumble | wordjumble.py:143-203 | reports a mismatch exactly when the groups' total length differs from the number of letters, and then returns nothing; returns nothing for other than one or two groups; otherwise returns the specified phrases |
| FinalJumble.AddAllAppend | wordjumble.py:181-201 | filtering a concatenation filters the first part and then the second |
| FinalJumble.AddAllMembership | wordjumble.py:199-201 | a phrase is kept if and only if it was already kept or is offered |
| FinalJumble.AddAllDistinct | wordjumble.py:199-201 | the seen-set filter never keeps a phrase twice |
| FinalJumble.RowMembership | wordjumble.py:197-198 | a row holds exactly the pairs of its first word with a second word |
| FinalJumble.PairsMembership | wordjumble.py:196-198 | the pairs are exactly those of a first word and a second word |
| FinalJumble.AllPairsSource | wordjumble.py:181-201 | every phrase comes from some combination |
| FinalJumble.AllPairsInclude | wordjumble.py:181-201 | every phrase of every combination is among the phrases |
| FinalJumble.FinalPhrasesDistinct | wordjumble.py:172-203 | outside the one-group case no phrase is returned twice |
| FinalJumble.TwoGroupLength | wordjumble.py:160 | the room of a two-group pattern is the sum of its group lengths |
| FinalJumble.TwoGroupSound | wordjumble.py:177-201 | each two-word phrase is two dictionary words of the group lengths whose letters together are exactly the letters |
| FinalJumble.TwoGroupComplete | wordjumble.py:177-201 | every pair of dictionary words, the first of the first group's length, whose letters together are exactly the letters is returned |
| FinalJumble.SplitIsWhole | wordjumble.py:183-193 | anagrams of a combination and of what it leaves together use exactly the letters |
| FinalJumble.CandidateFor | wordjumble.py:181-189 | for any split of the letters some candidate is an anagram of the first word, and what it leaves is an anagram of the second |
| FinalJumble.OneGroupExact | wordjumble.py:166-169 | with one group, a phrase is returned if and only if it is one dictionary word that is an anagram of the letters |
| FinalJumble.SinglesMembership | wordjumble.py:169 | the one-word phrases are exactly the words found |
| Puzzle.CirclePositions | wordjumble.py:235-236 | the circled positions are strictly increasing and within the walked length |
| Puzzle.CirclePositionsMembership | wordjumble.py:235-236 | a position is listed if and only if it is within the walked length and its mask character is 'O' |
| Puzzle.CircledIsPick | wordjumble.py:235-237 | the collected letters are the word picked at the circled positions |
| Puzzle.CircledFromWord | wordjumble.py:235-237 | the collected letters are drawn from the word, one per circle within the shorter of word and mask |
| Puzzle.Contribution | wordjumble.py:225-237 | over a well-formed index, the letters a scrambled word contributes are drawn from that scrambled word |
| Puzzle.SolvedContribution | wordjumble.py:229-237 | a solved word contributes one letter per circle within the shorter of word and mask |
| Puzzle.SolveAll | wordjumble.py:220-225 | there is one list of solutions per scrambled word |
| Puzzle.SolveAllAt | wordjumble.py:220-225 | entry i holds the solutions of scrambled word i |
| Puzzle.FinalLettersFromJumbles | wordjumble.py:217-237 | the final letters are a sub-multiset of the scrambled words' letters |
| Puzzle.NothingSolvedNoLetters | wordjumble.py:229-242 | when no scrambled word is solved there are no final letters |
| Puzzle.AppendCircled | wordjumble.py:235-237 | the zip loop appends exactly the circled letters of the word |
| Puzzle.SolveJumble | wordjumble.py:220-237 | one pass of the loop solves the next word and adds its contribution |
| Puzzle.CollectCircledLetters | wordjumble.py:217-237 | the loop reports each word's solutions and collects exactly the final letters |
| Puzzle.SolveWordJumble | wordjumble.py:206-245 | the final jumble is attempted if and only if letters were collected, and then its mismatch flag and phrases are those of the final jumble solver |
| Puzzle.PuzzlePhraseFromJumbles | wordjumble.py:206-245 | every two-word answer is two dictionary words whose letters are drawn from the scrambled words |

## Left out

- Reading the dictionary file (`get_file_lines`, wordjumble.py:14-27): file I/O. The model takes the list of words as a parameter, already upper-cased.
- All console output: the per-word report, "(no solution)", the final report and the mismatch message. The model returns the solutions, the collected letters, an `attempted` flag and a `mismatch` flag instead.
- The four demonstration puzzles and the entry point: fixed data and printing.
- Letters.SortedLetters: sorts by insertion sort rather than by the library's sort. Only the result matters, and it is unique by Letters.SortedUnique.
- Letters.SortedLetters: does no case folding, because the source does none either. A case-insensitive key is wanted by the design; the source relies on the dictionary being upper-cased when it is read.
- FinalJumble.SolveFinalJumble: returns no phrases for three or more groups, and for no groups, just as the source does. The design asks for an explicit failure in that case, but the source has none.
- Puzzle.SolveWordJumble: requires a mask for every scrambled word. The source indexes the mask list by the word's position and would fail with an index error otherwise.
- Puzzle.AppendCircled: a mask of a different length from its word is not an error. Walking the two side by side stops at the shorter one, as `zip` does. The design's mask-length failure is not in the source.
- Tuples of letters are sequences of characters, and phrases are sequences of words. Python's tuple, list and string types are not distinguished.
