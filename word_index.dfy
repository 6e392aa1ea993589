/**
 * The anagram index: every canonical key maps to the dictionary words that
 * share it, in dictionary order, and a scrambled word is solved by one lookup.
 */
module WordIndex {
  import opened Letters

  /** Canonical key to the words filed under it. */
  type Index = map<string, seq<string>>

  /** The words of `words` whose key is `key`, in input order, repeats kept. */
  function Bucket(words: seq<string>, key: string): seq<string>
  {
    if words == [] then
      []
    else if SortedLetters(words[|words| - 1]) == key then
      Bucket(words[..|words| - 1], key) + [words[|words| - 1]]
    else
      Bucket(words[..|words| - 1], key)
  }

  /** The keys of all words in `words`. */
  function KeysOf(words: seq<string>): set<string>
  {
    if words == [] then {} else KeysOf(words[..|words| - 1]) + {SortedLetters(words[|words| - 1])}
  }

  /** A key occurs exactly when some dictionary word has it. */
  lemma {:induction false} KeysOfMembership(words: seq<string>, key: string)
    ensures key in KeysOf(words) <==> exists w :: w in words && SortedLetters(w) == key
  {
    if words != [] {
      var front, last := words[..|words| - 1], words[|words| - 1];
      assert words == front + [last];
      KeysOfMembership(front, key);
      if key in KeysOf(front) {
        var w :| w in front && SortedLetters(w) == key;
        assert w in words;
      } else if key == SortedLetters(last) {
        assert last in words;
      } else if exists w :: w in words && SortedLetters(w) == key {
        var w :| w in words && SortedLetters(w) == key;
        assert w in front;
      }
    }
  }

  /** Files `word` at the end of its key's bucket, opening the bucket if needed. */
  function FileWord(d: Index, word: string): Index
  {
    var key := SortedLetters(word);
    d[key := (if key in d then d[key] else []) + [word]]
  }

  /** The index of `words`: every word filed in dictionary order. */
  function WordsDict(words: seq<string>): Index
  {
    if words == [] then map[] else FileWord(WordsDict(words[..|words| - 1]), words[|words| - 1])
  }

  /** `d` is exactly the index of `words`. */
  ghost predicate IsWordsDict(d: Index, words: seq<string>)
  {
    d == WordsDict(words)
  }

  /** Every bucket only holds words filed under their own key. */
  ghost predicate ValidIndex(d: Index)
  {
    forall key, w :: key in d && w in d[key] ==> SortedLetters(w) == key
  }

  /** A word is in a bucket exactly when it is a dictionary word with that key. */
  lemma {:induction false} BucketMembership(words: seq<string>, key: string, w: string)
    ensures w in Bucket(words, key) <==> w in words && SortedLetters(w) == key
  {
    if words != [] {
      var front := words[..|words| - 1];
      assert words == front + [words[|words| - 1]];
      BucketMembership(front, key, w);
    }
  }

  /** Each bucket keeps every copy of its words: duplicates are not merged. */
  lemma {:induction false} BucketCount(words: seq<string>, key: string, w: string)
    ensures multiset(Bucket(words, key))[w] ==
            if SortedLetters(w) == key then multiset(words)[w] else 0
  {
    if words != [] {
      var front := words[..|words| - 1];
      assert words == front + [words[|words| - 1]];
      BucketCount(front, key, w);
    }
  }

  /** Bucketing commutes with concatenation, so buckets keep dictionary order. */
  lemma {:induction false} BucketAppend(a: seq<string>, b: seq<string>, key: string)
    ensures Bucket(a + b, key) == Bucket(a, key) + Bucket(b, key)
    decreases |b|
  {
    if b == [] {
      assert a + b == a;
    } else {
      var front := b[..|b| - 1];
      assert (a + b)[..|a + b| - 1] == a + front;
      assert b == front + [b[|b| - 1]];
      BucketAppend(a, front, key);
    }
  }

  /** A key that no word has gets an empty bucket. */
  lemma BucketOfAbsentKey(words: seq<string>, key: string)
    requires key !in KeysOf(words)
    ensures Bucket(words, key) == []
  {
    if Bucket(words, key) != [] {
      BucketMembership(words, key, Bucket(words, key)[0]);
      KeysOfMembership(words, key);
    }
  }

  /** The index holds one bucket per occurring key, and that bucket is the key's filter of the dictionary. */
  lemma {:induction false} WordsDictBuckets(words: seq<string>)
    ensures WordsDict(words).Keys == KeysOf(words)
    ensures forall key :: key in WordsDict(words) ==> WordsDict(words)[key] == Bucket(words, key)
  {
    if words != [] {
      var front, last := words[..|words| - 1], words[|words| - 1];
      WordsDictBuckets(front);
      if SortedLetters(last) !in KeysOf(front) {
        BucketOfAbsentKey(front, SortedLetters(last));
      }
    }
  }

  /**
   * Builds the index in one pass over the dictionary, creating a bucket the
   * first time its key is seen and appending each word to its bucket.
   */
  method CreateWordsDict(words: seq<string>) returns (d: Index)
    ensures d == WordsDict(words)
    ensures d.Keys == KeysOf(words)
    ensures forall key :: key in d ==> d[key] == Bucket(words, key)
  {
    d := map[];
    assert words[..0] == [];
    for i := 0 to |words|
      invariant d == WordsDict(words[..i])
    {
      WordsDictSnoc(words, i);
      d := AddWord(d, words[i]);
    }
    assert words[..|words|] == words;
    WordsDictBuckets(words);
  }

  /** The loop body: opens the word's bucket if its key is new, then appends the word. */
  method AddWord(d: Index, word: string) returns (d': Index)
    ensures d' == FileWord(d, word)
  {
    var key := SortedLetters(word);
    d' := d;
    if key !in d' {
      d' := d'[key := []];
    }
    d' := d'[key := d'[key] + [word]];
  }

  /** One more dictionary word files that word into the index of the words before it. */
  lemma WordsDictSnoc(words: seq<string>, i: nat)
    requires i < |words|
    ensures WordsDict(words[..i + 1]) == FileWord(WordsDict(words[..i]), words[i])
  {
    assert words[..i + 1][..i] == words[..i];
  }

  /** An index built from a dictionary files every word under its own key and nowhere else. */
  lemma WordsDictFilesEveryWord(d: Index, words: seq<string>)
    requires IsWordsDict(d, words)
    ensures ValidIndex(d)
    ensures forall w :: w in words ==> SortedLetters(w) in d && w in d[SortedLetters(w)]
    ensures forall key :: key in d ==> d[key] != []
  {
    WordsDictBuckets(words);
    forall key, w | key in d && w in d[key]
      ensures SortedLetters(w) == key
    {
      BucketMembership(words, key, w);
    }
    forall w | w in words
      ensures SortedLetters(w) in d && w in d[SortedLetters(w)]
    {
      KeysOfMembership(words, SortedLetters(w));
      BucketMembership(words, SortedLetters(w), w);
    }
    forall key | key in d
      ensures d[key] != []
    {
      KeysOfMembership(words, key);
      var w :| w in words && SortedLetters(w) == key;
      BucketMembership(words, key, w);
    }
  }

  /** Every word with the key of `letters` is an anagram of `letters`. */
  lemma KeyedWordsAreAnagrams(ws: seq<string>, letters: string)
    requires forall w :: w in ws ==> SortedLetters(w) == SortedLetters(letters)
    ensures forall w :: w in ws ==> IsAnagram(w, letters)
  {
    forall w | w in ws
      ensures IsAnagram(w, letters)
    {
      SameKeyIffAnagram(w, letters);
    }
  }

  /**
   * Solves one scrambled word: the bucket of its key, or no words when the
   * key is absent. With a well-formed index every answer is an anagram.
   */
  function SolveOneJumble(letters: string, d: Index): (r: seq<string>)
    ensures ValidIndex(d) ==> forall w :: w in r ==> IsAnagram(w, letters)
  {
    var key := SortedLetters(letters);
    if key in d then
      assert ValidIndex(d) ==> forall w :: w in d[key] ==> IsAnagram(w, letters) by {
        if ValidIndex(d) {
          KeyedWordsAreAnagrams(d[key], letters);
        }
      }
      d[key]
    else
      []
  }

  /** Over the index of a dictionary, a lookup returns the bucket of the letters' key. */
  lemma SolveOneJumbleIsBucket(letters: string, d: Index, words: seq<string>)
    requires IsWordsDict(d, words)
    ensures SolveOneJumble(letters, d) == Bucket(words, SortedLetters(letters))
  {
    var key := SortedLetters(letters);
    WordsDictBuckets(words);
    if key !in d {
      BucketOfAbsentKey(words, key);
    }
  }

  /** A lookup finds exactly the dictionary words that are anagrams of the letters. */
  lemma SolveOneJumbleFinds(letters: string, d: Index, words: seq<string>, w: string)
    requires IsWordsDict(d, words)
    ensures w in SolveOneJumble(letters, d) <==> w in words && IsAnagram(w, letters)
  {
    SolveOneJumbleIsBucket(letters, d, words);
    BucketMembership(words, SortedLetters(letters), w);
    SameKeyIffAnagram(w, letters);
  }
}
