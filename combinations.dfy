/**
 * The combination generator: the k-combinations of the positions of a
 * sequence, produced by an odometer over a strictly increasing index array
 * that is advanced from the right.
 *
 * CombosFrom is the reference enumeration (every strictly increasing index
 * vector, in lexicographic order); Next is one odometer step. The successor
 * lemma ties the two together, and GetCombinations is proved against it.
 */
module Combinations {

  datatype Option<T> = None | Some(value: T)

  /** The run a, a + 1, ..., a + m - 1. */
  function Run(a: int, m: nat): (r: seq<int>)
    ensures |r| == m && forall t :: 0 <= t < m ==> r[t] == a + t
    decreases m
  {
    if m == 0 then [] else [a] + Run(a + 1, m - 1)
  }

  /** Strictly increasing entries. */
  predicate Increasing(v: seq<int>)
  {
    forall s, t :: 0 <= s < t < |v| ==> v[s] < v[t]
  }

  /** Every entry lies in [lo, n). */
  predicate InRange(v: seq<int>, lo: int, n: int)
  {
    forall t :: 0 <= t < |v| ==> lo <= v[t] < n
  }

  /** Entry t is at most n - |v| + t: the largest value it can take in a k-combination of n positions. */
  predicate Bounded(v: seq<int>, n: int)
  {
    forall t :: 0 <= t < |v| ==> v[t] <= n - |v| + t
  }

  /** Prefixes every vector of `vs` with `x`. */
  function Prefix(x: int, vs: seq<seq<int>>): (r: seq<seq<int>>)
    ensures |r| == |vs|
  {
    if vs == [] then [] else [[x] + vs[0]] + Prefix(x, vs[1..])
  }

  /** Entry j of Prefix(x, vs) is entry j of vs with x in front. */
  lemma {:induction false} PrefixAt(x: int, vs: seq<seq<int>>, j: nat)
    requires j < |vs|
    ensures Prefix(x, vs)[j] == [x] + vs[j]
  {
    if j > 0 {
      PrefixAt(x, vs[1..], j - 1);
    }
  }

  /**
   * Every strictly increasing vector of length k with entries in [lo, n), in
   * lexicographic order: first those that start with lo, then the rest.
   */
  function CombosFrom(lo: int, n: int, k: nat): seq<seq<int>>
    decreases n - lo
  {
    if k == 0 then
      [[]]
    else if lo + k > n then
      []
    else
      Prefix(lo, CombosFrom(lo + 1, n, k - 1)) + CombosFrom(lo + 1, n, k)
  }

  /** The index vectors of the k-combinations of n positions; none for negative k. */
  function Combinations(n: int, k: int): (r: seq<seq<int>>)
    ensures forall j :: 0 <= j < |r| ==> |r[j]| == k && Increasing(r[j]) && InRange(r[j], 0, n)
  {
    if k < 0 then
      []
    else
      var c := CombosFrom(0, n, k);
      assert forall j :: 0 <= j < |c| ==> |c[j]| == k && Increasing(c[j]) && InRange(c[j], 0, n) by {
        forall j | 0 <= j < |c|
          ensures |c[j]| == k && Increasing(c[j]) && InRange(c[j], 0, n)
        {
          CombosAt(0, n, k, j);
        }
      }
      c
  }

  /** The number of k-subsets of an m-set, by Pascal's rule. */
  function Binomial(m: int, k: int): nat
    decreases m
  {
    if k < 0 || k > m then 0
    else if k == 0 then 1
    else Binomial(m - 1, k - 1) + Binomial(m - 1, k)
  }

  /** The items at the positions `v`, in order. */
  function Pick<T>(items: seq<T>, v: seq<int>): (r: seq<T>)
    requires InRange(v, 0, |items|)
    ensures |r| == |v| && forall t :: 0 <= t < |v| ==> r[t] == items[v[t]]
  {
    if v == [] then [] else Pick(items, v[..|v| - 1]) + [items[v[|v| - 1]]]
  }

  /** Pick applied to each vector of `vs`. */
  function PickAll<T>(items: seq<T>, vs: seq<seq<int>>): (r: seq<seq<T>>)
    requires forall j :: 0 <= j < |vs| ==> InRange(vs[j], 0, |items|)
    ensures |r| == |vs| && forall j :: 0 <= j < |vs| ==> r[j] == Pick(items, vs[j])
  {
    if vs == [] then [] else PickAll(items, vs[..|vs| - 1]) + [Pick(items, vs[|vs| - 1])]
  }

  /** Lexicographic "strictly before" on index vectors. */
  predicate LexLess(a: seq<int>, b: seq<int>)
  {
    |a| > 0 && |b| > 0 && (a[0] < b[0] || (a[0] == b[0] && LexLess(a[1..], b[1..])))
  }

  // ---------------------------------------------------------------------
  // One odometer step

  /**
   * Scanning leftwards from position i, the first position whose entry is
   * not yet at its largest value n - |v| + position; -1 when there is none.
   */
  function Scan(v: seq<int>, n: int, i: int): (r: int)
    requires -1 <= i < |v|
    ensures -1 <= r <= i
    ensures r >= 0 ==> v[r] != n - |v| + r
    decreases i + 1
  {
    if i < 0 then -1
    else if v[i] == n - |v| + i then Scan(v, n, i - 1)
    else i
  }

  /** Raises entry i by one and lays the entries to its right out consecutively after it. */
  function Advance(v: seq<int>, i: nat): (r: seq<int>)
    requires i < |v|
    ensures |r| == |v|
  {
    v[..i] + Run(v[i] + 1, |v| - i)
  }

  /** The odometer's successor of `v`, or None when every entry is at its largest. */
  function Next(v: seq<int>, n: int): Option<seq<int>>
  {
    var i := Scan(v, n, |v| - 1);
    if i < 0 then None else Some(Advance(v, i))
  }

  // ---------------------------------------------------------------------
  // Properties of the reference enumeration

  /** Putting lo in front of a valid vector over [lo + 1, n) gives a valid vector over [lo, n). */
  lemma ConsValid(lo: int, n: int, h: seq<int>)
    requires Increasing(h) && InRange(h, lo + 1, n) && Bounded(h, n)
    requires lo + |h| < n
    ensures Increasing([lo] + h) && InRange([lo] + h, lo, n) && Bounded([lo] + h, n)
  {
    var v := [lo] + h;
    assert forall t :: 1 <= t < |v| ==> v[t] == h[t - 1];
  }

  /**
   * Position j of the enumeration: a vector of the lo-headed block, or one of
   * the vectors that start above lo.
   */
  lemma CombosIndex(lo: int, n: int, k: nat, j: nat)
    requires k > 0 && j < |CombosFrom(lo + 1, n, k - 1)| + |CombosFrom(lo + 1, n, k)|
    requires lo + k <= n
    ensures |CombosFrom(lo, n, k)| == |CombosFrom(lo + 1, n, k - 1)| + |CombosFrom(lo + 1, n, k)|
    ensures j < |CombosFrom(lo + 1, n, k - 1)| ==>
      CombosFrom(lo, n, k)[j] == [lo] + CombosFrom(lo + 1, n, k - 1)[j]
    ensures j >= |CombosFrom(lo + 1, n, k - 1)| ==>
      CombosFrom(lo, n, k)[j] == CombosFrom(lo + 1, n, k)[j - |CombosFrom(lo + 1, n, k - 1)|]
  {
    if j < |CombosFrom(lo + 1, n, k - 1)| {
      PrefixAt(lo, CombosFrom(lo + 1, n, k - 1), j);
    }
  }

  /** For k > 0 and lo + k <= n the enumeration is the lo-headed block followed by the rest. */
  lemma CombosSplit(lo: int, n: int, k: nat)
    requires k > 0 && lo + k <= n
    ensures CombosFrom(lo, n, k) == Prefix(lo, CombosFrom(lo + 1, n, k - 1)) + CombosFrom(lo + 1, n, k)
  {
  }

  /** A non-empty enumeration of vectors of length k > 0 needs lo + k <= n. */
  lemma CombosSize(lo: int, n: int, k: nat)
    requires k > 0
    ensures |CombosFrom(lo, n, k)| == if lo + k <= n then
      |CombosFrom(lo + 1, n, k - 1)| + |CombosFrom(lo + 1, n, k)| else 0
  {
  }

  /**
   * Every enumerated vector has k entries and is strictly increasing, within
   * [lo, n), and bounded.
   */
  lemma {:induction false} CombosAt(lo: int, n: int, k: nat, j: nat)
    requires j < |CombosFrom(lo, n, k)|
    ensures var v := CombosFrom(lo, n, k)[j];
      |v| == k && Increasing(v) && InRange(v, lo, n) && Bounded(v, n)
    decreases n - lo, 1
  {
    if k > 0 {
      CombosSize(lo, n, k);
      if j < |CombosFrom(lo + 1, n, k - 1)| {
        AtInHeads(lo, n, k, j);
      } else {
        AtInRest(lo, n, k, j);
      }
    }
  }

  /** CombosAt inside the lo-headed block. */
  lemma {:induction false} AtInHeads(lo: int, n: int, k: nat, j: nat)
    requires k > 0 && lo + k <= n && j < |CombosFrom(lo + 1, n, k - 1)|
    ensures var v := CombosFrom(lo, n, k)[j];
      |v| == k && Increasing(v) && InRange(v, lo, n) && Bounded(v, n)
    decreases n - lo, 0
  {
    CombosAt(lo + 1, n, k - 1, j);
    CombosIndex(lo, n, k, j);
    ConsValid(lo, n, CombosFrom(lo + 1, n, k - 1)[j]);
  }

  /** CombosAt among the vectors that start above lo. */
  lemma {:induction false} AtInRest(lo: int, n: int, k: nat, j: nat)
    requires k > 0 && lo + k <= n
    requires |CombosFrom(lo + 1, n, k - 1)| <= j < |CombosFrom(lo + 1, n, k - 1)| + |CombosFrom(lo + 1, n, k)|
    ensures var v := CombosFrom(lo, n, k)[j];
      |v| == k && Increasing(v) && InRange(v, lo, n) && Bounded(v, n)
    decreases n - lo, 0
  {
    var h := |CombosFrom(lo + 1, n, k - 1)|;
    CombosAt(lo + 1, n, k, j - h);
    CombosIndex(lo, n, k, j);
    WidenRange(CombosFrom(lo + 1, n, k)[j - h], lo, n);
  }

  /** A vector within [lo + 1, n) is within [lo, n). */
  lemma WidenRange(v: seq<int>, lo: int, n: int)
    requires InRange(v, lo + 1, n)
    ensures InRange(v, lo, n)
  {
  }

  /** The enumeration holds C(n - lo, k) vectors. */
  lemma {:induction false} CombosCount(lo: int, n: int, k: nat)
    requires lo <= n
    ensures |CombosFrom(lo, n, k)| == Binomial(n - lo, k)
    decreases n - lo
  {
    if k > 0 && lo + k <= n {
      CombosCount(lo + 1, n, k - 1);
      CombosCount(lo + 1, n, k);
      CombosSize(lo, n, k);
      Pascal(n - lo, k);
    }
  }

  /** Pascal's rule for 0 < k <= m. */
  lemma Pascal(m: int, k: int)
    requires 0 < k <= m
    ensures Binomial(m, k) == Binomial(m - 1, k - 1) + Binomial(m - 1, k)
  {
  }

  /** The tail of an increasing vector starts above its head. */
  lemma IncreasingTail(v: seq<int>, lo: int, n: int)
    requires v != [] && Increasing(v) && InRange(v, lo, n)
    ensures Increasing(v[1..]) && InRange(v[1..], v[0] + 1, n)
  {
    assert forall t :: 0 <= t < |v| - 1 ==> v[1..][t] == v[t + 1];
  }

  /** An increasing vector whose head is above lo lies within [lo + 1, n). */
  lemma RaiseLow(v: seq<int>, lo: int, n: int)
    requires v != [] && Increasing(v) && InRange(v, lo, n) && v[0] != lo
    ensures InRange(v, lo + 1, n)
  {
    forall t | 0 <= t < |v|
      ensures lo + 1 <= v[t]
    {
      if t > 0 {
        assert v[0] < v[t];
      }
    }
  }

  /** Position j of the enumeration of |v|-vectors from lo holds v. */
  ghost predicate EnumeratedAt(lo: int, n: int, v: seq<int>, j: nat)
  {
    j < |CombosFrom(lo, n, |v|)| && CombosFrom(lo, n, |v|)[j] == v
  }

  /** A vector starting at lo is enumerated at the position its tail has one level up. */
  lemma CompleteAtLo(lo: int, n: int, v: seq<int>, h: nat)
    requires v != [] && v[0] == lo && InRange(v, lo, n)
    requires EnumeratedAt(lo + 1, n, v[1..], h)
    ensures EnumeratedAt(lo, n, v, h)
  {
    var k := |v|;
    HeadTail(v);
    if k > 1 {
      CombosSize(lo + 1, n, k - 1);
    }
    CombosIndex(lo, n, k, h);
  }

  /** A non-empty vector is its head followed by its tail. */
  lemma HeadTail(v: seq<int>)
    requires v != []
    ensures [v[0]] + v[1..] == v
  {
  }

  /** A vector enumerated from lo + 1 is enumerated from lo, after the lo-headed block. */
  lemma CompleteAboveLo(lo: int, n: int, v: seq<int>, h: nat)
    requires v != []
    requires EnumeratedAt(lo + 1, n, v, h)
    ensures EnumeratedAt(lo, n, v, |CombosFrom(lo + 1, n, |v| - 1)| + h)
  {
    var k := |v|;
    CombosSize(lo + 1, n, k);
    CombosIndex(lo, n, k, |CombosFrom(lo + 1, n, k - 1)| + h);
  }

  /** Every strictly increasing vector with entries in [lo, n) is enumerated, at position j. */
  lemma {:induction false} CombosComplete(lo: int, n: int, v: seq<int>) returns (j: nat)
    requires Increasing(v) && InRange(v, lo, n)
    ensures EnumeratedAt(lo, n, v, j)
    decreases n - lo
  {
    if v == [] {
      j := 0;
    } else if v[0] == lo {
      IncreasingTail(v, lo, n);
      var h := CombosComplete(lo + 1, n, v[1..]);
      CompleteAtLo(lo, n, v, h);
      j := h;
    } else {
      RaiseLow(v, lo, n);
      var h := CombosComplete(lo + 1, n, v);
      CompleteAboveLo(lo, n, v, h);
      j := |CombosFrom(lo + 1, n, |v| - 1)| + h;
    }
  }

  /** Every strictly increasing vector over [0, n) is one of the combinations of its size, at position j. */
  lemma CombinationsComplete(n: int, v: seq<int>) returns (j: nat)
    requires Increasing(v) && InRange(v, 0, n)
    ensures j < |Combinations(n, |v|)| && Combinations(n, |v|)[j] == v
  {
    j := CombosComplete(0, n, v);
  }

  /** Lexicographic order is irreflexive. */
  lemma {:induction false} LexLessIrreflexive(a: seq<int>)
    ensures !LexLess(a, a)
  {
    if |a| > 0 {
      LexLessIrreflexive(a[1..]);
    }
  }

  /** A vector that agrees with another up to p and is smaller at p comes first. */
  lemma {:induction false} LexLessAt(a: seq<int>, b: seq<int>, p: nat)
    requires p < |a| && p < |b|
    requires a[..p] == b[..p] && a[p] < b[p]
    ensures LexLess(a, b)
  {
    if p > 0 {
      assert a[0] == a[..p][0] && b[0] == b[..p][0];
      assert a[1..][..p - 1] == a[..p][1..] && b[1..][..p - 1] == b[..p][1..];
      LexLessAt(a[1..], b[1..], p - 1);
    }
  }

  /** The enumeration is strictly increasing in lexicographic order. */
  lemma CombosSorted(lo: int, n: int, k: nat)
    ensures forall i, j :: 0 <= i < j < |CombosFrom(lo, n, k)| ==>
      LexLess(CombosFrom(lo, n, k)[i], CombosFrom(lo, n, k)[j])
  {
    forall i, j | 0 <= i < j < |CombosFrom(lo, n, k)|
      ensures LexLess(CombosFrom(lo, n, k)[i], CombosFrom(lo, n, k)[j])
    {
      SortedPair(lo, n, k, i, j);
    }
  }

  /** Of two enumerated vectors, the earlier is lexicographically smaller. */
  lemma {:induction false} SortedPair(lo: int, n: int, k: nat, i: nat, j: nat)
    requires i < j < |CombosFrom(lo, n, k)|
    ensures LexLess(CombosFrom(lo, n, k)[i], CombosFrom(lo, n, k)[j])
    decreases n - lo, 1
  {
    if k == 0 {
      assert false;
    } else {
      CombosSize(lo, n, k);
      var h := |CombosFrom(lo + 1, n, k - 1)|;
      if j < h {
        PairInHeads(lo, n, k, i, j);
      } else if h <= i {
        PairInRest(lo, n, k, i, j);
      } else {
        PairAcross(lo, n, k, i, j);
      }
    }
  }

  /** SortedPair inside the lo-headed block. */
  lemma {:induction false} PairInHeads(lo: int, n: int, k: nat, i: nat, j: nat)
    requires k > 0 && lo + k <= n && i < j < |CombosFrom(lo + 1, n, k - 1)|
    ensures LexLess(CombosFrom(lo, n, k)[i], CombosFrom(lo, n, k)[j])
    decreases n - lo, 0
  {
    var heads := CombosFrom(lo + 1, n, k - 1);
    SortedPair(lo + 1, n, k - 1, i, j);
    CombosIndex(lo, n, k, i);
    CombosIndex(lo, n, k, j);
    LexLessCons(lo, heads[i], heads[j]);
  }

  /** SortedPair among the vectors that start above lo. */
  lemma {:induction false} PairInRest(lo: int, n: int, k: nat, i: nat, j: nat)
    requires k > 0 && lo + k <= n
    requires |CombosFrom(lo + 1, n, k - 1)| <= i < j < |CombosFrom(lo + 1, n, k - 1)| + |CombosFrom(lo + 1, n, k)|
    ensures LexLess(CombosFrom(lo, n, k)[i], CombosFrom(lo, n, k)[j])
    decreases n - lo, 0
  {
    var h := |CombosFrom(lo + 1, n, k - 1)|;
    SortedPair(lo + 1, n, k, i - h, j - h);
    CombosIndex(lo, n, k, i);
    CombosIndex(lo, n, k, j);
  }

  /** A lo-headed vector comes before every vector that starts above lo. */
  lemma PairAcross(lo: int, n: int, k: nat, i: nat, j: nat)
    requires k > 0 && lo + k <= n
    requires i < |CombosFrom(lo + 1, n, k - 1)| <= j < |CombosFrom(lo + 1, n, k - 1)| + |CombosFrom(lo + 1, n, k)|
    ensures LexLess(CombosFrom(lo, n, k)[i], CombosFrom(lo, n, k)[j])
  {
    var h := |CombosFrom(lo + 1, n, k - 1)|;
    CombosIndex(lo, n, k, i);
    CombosIndex(lo, n, k, j);
    CombosAt(lo + 1, n, k, j - h);
    var a, b := CombosFrom(lo, n, k)[i], CombosFrom(lo, n, k)[j];
    assert a[0] == lo;
    assert b[0] >= lo + 1;
  }

  /** Putting the same entry in front keeps lexicographic order. */
  lemma LexLessCons(x: int, a: seq<int>, b: seq<int>)
    requires LexLess(a, b)
    ensures LexLess([x] + a, [x] + b)
  {
    assert ([x] + a)[1..] == a && ([x] + b)[1..] == b;
  }

  /** No index vector is enumerated twice. */
  lemma CombosDistinct(lo: int, n: int, k: nat)
    ensures forall i, j :: 0 <= i < j < |CombosFrom(lo, n, k)| ==>
      CombosFrom(lo, n, k)[i] != CombosFrom(lo, n, k)[j]
  {
    CombosSorted(lo, n, k);
    forall i, j | 0 <= i < j < |CombosFrom(lo, n, k)|
      ensures CombosFrom(lo, n, k)[i] != CombosFrom(lo, n, k)[j]
    {
      LexLessIrreflexive(CombosFrom(lo, n, k)[i]);
    }
  }

  /** The enumeration starts at lo, lo + 1, ..., lo + k - 1. */
  lemma {:induction false} CombosFirst(lo: int, n: int, k: nat)
    requires lo + k <= n
    ensures |CombosFrom(lo, n, k)| > 0 && CombosFrom(lo, n, k)[0] == Run(lo, k)
    decreases n - lo
  {
    if k > 0 {
      CombosFirst(lo + 1, n, k - 1);
      var heads := CombosFrom(lo + 1, n, k - 1);
      assert CombosFrom(lo, n, k)[0] == [lo] + heads[0];
      assert [lo] + Run(lo + 1, k - 1) == Run(lo, k);
    }
  }

  // ---------------------------------------------------------------------
  // The odometer step against the enumeration

  /** Scanning a vector with one more entry in front finds the same position, shifted. */
  lemma {:induction false} ScanCons(x: int, w: seq<int>, n: int, i: int)
    requires -1 <= i < |w|
    ensures Scan([x] + w, n, i + 1) ==
      if Scan(w, n, i) >= 0 then Scan(w, n, i) + 1 else Scan([x] + w, n, 0)
    decreases i + 1
  {
    if i >= 0 {
      assert ([x] + w)[i + 1] == w[i];
      if w[i] == n - |w| + i {
        ScanCons(x, w, n, i - 1);
      }
    }
  }

  /** When the tail is at its largest, the scan of the whole vector stops at its head or finds nothing. */
  lemma ScanConsHead(x: int, w: seq<int>, n: int)
    requires Scan(w, n, |w| - 1) < 0
    ensures Scan([x] + w, n, |w|) == if x == n - |w| - 1 then -1 else 0
  {
    ScanCons(x, w, n, |w| - 1);
    assert ([x] + w)[0] == x;
  }

  /** Advancing a vector with one more entry in front advances its tail. */
  lemma AdvanceCons(x: int, w: seq<int>, i: nat)
    requires i < |w|
    ensures Advance([x] + w, i + 1) == [x] + Advance(w, i)
  {
    assert ([x] + w)[..i + 1] == [x] + w[..i];
  }

  /** Advancing at position 0 lays the whole vector out consecutively after its head. */
  lemma AdvanceAtZero(v: seq<int>)
    requires |v| > 0
    ensures Advance(v, 0) == Run(v[0] + 1, |v|)
  {
    var r := Run(v[0] + 1, |v|);
    assert v[..0] == [];
    assert [] + r == r;
  }

  /** The step advances at the position the scan finds. */
  lemma NextAt(v: seq<int>, n: int, i: nat)
    requires i < |v| && Scan(v, n, |v| - 1) == i
    ensures Next(v, n) == Some(Advance(v, i))
  {
  }

  /** When the tail of a vector can step, the vector steps in its tail. */
  lemma NextConsTail(x: int, w: seq<int>, n: int)
    requires Next(w, n).Some?
    ensures Next([x] + w, n) == Some([x] + Next(w, n).value)
  {
    var v := [x] + w;
    ScanCons(x, w, n, |w| - 1);
    var i := Scan(w, n, |w| - 1);
    AdvanceCons(x, w, i);
    assert |v| - 1 == |w|;
    NextAt(v, n, i + 1);
  }

  /** When the tail is at its last vector, the head is raised unless it is at its largest. */
  lemma NextConsHead(x: int, w: seq<int>, n: int)
    requires Next(w, n).None?
    ensures Next([x] + w, n) == if x == n - |w| - 1 then None else Some(Run(x + 1, |w| + 1))
  {
    var v := [x] + w;
    ScanConsHead(x, w, n);
    if x != n - |w| - 1 {
      AdvanceAtZero(v);
      NextAt(v, n, 0);
    }
  }

  /** In the sequence of vectors c, the odometer step moves from position j to position j + 1, or stops after the last. */
  ghost predicate StepsIn(c: seq<seq<int>>, n: int, j: nat)
  {
    j < |c| && Next(c[j], n) == if j + 1 < |c| then Some(c[j + 1]) else None
  }

  /** Inside the lo-headed block, the step follows the step of the tails. */
  lemma SuccessorWithinHeads(lo: int, n: int, heads: seq<seq<int>>, rest: seq<seq<int>>, j: nat)
    requires j + 1 < |heads| && StepsIn(heads, n, j)
    ensures StepsIn(Prefix(lo, heads) + rest, n, j)
  {
    var c := Prefix(lo, heads) + rest;
    PrefixAt(lo, heads, j);
    PrefixAt(lo, heads, j + 1);
    assert c[j] == [lo] + heads[j] && c[j + 1] == [lo] + heads[j + 1];
    NextConsTail(lo, heads[j], n);
  }

  /**
   * In a lo-headed block followed by vectors starting at lo + 1, the last
   * vector of the block steps to the first vector after it.
   */
  lemma SuccessorLeavingHeads(lo: int, n: int, k: nat, heads: seq<seq<int>>, rest: seq<seq<int>>, j: nat)
    requires lo + k < n && j + 1 == |heads| && StepsIn(heads, n, j) && |heads[j]| == k - 1
    requires |rest| > 0 && rest[0] == Run(lo + 1, k)
    ensures StepsIn(Prefix(lo, heads) + rest, n, j)
  {
    var c := Prefix(lo, heads) + rest;
    PrefixAt(lo, heads, j);
    assert c[j] == [lo] + heads[j];
    assert c[j + 1] == rest[0];
    NextConsHead(lo, heads[j], n);
  }

  /** When nothing follows the lo-headed block and lo is at its largest, its last vector is the last of all. */
  lemma SuccessorAtEnd(lo: int, n: int, k: nat, heads: seq<seq<int>>, j: nat)
    requires lo + k == n && j + 1 == |heads| && StepsIn(heads, n, j) && |heads[j]| == k - 1
    ensures StepsIn(Prefix(lo, heads), n, j)
  {
    var c := Prefix(lo, heads);
    PrefixAt(lo, heads, j);
    NextConsHead(lo, heads[j], n);
  }

  /** Among the vectors after the lo-headed block, the step is the step of those vectors. */
  lemma SuccessorInRest(lo: int, n: int, heads: seq<seq<int>>, rest: seq<seq<int>>, j: nat)
    requires |heads| <= j && StepsIn(rest, n, j - |heads|)
    ensures StepsIn(Prefix(lo, heads) + rest, n, j)
  {
    var c := Prefix(lo, heads) + rest;
    assert c[j] == rest[j - |heads|];
    if j + 1 < |c| {
      assert c[j + 1] == rest[j + 1 - |heads|];
    }
  }

  /** Every enumerated vector has k entries. */
  lemma CombosLength(lo: int, n: int, k: nat, j: nat)
    requires j < |CombosFrom(lo, n, k)|
    ensures |CombosFrom(lo, n, k)[j]| == k
  {
    CombosAt(lo, n, k, j);
  }

  /**
   * The odometer step moves from each enumerated vector to the one after it,
   * and stops after the last.
   */
  lemma {:induction false} NextIsSuccessor(lo: int, n: int, k: nat, j: nat)
    requires j < |CombosFrom(lo, n, k)|
    ensures StepsIn(CombosFrom(lo, n, k), n, j)
    decreases n - lo, 1
  {
    if k == 0 {
      assert CombosFrom(lo, n, k) == [[]];
    } else {
      CombosSize(lo, n, k);
      var h := |CombosFrom(lo + 1, n, k - 1)|;
      if j + 1 < h {
        StepWithinHeads(lo, n, k, j);
      } else if j + 1 == h {
        StepLeavingHeads(lo, n, k, j);
      } else {
        StepInRest(lo, n, k, j);
      }
    }
  }

  /** NextIsSuccessor inside the lo-headed block. */
  lemma {:induction false} StepWithinHeads(lo: int, n: int, k: nat, j: nat)
    requires k > 0 && lo + k <= n && j + 1 < |CombosFrom(lo + 1, n, k - 1)|
    ensures StepsIn(CombosFrom(lo, n, k), n, j)
    decreases n - lo, 0
  {
    NextIsSuccessor(lo + 1, n, k - 1, j);
    CombosSplit(lo, n, k);
    SuccessorWithinHeads(lo, n, CombosFrom(lo + 1, n, k - 1), CombosFrom(lo + 1, n, k), j);
  }

  /** NextIsSuccessor at the last vector of the lo-headed block. */
  lemma {:induction false} StepLeavingHeads(lo: int, n: int, k: nat, j: nat)
    requires k > 0 && lo + k <= n && j + 1 == |CombosFrom(lo + 1, n, k - 1)|
    ensures StepsIn(CombosFrom(lo, n, k), n, j)
    decreases n - lo, 0
  {
    var heads, rest := CombosFrom(lo + 1, n, k - 1), CombosFrom(lo + 1, n, k);
    NextIsSuccessor(lo + 1, n, k - 1, j);
    CombosLength(lo + 1, n, k - 1, j);
    CombosSplit(lo, n, k);
    if lo + 1 + k <= n {
      CombosFirst(lo + 1, n, k);
      SuccessorLeavingHeads(lo, n, k, heads, rest, j);
    } else {
      CombosSize(lo + 1, n, k);
      assert Prefix(lo, heads) + rest == Prefix(lo, heads);
      SuccessorAtEnd(lo, n, k, heads, j);
    }
  }

  /** NextIsSuccessor among the vectors that start above lo. */
  lemma {:induction false} StepInRest(lo: int, n: int, k: nat, j: nat)
    requires k > 0 && lo + k <= n
    requires |CombosFrom(lo + 1, n, k - 1)| <= j < |CombosFrom(lo, n, k)|
    ensures StepsIn(CombosFrom(lo, n, k), n, j)
    decreases n - lo, 0
  {
    var heads := CombosFrom(lo + 1, n, k - 1);
    CombosSplit(lo, n, k);
    NextIsSuccessor(lo + 1, n, k, j - |heads|);
    SuccessorInRest(lo, n, heads, CombosFrom(lo + 1, n, k), j);
  }

  /** Advancing at a position below its largest value keeps a vector valid. */
  lemma AdvanceValid(v: seq<int>, n: int, i: nat)
    requires Increasing(v) && InRange(v, 0, n) && Bounded(v, n)
    requires i < |v| && v[i] < n - |v| + i
    ensures Increasing(Advance(v, i)) && InRange(Advance(v, i), 0, n) && Bounded(Advance(v, i), n)
    ensures Advance(v, i)[i] == v[i] + 1
  {
    var w := Advance(v, i);
    assert forall t :: 0 <= t < i ==> w[t] == v[t];
    assert forall t :: i <= t < |v| ==> w[t] == v[i] + 1 + (t - i);
  }

  /**
   * The odometer step keeps the loop's invariant (strictly increasing, entry
   * t at most n - k + t) and moves strictly forward in lexicographic order.
   */
  lemma AdvanceKeepsInvariant(v: seq<int>, n: int)
    requires Increasing(v) && InRange(v, 0, n) && Bounded(v, n)
    requires Next(v, n).Some?
    ensures var w := Next(v, n).value;
      |w| == |v| && Increasing(w) && InRange(w, 0, n) && Bounded(w, n) && LexLess(v, w)
  {
    var i := Scan(v, n, |v| - 1);
    assert v[i] < n - |v| + i;
    AdvanceValid(v, n, i);
    var w := Advance(v, i);
    assert w[..i] == v[..i];
    LexLessAt(v, w, i);
  }

  // ---------------------------------------------------------------------
  // Picking items

  /** Appending item m to a sub-multiset of the items before m keeps it a sub-multiset of the items. */
  lemma SubMultisetExtend<T>(p: seq<T>, items: seq<T>, m: nat)
    requires m < |items| && multiset(p) <= multiset(items[..m])
    ensures multiset(p + [items[m]]) <= multiset(items)
  {
    assert items[..m + 1] == items[..m] + [items[m]];
    assert items == items[..m + 1] + items[m + 1..];
  }

  /** Dropping the last entry of an increasing vector leaves one below that entry. */
  lemma IncreasingFront(v: seq<int>, n: int)
    requires v != [] && Increasing(v) && InRange(v, 0, n)
    ensures Increasing(v[..|v| - 1]) && InRange(v[..|v| - 1], 0, v[|v| - 1])
  {
  }

  /** Positions below m pick the same items from the first m items as from all of them. */
  lemma PickFromPrefix<T>(items: seq<T>, m: nat, u: seq<int>)
    requires m <= |items| && InRange(u, 0, m)
    ensures Pick(items[..m], u) == Pick(items, u)
  {
  }

  /** Items picked at strictly increasing positions form a sub-multiset of the items. */
  lemma {:induction false} PickSubMultiset<T>(items: seq<T>, v: seq<int>)
    requires Increasing(v) && InRange(v, 0, |items|)
    ensures multiset(Pick(items, v)) <= multiset(items)
    decreases |v|
  {
    if v != [] {
      var m := v[|v| - 1];
      var u := v[..|v| - 1];
      var front := items[..m];
      IncreasingFront(v, |items|);
      PickSubMultiset(front, u);
      PickFromPrefix(items, m, u);
      assert Pick(items, v) == Pick(items, u) + [items[m]];
      SubMultisetExtend(Pick(items, u), items, m);
    }
  }

  /**
   * Conversely, every sub-multiset of the items is picked at some strictly
   * increasing vector of positions.
   */
  lemma {:induction false} SubMultisetPicked<T>(items: seq<T>, m: multiset<T>) returns (v: seq<int>)
    requires m <= multiset(items)
    ensures Increasing(v) && InRange(v, 0, |items|) && multiset(Pick(items, v)) == m
    decreases |items|
  {
    if items == [] {
      v := [];
    } else {
      var front, last := items[..|items| - 1], items[|items| - 1];
      assert items == front + [last];
      if last in m {
        var u := SubMultisetPicked(front, m - multiset{last});
        v := PickLast(items, m, u);
      } else {
        SubMultisetWithoutLast(items, m);
        v := SubMultisetPicked(front, m);
        PickFromPrefix(items, |front|, v);
      }
    }
  }

  /** Without its last item in m, m is a sub-multiset of the other items. */
  lemma SubMultisetWithoutLast<T>(items: seq<T>, m: multiset<T>)
    requires items != [] && m <= multiset(items) && items[|items| - 1] !in m
    ensures m <= multiset(items[..|items| - 1])
  {
    var front, last := items[..|items| - 1], items[|items| - 1];
    assert items == front + [last];
    forall x
      ensures m[x] <= multiset(front)[x]
    {
      if x == last {
        assert m[x] == 0;
      }
    }
  }

  /** Picking the rest of m from the other items, and then the last item, picks m. */
  lemma PickLast<T>(items: seq<T>, m: multiset<T>, u: seq<int>) returns (v: seq<int>)
    requires items != [] && items[|items| - 1] in m
    requires Increasing(u) && InRange(u, 0, |items| - 1)
    requires multiset(Pick(items[..|items| - 1], u)) == m - multiset{items[|items| - 1]}
    ensures Increasing(v) && InRange(v, 0, |items|) && multiset(Pick(items, v)) == m
  {
    var last := items[|items| - 1];
    v := AppendAbove(u, |items| - 1);
    PickFromPrefix(items, |items| - 1, u);
    PickSnoc(items, u, |items| - 1);
    AddBack(multiset(Pick(items, u)), m, last);
  }

  /** Appending m to an increasing vector below m keeps it increasing. */
  lemma AppendAbove(u: seq<int>, m: int) returns (v: seq<int>)
    requires Increasing(u) && InRange(u, 0, m) && 0 <= m
    ensures v == u + [m] && Increasing(v) && InRange(v, 0, m + 1)
  {
    v := u + [m];
  }

  /** Picking at one more position appends that position's item. */
  lemma PickSnoc<T>(items: seq<T>, u: seq<int>, m: int)
    requires InRange(u, 0, |items|) && 0 <= m < |items|
    ensures InRange(u + [m], 0, |items|) && Pick(items, u + [m]) == Pick(items, u) + [items[m]]
  {
    assert (u + [m])[..|u|] == u;
  }

  /** Adding x back to m minus one x gives m, when x is in m. */
  lemma AddBack<T>(a: multiset<T>, m: multiset<T>, x: T)
    requires x in m && a == m - multiset{x}
    ensures a + multiset{x} == m
  {
  }

  /** Extending the enumerated prefix by one vector extends the picked prefix by its items. */
  lemma PickAllSnoc<T>(items: seq<T>, c: seq<seq<int>>, count: nat)
    requires count < |c| && forall j :: 0 <= j < |c| ==> InRange(c[j], 0, |items|)
    ensures PickAll(items, c[..count + 1]) == PickAll(items, c[..count]) + [Pick(items, c[count])]
  {
    assert c[..count + 1][..count] == c[..count];
  }

  /** Taking all of a sequence gives the sequence. */
  lemma TakeAll<U>(c: seq<U>, m: nat)
    requires m == |c|
    ensures c[..m] == c
  {
  }

  // ---------------------------------------------------------------------
  // The generator

  /**
   * The position found by the odometer's scan is -1 exactly at the last
   * enumerated vector; otherwise advancing there gives the next one.
   */
  lemma ScanStep(c: seq<seq<int>>, n: int, k: nat, count: nat, v: seq<int>, i: int)
    requires c == CombosFrom(0, n, k) && count < |c| && v == c[count]
    requires |v| > 0 && i == Scan(v, n, |v| - 1)
    ensures i < 0 <==> count + 1 == |c|
    ensures i >= 0 ==> Advance(v, i) == c[count + 1]
  {
    NextIsSuccessor(0, n, k, count);
  }

  /** Every enumerated vector indexes into n items. */
  lemma CombosInRange(n: int, k: nat)
    ensures forall j :: 0 <= j < |CombosFrom(0, n, k)| ==> InRange(CombosFrom(0, n, k)[j], 0, n)
  {
    var c := CombosFrom(0, n, k);
    forall j | 0 <= j < |c|
      ensures InRange(c[j], 0, n)
    {
      CombosAt(0, n, k, j);
    }
  }

  /** The odometer's loop state: the count-th enumerated vector is current, and the ones before it are picked. */
  ghost predicate OdometerAt<T>(items: seq<T>, k: nat, count: nat, v: seq<int>, result: seq<seq<T>>)
  {
    var c := CombosFrom(0, |items|, k);
    count < |c| && v == c[count] &&
    (forall j :: 0 <= j < |c| ==> InRange(c[j], 0, |items|)) &&
    result == PickAll(items, c[..count])
  }

  /** There are no combinations of a negative size or of more items than there are. */
  lemma NoCombinations<T>(items: seq<T>, k: int)
    requires k < 0 || k > |items|
    ensures PickAll(items, Combinations(|items|, k)) == []
  {
    if k >= 0 {
      CombosCount(0, |items|, k);
    }
  }

  /** The only combination of size 0 is the empty one. */
  lemma EmptyCombination<T>(items: seq<T>)
    ensures PickAll(items, Combinations(|items|, 0)) == [[]]
  {
    assert Combinations(|items|, 0) == [[]];
  }

  /** There are Binomial(|items|, k) combinations of size k. */
  lemma PickedCount<T>(items: seq<T>, k: int)
    ensures |PickAll(items, Combinations(|items|, k))| == Binomial(|items|, k)
  {
    if 0 <= k {
      CombosCount(0, |items|, k);
      assert Combinations(|items|, k) == CombosFrom(0, |items|, k);
    }
  }

  /** The odometer starts at 0, 1, ..., k - 1 with nothing picked. */
  lemma OdometerStart<T>(items: seq<T>, k: nat)
    requires 0 < k <= |items|
    ensures OdometerAt(items, k, 0, Run(0, k), [])
  {
    CombosFirst(0, |items|, k);
    CombosInRange(|items|, k);
  }

  /**
   * One turn of the odometer loop: the current items are picked, and the
   * scan either moves to the next enumerated vector or ends the enumeration.
   */
  lemma OdometerStep<T>(items: seq<T>, k: nat, count: nat, v: seq<int>, result: seq<seq<T>>, i: int)
    requires k > 0 && OdometerAt(items, k, count, v, result)
    requires i == Scan(v, |items|, |v| - 1)
    ensures InRange(v, 0, |items|)
    ensures i >= 0 ==> OdometerAt(items, k, count + 1, Advance(v, i), result + [Pick(items, v)])
    ensures i < 0 ==> result + [Pick(items, v)] == PickAll(items, Combinations(|items|, k))
  {
    var c := CombosFrom(0, |items|, k);
    CombosAt(0, |items|, k, count);
    PickAllSnoc(items, c, count);
    ScanStep(c, |items|, k, count, v, i);
    if i < 0 {
      TakeAll(c, count + 1);
    }
  }

  /**
   * Scans from the right for the first index not yet at its largest value
   * n - k + position; -1 when every index is at its largest.
   */
  method FindPivot(indices: array<int>, n: int, ghost v: seq<int>) returns (i: int)
    requires indices[..] == v
    ensures i == Scan(v, n, |v| - 1)
  {
    var k := indices.Length;
    i := k - 1;
    while i >= 0 && indices[i] == n - k + i
      invariant -1 <= i < k
      invariant Scan(v, n, k - 1) == Scan(v, n, i)
      decreases i
    {
      i := i - 1;
    }
  }

  /** A vector that agrees with Advance(v, i) entry by entry is Advance(v, i). */
  lemma AdvanceIs(v: seq<int>, i: nat, a: seq<int>)
    requires i < |v| == |a|
    requires forall t :: 0 <= t < i ==> a[t] == v[t]
    requires forall t :: i <= t < |a| ==> a[t] == v[i] + 1 + (t - i)
    ensures a == Advance(v, i)
  {
  }

  /** Raises entry i by one and lays the entries after it out consecutively. */
  method AdvanceInPlace(indices: array<int>, i: int, ghost v: seq<int>)
    requires 0 <= i < indices.Length && indices[..] == v
    modifies indices
    ensures indices[..] == Advance(v, i)
  {
    indices[i] := indices[i] + 1;
    for j := i + 1 to indices.Length
      invariant forall t :: 0 <= t < i ==> indices[t] == v[t]
      invariant forall t :: i <= t < j ==> indices[t] == v[i] + 1 + (t - i)
    {
      indices[j] := indices[j - 1] + 1;
    }
    AdvanceIs(v, i, indices[..]);
  }

  /**
   * One turn of the odometer: picks the items the index array points at,
   * then finds the rightmost index below its largest value, raises it by one
   * and resets the indices after it to consecutive values. A negative pivot
   * means there was none, and the turn was the last.
   */
  method Turn<T>(items: seq<T>, k: nat, indices: array<int>, ghost count: nat, result: seq<seq<T>>)
      returns (pivot: int, extended: seq<seq<T>>)
    requires k > 0 && OdometerAt(items, k, count, indices[..], result)
    modifies indices
    ensures pivot >= 0 ==> OdometerAt(items, k, count + 1, indices[..], extended)
    ensures pivot < 0 ==> extended == PickAll(items, Combinations(|items|, k))
  {
    var current := indices[..];
    pivot := FindPivot(indices, |items|, current);
    OdometerStep(items, k, count, current, result, pivot);
    var combo := Pick(items, current);
    extended := result + [combo];
    if pivot >= 0 {
      AdvanceInPlace(indices, pivot, current);
    }
  }

  /** The odometer proper, for 0 < k <= |items|: the index array starts at 0, 1, ..., k - 1. */
  method RunOdometer<T>(items: seq<T>, k: int) returns (result: seq<seq<T>>)
    requires 0 < k <= |items|
    ensures result == PickAll(items, Combinations(|items|, k))
  {
    result := [];
    var indices := new int[k](t => t);
    ghost var count := 0;
    ghost var total := |CombosFrom(0, |items|, k)|;
    assert indices[..] == Run(0, k);
    OdometerStart(items, k);
    while true
      invariant OdometerAt(items, k, count, indices[..], result)
      invariant count < total
      decreases total - count
    {
      var pivot;
      pivot, result := Turn(items, k, indices, count, result);
      if pivot < 0 {
        break;
      }
      count := count + 1;
    }
  }

  /**
   * The k-combinations of `items`, in lexicographic order of their positions:
   * none for k < 0 or k > |items|, a single empty combination for k = 0,
   * and otherwise the ones the odometer produces.
   */
  method GetCombinations<T>(items: seq<T>, k: int) returns (result: seq<seq<T>>)
    ensures k < 0 || k > |items| ==> result == []
    ensures k == 0 ==> result == [[]]
    ensures result == PickAll(items, Combinations(|items|, k))
    ensures |result| == Binomial(|items|, k)
  {
    PickedCount(items, k);
    if k > |items| || k < 0 {
      NoCombinations(items, k);
      return [];
    }
    if k == 0 {
      EmptyCombination(items);
      return [[]];
    }
    result := RunOdometer(items, k);
  }
}
