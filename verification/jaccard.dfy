/** Jaccard similarity of two token lists, with set or bag (multiset)
    semantics.  The tokenizer is a parameter; the final division follows
    Java's double division, with exact reals and 0 / 0 giving NaN. */
module Jaccard {
  import opened Nulls

  /** The result of a Java double division of two non-negative counts. */
  datatype Double = Finite(value: real) | NaN

  /** (double) num / den for counts: NaN exactly when both are zero. */
  function Quotient(num: nat, den: nat): (r: Double)
    requires num <= den
    ensures r.NaN? <==> den == 0
    ensures r.Finite? ==> 0.0 <= r.value <= 1.0
  {
    if den == 0 then NaN
    else
      assert (num as real / den as real) * (den as real) == num as real;
      Finite(num as real / den as real)
  }

  /** The distinct tokens of a list. */
  function TokenSet<T(==)>(tokens: seq<T>): set<T> {
    set t | t in tokens
  }

  /** The token counts of a list. */
  function TokenBag<T(==)>(tokens: seq<T>): multiset<T> {
    multiset(tokens)
  }

  // ----- reference definitions ---------------------------------------------

  /** Set semantics: |S1 ∩ S2| / |S1 ∪ S2|. */
  function SetSimilarity<T(==)>(strings1: seq<T>, strings2: seq<T>): Double {
    var s1, s2 := TokenSet(strings1), TokenSet(strings2);
    SubsetSize(s1 * s2, s1 + s2);
    Quotient(|s1 * s2|, |s1 + s2|)
  }

  /** Bag semantics: the size of the multiset intersection (the sum of the
      smaller counts) over the total number of tokens of both lists. */
  function BagSimilarity<T(==)>(strings1: seq<T>, strings2: seq<T>): Double {
    var b1, b2 := TokenBag(strings1), TokenBag(strings2);
    BagIntersectionBound(b1, b2);
    Quotient(|b1 * b2|, |strings1| + |strings2|)
  }

  /** The similarity in the mode the flag selects. */
  function Similarity<T(==)>(strings1: seq<T>, strings2: seq<T>, bagSemantics: bool): Double {
    if bagSemantics then BagSimilarity(strings1, strings2) else SetSimilarity(strings1, strings2)
  }

  // ----- counting facts ----------------------------------------------------

  /** A sub-multiset is no larger, and equally large only when equal. */
  lemma {:induction false} SubBagSize<T>(a: multiset<T>, b: multiset<T>)
    requires a <= b
    ensures |a| <= |b|
    ensures |a| == |b| ==> a == b
    decreases |b|
  {
    if b != multiset{} {
      var x :| x in b;
      if x in a {
        SubBagSize(a - multiset{x}, b - multiset{x});
        assert a == (a - multiset{x}) + multiset{x};
        assert b == (b - multiset{x}) + multiset{x};
      } else {
        SubBagSize(a, b - multiset{x});
        assert |b - multiset{x}| < |b|;
      }
    }
  }

  /** The multiset intersection is no larger than either side. */
  lemma BagIntersectionBound<T>(a: multiset<T>, b: multiset<T>)
    ensures |a * b| <= |a| && |a * b| <= |b|
  {
    SubBagSize(a * b, a);
    SubBagSize(a * b, b);
  }

  /** A subset is no larger, and equally large only when equal. */
  lemma {:induction false} SubsetSize<T>(a: set<T>, b: set<T>)
    requires a <= b
    ensures |a| <= |b|
    ensures |a| == |b| ==> a == b
    decreases |b|
  {
    if b != {} {
      var x :| x in b;
      if x in a {
        SubsetSize(a - {x}, b - {x});
        assert a == (a - {x}) + {x};
      } else {
        SubsetSize(a, b - {x});
      }
    }
  }

  /** The denominator the source computes is the size of the union. */
  lemma InclusionExclusion<T>(a: set<T>, b: set<T>)
    ensures |a| + |b| - |a * b| == |a + b|
  {
    assert a + b == a + (b - a);
    assert b == (b - a) + (a * b);
    assert (b - a) * (a * b) == {};
    assert a * (b - a) == {};
  }

  /** n / d for 2 n <= d is at most one half, and one half exactly when
      2 n == d. */
  lemma HalfRatio(n: nat, d: nat)
    requires d > 0 && 2 * n <= d
    ensures n as real / d as real <= 0.5
    ensures n as real / d as real == 0.5 <==> 2 * n == d
  {
    var q := n as real / d as real;
    assert q * (d as real) == n as real;
    assert (2.0 * q) * (d as real) == 2.0 * (n as real);
  }

  // ----- properties of the reference ----------------------------------------

  /** Set mode: NaN only for two empty lists. */
  lemma SetSimilarityNaN<T>(strings1: seq<T>, strings2: seq<T>)
    ensures SetSimilarity(strings1, strings2).NaN? <==> |strings1| == 0 && |strings2| == 0
  {
    var s1, s2 := TokenSet(strings1), TokenSet(strings2);
    if |strings1| > 0 {
      assert strings1[0] in s1 + s2;
    }
    if |strings2| > 0 {
      assert strings2[0] in s1 + s2;
    }
  }

  /** Set mode: 1 exactly when both lists have the same distinct tokens
      (and one of them is non-empty). */
  lemma SetSimilarityOne<T>(strings1: seq<T>, strings2: seq<T>)
    ensures SetSimilarity(strings1, strings2) == Finite(1.0) <==> TokenSet(strings1) == TokenSet(strings2) != {}
  {
    var s1, s2 := TokenSet(strings1), TokenSet(strings2);
    SubsetSize(s1 * s2, s1 + s2);
    if |s1 + s2| > 0 {
      var n, d := |s1 * s2| as real, |s1 + s2| as real;
      assert (n / d) * d == n;
      if s1 * s2 == s1 + s2 {
        assert s1 == s2 by {
          assert forall t :: t in s1 <==> t in s1 + s2;
          assert forall t :: t in s2 <==> t in s1 + s2;
        }
      }
    }
  }

  /** Set mode is symmetric. */
  lemma SetSimilaritySymmetric<T>(strings1: seq<T>, strings2: seq<T>)
    ensures SetSimilarity(strings1, strings2) == SetSimilarity(strings2, strings1)
  {
    var s1, s2 := TokenSet(strings1), TokenSet(strings2);
    assert s1 * s2 == s2 * s1 && s1 + s2 == s2 + s1;
  }

  /** Set mode ignores repeated tokens: lists with the same distinct tokens
      have the same similarity to any list. */
  lemma SetSimilarityIgnoresRepeats<T>(strings1: seq<T>, more: seq<T>, strings2: seq<T>)
    requires forall t :: t in more ==> t in strings1
    ensures SetSimilarity(strings1 + more, strings2) == SetSimilarity(strings1, strings2)
  {
    assert TokenSet(strings1 + more) == TokenSet(strings1);
  }

  /** Bag mode: NaN only for two empty lists, and never above one half. */
  lemma BagSimilarityAtMostHalf<T>(strings1: seq<T>, strings2: seq<T>)
    ensures BagSimilarity(strings1, strings2).NaN? <==> |strings1| == 0 && |strings2| == 0
    ensures BagSimilarity(strings1, strings2).Finite? ==> BagSimilarity(strings1, strings2).value <= 0.5
  {
    var b1, b2 := TokenBag(strings1), TokenBag(strings2);
    BagIntersectionBound(b1, b2);
    var d := |strings1| + |strings2|;
    if d > 0 {
      HalfRatio(|b1 * b2|, d);
    }
  }

  /** Bag mode: one half exactly when both lists hold the same tokens the
      same number of times (and are non-empty). */
  lemma BagSimilarityHalf<T>(strings1: seq<T>, strings2: seq<T>)
    ensures BagSimilarity(strings1, strings2) == Finite(0.5) <==> TokenBag(strings1) == TokenBag(strings2) && |strings1| > 0
  {
    var b1, b2 := TokenBag(strings1), TokenBag(strings2);
    SubBagSize(b1 * b2, b1);
    SubBagSize(b1 * b2, b2);
    var d := |strings1| + |strings2|;
    if d > 0 {
      var n := |b1 * b2|;
      HalfRatio(n, d);
      if b1 == b2 {
        assert b1 * b2 == b1;
      }
      if 2 * n == d {
        assert b1 * b2 == b1 && b1 * b2 == b2;
      }
    } else {
      assert |b1| == 0;
    }
  }

  /** Bag mode is symmetric. */
  lemma BagSimilaritySymmetric<T>(strings1: seq<T>, strings2: seq<T>)
    ensures BagSimilarity(strings1, strings2) == BagSimilarity(strings2, strings1)
  {
    var b1, b2 := TokenBag(strings1), TokenBag(strings2);
    assert b1 * b2 == b2 * b1;
  }

  // ----- the source's computation -------------------------------------------

  /** The HashSet built from a token list by adding every token. */
  method BuildSet<T(==)>(tokens: seq<T>) returns (s: set<T>)
    ensures forall t :: t in s <==> t in tokens
  {
    s := {};
    var i := 0;
    while i < |tokens|
      invariant 0 <= i <= |tokens|
      invariant forall t :: t in s <==> t in tokens[..i]
    {
      assert tokens[..i + 1] == tokens[..i] + [tokens[i]];
      s := s + {tokens[i]};
      i := i + 1;
    }
    assert tokens[..|tokens|] == tokens;
  }

  /** A count map stands for a multiset: its keys are the members and its
      values their multiplicities. */
  ghost predicate Counts<T(!new)>(m: map<T, int>, bag: multiset<T>) {
    (forall t :: t in m ==> m[t] == bag[t] > 0) && (forall t :: t !in m ==> bag[t] == 0)
  }

  /** The count map of a token list: a token seen for the first time gets
      count 1, a known token one more. */
  method CountTokens<T(==,!new)>(tokens: seq<T>) returns (m: map<T, int>)
    ensures Counts(m, TokenBag(tokens))
  {
    m := map[];
    var i := 0;
    while i < |tokens|
      invariant 0 <= i <= |tokens|
      invariant Counts(m, multiset(tokens[..i]))
    {
      assert tokens[..i + 1] == tokens[..i] + [tokens[i]];
      var t := tokens[i];
      if t !in m {
        m := m[t := 1];
      } else {
        m := m[t := m[t] + 1];
      }
      i := i + 1;
    }
    assert tokens[..|tokens|] == tokens;
  }

  /** The intersection map: the keys of both maps, each with the smaller
      count. */
  function IntersectCounts<T(==,!new)>(m1: map<T, int>, m2: map<T, int>): (r: map<T, int>)
    ensures forall b1, b2 :: Counts(m1, b1) && Counts(m2, b2) ==> Counts(r, b1 * b2)
  {
    map t | t in m1.Keys * m2.Keys :: if m1[t] <= m2[t] then m1[t] else m2[t]
  }

  /** Removing every copy of one member shrinks a multiset by its count. */
  lemma {:induction false} DropAll<T>(bag: multiset<T>, x: T)
    ensures |bag[x := 0]| + bag[x] == |bag|
    decreases bag[x]
  {
    if bag[x] > 0 {
      var smaller := bag - multiset{x};
      DropAll(smaller, x);
      assert smaller[x := 0] == bag[x := 0];
      assert bag == smaller + multiset{x};
    }
  }

  /** The sum of the values of a count map is the size of its multiset. */
  method SumCounts<T(==,!new)>(m: map<T, int>, ghost bag: multiset<T>) returns (sum: int)
    requires Counts(m, bag)
    ensures sum == |bag|
  {
    sum := 0;
    var rest := m;
    ghost var left := bag;
    while rest != map[]
      invariant Counts(rest, left)
      invariant sum + |left| == |bag|
      decreases |rest.Keys|
    {
      var k :| k in rest;
      DropAll(left, k);
      sum := sum + rest[k];
      left := left[k := 0];
      rest := rest - {k};
    }
    assert forall t :: t !in rest;
    assert forall t :: left[t] == 0;
    assert left == multiset{};
  }

  /** What calculate(String[], String[]) ends with: a null array throws
      NullPointerException (the for-each loops and Arrays.asList dereference
      it), while a null token is an ordinary member of the HashSet or the
      key of the HashMap, equal only to another null token. */
  ghost function ArrayOutcome(strings1: StringArray, strings2: StringArray, bagSemantics: bool): Outcome<Double> {
    if strings1.Null? || strings2.Null? then Thrown(NullPointer)
    else Success(Similarity(strings1.get, strings2.get, bagSemantics))
  }

  /** calculate(String[], String[]): set mode divides the intersection size
      by |S1| + |S2| - |S1 ∩ S2|; bag mode divides the summed smaller counts
      by the summed counts of both lists. */
  method Calculate(strings1: StringArray, strings2: StringArray, bagSemantics: bool) returns (r: Outcome<Double>)
    ensures r.Thrown? <==> strings1.Null? || strings2.Null?
    ensures r.Thrown? ==> r.failure == NullPointer
    ensures r == ArrayOutcome(strings1, strings2, bagSemantics)
  {
    if strings1.Null? || strings2.Null? {
      return Thrown(NullPointer);
    }
    var tokens1, tokens2 := strings1.get, strings2.get;
    if !bagSemantics {
      var set1 := BuildSet(tokens1);
      var set2 := BuildSet(tokens2);
      var intersection := set1 * set2;
      assert set1 == TokenSet(tokens1) && set2 == TokenSet(tokens2);
      InclusionExclusion(set1, set2);
      SubsetSize(intersection, set1 + set2);
      r := Success(Quotient(|intersection|, |set1| + |set2| - |intersection|));
    } else {
      var map1 := CountTokens(tokens1);
      var map2 := CountTokens(tokens2);
      var mapIntersection := IntersectCounts(map1, map2);
      var intersectionSum := SumCounts(mapIntersection, TokenBag(tokens1) * TokenBag(tokens2));
      var size1 := SumCounts(map1, TokenBag(tokens1));
      var size2 := SumCounts(map2, TokenBag(tokens2));
      BagIntersectionBound(TokenBag(tokens1), TokenBag(tokens2));
      r := Success(Quotient(intersectionSum, size1 + size2));
    }
  }

  /** A null token is compared like any other: two arrays holding only a
      null token are as similar as two equal arrays, and a null token shares
      nothing with a string token. */
  lemma NullTokenOrdinary(x: string, bagSemantics: bool)
    ensures Similarity<Nullable<string>>([Null], [Null], bagSemantics) == Finite(if bagSemantics then 0.5 else 1.0)
    ensures Similarity<Nullable<string>>([Null], [Value(x)], bagSemantics) == Finite(0.0)
  {
    var n, v: seq<Nullable<string>> := [Null], [Value(x)];
    assert n[0] in TokenSet(n);
    SetSimilarityOne(n, n);
    BagSimilarityHalf(n, n);
    assert TokenSet(n) * TokenSet(v) == {};
    assert TokenBag(n) * TokenBag(v) == multiset{};
  }

  /** A null string counts as the empty string. */
  function OrEmpty(s: Nullable<string>): string {
    if s.Null? then "" else s.get
  }

  /** calculate(String, String): replaces null by "", tokenizes both strings
      and compares the token arrays; the tokenizer is a parameter. */
  method CalculateStrings(tokenize: string -> StringArray, string1: Nullable<string>, string2: Nullable<string>, bagSemantics: bool)
    returns (r: Outcome<Double>)
    ensures r == ArrayOutcome(tokenize(OrEmpty(string1)), tokenize(OrEmpty(string2)), bagSemantics)
    ensures string1.Null? ==> r == ArrayOutcome(tokenize(""), tokenize(OrEmpty(string2)), bagSemantics)
  {
    var s1 := if string1.Null? then "" else string1.get;
    var s2 := if string2.Null? then "" else string2.get;
    r := Calculate(tokenize(s1), tokenize(s2), bagSemantics);
  }
}
