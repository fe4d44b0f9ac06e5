/** The order in which the UCC search returns its results: by size, then
    attribute by attribute. */
module UccOrder {
  import opened AttributeLists

  /** The comparator's attribute loop: the first nonzero difference of
      attributes at the same position, or 0 when there is none. */
  function CompareAttributes(a: seq<nat>, b: seq<nat>): (d: int)
    requires |a| == |b|
    ensures d == 0 <==> a == b
  {
    var diff: int := if |a| == 0 then 0 else a[0] as int - b[0] as int;
    if |a| == 0 then 0
    else if diff != 0 then diff
    else
      var d := CompareAttributes(a[1..], b[1..]);
      assert a == [a[0]] + a[1..] && b == [b[0]] + b[1..];
      d
  }

  /** The comparator handed to the sort: the size difference when the sizes
      differ, otherwise the attribute comparison. */
  function Compare(a: AttrList, b: AttrList): (d: int)
    ensures |a| < |b| ==> d < 0
    ensures |b| < |a| ==> d > 0
    ensures d == 0 <==> a == b
  {
    var sizeDiff := |a| - |b|;
    if sizeDiff != 0 then sizeDiff else CompareAttributes(a, b)
  }

  /** Lexicographic order on equally long lists: equal up to some position
      that is smaller in a. */
  ghost predicate LexLess(a: seq<nat>, b: seq<nat>) {
    exists k :: 0 <= k < |a| && k < |b| && a[..k] == b[..k] && a[k] < b[k]
  }

  /** The intended result order: shorter lists first, equally long lists
      lexicographically. */
  ghost predicate Precedes(a: AttrList, b: AttrList) {
    |a| < |b| || (|a| == |b| && LexLess(a, b))
  }

  /** Dropping an equal first attribute keeps the lexicographic order. */
  lemma LexLessTail(a: seq<nat>, b: seq<nat>)
    requires |a| == |b| && |a| > 0 && a[0] == b[0]
    ensures LexLess(a, b) <==> LexLess(a[1..], b[1..])
  {
    if LexLess(a, b) {
      var k :| 0 <= k < |a| && k < |b| && a[..k] == b[..k] && a[k] < b[k];
      assert k > 0;
      assert a[1..][..k - 1] == a[..k][1..] == b[..k][1..] == b[1..][..k - 1];
      assert a[1..][k - 1] < b[1..][k - 1];
    }
    if LexLess(a[1..], b[1..]) {
      var k :| 0 <= k < |a| - 1 && a[1..][..k] == b[1..][..k] && a[1..][k] < b[1..][k];
      assert a[..k + 1] == [a[0]] + a[1..][..k];
      assert b[..k + 1] == [b[0]] + b[1..][..k];
      assert a[k + 1] < b[k + 1];
    }
  }

  /** The attribute loop returns a negative value exactly for lexicographically
      smaller lists. */
  lemma {:induction false} CompareAttributesLess(a: seq<nat>, b: seq<nat>)
    requires |a| == |b|
    ensures CompareAttributes(a, b) < 0 <==> LexLess(a, b)
  {
    if |a| > 0 {
      if a[0] < b[0] {
        assert a[..0] == b[..0];
      } else if a[0] > b[0] {
        forall k | 0 < k < |a|
          ensures a[..k] != b[..k]
        {
          assert a[..k][0] != b[..k][0];
        }
      } else {
        CompareAttributesLess(a[1..], b[1..]);
        LexLessTail(a, b);
      }
    }
  }

  /** The comparator returns a negative value exactly when a precedes b. */
  lemma CompareMeaning(a: AttrList, b: AttrList)
    ensures Compare(a, b) < 0 <==> Precedes(a, b)
  {
    if |a| == |b| {
      CompareAttributesLess(a, b);
    }
  }

  /** Lexicographic order is transitive. */
  lemma LexLessTransitive(a: seq<nat>, b: seq<nat>, c: seq<nat>)
    requires |a| == |b| == |c|
    requires LexLess(a, b) && LexLess(b, c)
    ensures LexLess(a, c)
  {
    var k1 :| 0 <= k1 < |a| && a[..k1] == b[..k1] && a[k1] < b[k1];
    var k2 :| 0 <= k2 < |b| && b[..k2] == c[..k2] && b[k2] < c[k2];
    if k1 < k2 {
      assert b[..k2][..k1] == c[..k2][..k1];
      assert a[..k1] == c[..k1];
      assert b[..k2][k1] == c[..k2][k1];
      assert a[k1] < c[k1];
    } else if k2 < k1 {
      assert a[..k1][..k2] == b[..k1][..k2];
      assert a[..k2] == c[..k2];
      assert a[..k1][k2] == b[..k1][k2];
      assert a[k2] < c[k2];
    } else {
      assert a[..k1] == c[..k1];
    }
  }

  /** Lexicographic order is asymmetric. */
  lemma LexLessAsymmetric(a: seq<nat>, b: seq<nat>)
    requires |a| == |b|
    ensures !(LexLess(a, b) && LexLess(b, a))
  {
    if LexLess(a, b) {
      var k1 :| 0 <= k1 < |a| && a[..k1] == b[..k1] && a[k1] < b[k1];
      forall k2 | 0 <= k2 < k1
        ensures b[k2] == a[k2]
      {
        assert a[..k1][k2] == b[..k1][k2];
      }
      forall k2 | k1 < k2 < |a|
        ensures b[..k2] != a[..k2]
      {
        assert a[..k2][k1] != b[..k2][k1];
      }
    }
  }

  /** Swapping the arguments of the attribute loop negates its result. */
  lemma {:induction false} CompareAttributesSwap(a: seq<nat>, b: seq<nat>)
    requires |a| == |b|
    ensures CompareAttributes(a, b) == -CompareAttributes(b, a)
  {
    if |a| > 0 && a[0] == b[0] {
      CompareAttributesSwap(a[1..], b[1..]);
    }
  }

  /** The comparator is antisymmetric. */
  lemma CompareAntisymmetric(a: AttrList, b: AttrList)
    ensures Compare(a, b) == -Compare(b, a)
  {
    if |a| == |b| {
      CompareAttributesSwap(a, b);
    }
  }

  /** The comparator is transitive. */
  lemma CompareTransitive(a: AttrList, b: AttrList, c: AttrList)
    requires Compare(a, b) <= 0 && Compare(b, c) <= 0
    ensures Compare(a, c) <= 0
    ensures Compare(a, b) < 0 || Compare(b, c) < 0 ==> Compare(a, c) < 0
  {
    CompareMeaning(a, b);
    CompareMeaning(b, c);
    CompareMeaning(a, c);
    if |a| == |b| == |c| && Compare(a, b) < 0 && Compare(b, c) < 0 {
      LexLessTransitive(a, b, c);
    }
  }

  /** Ordered by the comparator: no later list compares below an earlier one. */
  ghost predicate Ordered(s: seq<AttrList>) {
    forall i, j :: 0 <= i < j < |s| ==> Compare(s[i], s[j]) <= 0
  }

  /** A list comparing at most equal to every list of an ordered sequence can
      go in front of it. */
  lemma OrderedCons(x: AttrList, s: seq<AttrList>)
    requires Ordered(s)
    requires forall j :: 0 <= j < |s| ==> Compare(x, s[j]) <= 0
    ensures Ordered([x] + s)
  {
    forall i, j | 0 <= i < j < |[x] + s|
      ensures Compare(([x] + s)[i], ([x] + s)[j]) <= 0
    {
      assert ([x] + s)[j] == s[j - 1];
      if i > 0 {
        assert ([x] + s)[i] == s[i - 1];
      }
    }
  }

  /** A list comparing below the first of an ordered sequence goes in front. */
  lemma InsertFront(x: AttrList, s: seq<AttrList>)
    requires Ordered(s) && |s| > 0 && Compare(x, s[0]) < 0
    ensures Ordered([x] + s)
  {
    forall j | 0 <= j < |s|
      ensures Compare(x, s[j]) <= 0
    {
      if j > 0 {
        CompareTransitive(x, s[0], s[j]);
      }
    }
    OrderedCons(x, s);
  }

  /** A list not comparing below the first of an ordered sequence goes into
      its tail. */
  lemma InsertBehind(x: AttrList, s: seq<AttrList>, rest: seq<AttrList>)
    requires Ordered(s) && |s| > 0 && Compare(x, s[0]) >= 0
    requires Ordered(rest) && multiset(rest) == multiset(s[1..]) + multiset{x}
    ensures Ordered([s[0]] + rest)
    ensures multiset([s[0]] + rest) == multiset(s) + multiset{x}
  {
    assert s == [s[0]] + s[1..];
    CompareAntisymmetric(x, s[0]);
    forall j | 0 <= j < |rest|
      ensures Compare(s[0], rest[j]) <= 0
    {
      assert rest[j] in multiset(rest);
      if rest[j] != x {
        assert rest[j] in multiset(s[1..]);
        var k :| 0 <= k < |s[1..]| && s[1..][k] == rest[j];
        assert s[k + 1] == rest[j];
      }
    }
    OrderedCons(s[0], rest);
  }

  /** Inserts x after every list that does not compare above it. */
  function Insert(x: AttrList, s: seq<AttrList>): (r: seq<AttrList>)
    requires Ordered(s)
    ensures Ordered(r)
    ensures multiset(r) == multiset(s) + multiset{x}
  {
    if |s| == 0 then [x]
    else if Compare(x, s[0]) < 0 then
      InsertFront(x, s);
      [x] + s
    else
      OrderedTail(s);
      var rest := Insert(x, s[1..]);
      InsertBehind(x, s, rest);
      [s[0]] + rest
  }

  /** The sorted stream: insertion of the lists in their order of discovery,
      each one placed after the lists comparing equal to it (a stable sort). */
  function Sort(s: seq<AttrList>): (r: seq<AttrList>)
    ensures Ordered(r)
    ensures multiset(r) == multiset(s)
  {
    if |s| == 0 then []
    else
      assert s == s[..|s| - 1] + [s[|s| - 1]];
      Insert(s[|s| - 1], Sort(s[..|s| - 1]))
  }

  /** Two ordered arrangements of the same lists start with the same list. */
  lemma OrderedHeads(s: seq<AttrList>, t: seq<AttrList>)
    requires Ordered(s) && Ordered(t) && multiset(s) == multiset(t) && |s| > 0
    ensures |t| > 0 && s[0] == t[0]
  {
    assert s[0] in multiset(t);
    var i :| 0 <= i < |t| && t[i] == s[0];
    assert t[0] in multiset(s);
    var j :| 0 <= j < |s| && s[j] == t[0];
    assert Compare(t[0], s[0]) <= 0 && Compare(s[0], t[0]) <= 0;
    CompareAntisymmetric(s[0], t[0]);
  }

  /** Removing the first list keeps the rest ordered and different. */
  lemma OrderedTail(s: seq<AttrList>)
    requires |s| > 0 && Ordered(s)
    ensures Ordered(s[1..])
    ensures (forall i, j :: 0 <= i < j < |s| ==> s[i] != s[j]) ==>
      forall i, j :: 0 <= i < j < |s[1..]| ==> s[1..][i] != s[1..][j]
  {
    assert forall i :: 0 <= i < |s| - 1 ==> s[1..][i] == s[i + 1];
  }

  /** The content of a sequence without its first element. */
  lemma MultisetTail(s: seq<AttrList>)
    requires |s| > 0
    ensures multiset(s[1..]) == multiset(s) - multiset{s[0]}
  {
    assert s == [s[0]] + s[1..];
  }

  /** Two ordered arrangements of the same different lists agree on their
      first list, and their tails are again two such arrangements. */
  lemma OrderedTails(s: seq<AttrList>, t: seq<AttrList>)
    requires Ordered(s) && Ordered(t) && multiset(s) == multiset(t) && |s| > 0
    requires forall i, j :: 0 <= i < j < |s| ==> s[i] != s[j]
    ensures |t| > 0 && s[0] == t[0]
    ensures Ordered(s[1..]) && Ordered(t[1..]) && multiset(s[1..]) == multiset(t[1..])
    ensures forall i, j :: 0 <= i < j < |s[1..]| ==> s[1..][i] != s[1..][j]
  {
    OrderedHeads(s, t);
    MultisetTail(s);
    MultisetTail(t);
    OrderedTail(s);
    OrderedTail(t);
  }

  /** A list of different attribute lists has only one ordered arrangement,
      so the result does not depend on the sorting algorithm. */
  lemma {:induction false} OrderedUnique(s: seq<AttrList>, t: seq<AttrList>)
    requires Ordered(s) && Ordered(t) && multiset(s) == multiset(t)
    requires forall i, j :: 0 <= i < j < |s| ==> s[i] != s[j]
    ensures s == t
  {
    if |s| == 0 {
      assert |multiset(t)| == |t|;
    } else {
      OrderedTails(s, t);
      OrderedUnique(s[1..], t[1..]);
      assert s == [s[0]] + s[1..];
      assert t == [t[0]] + t[1..];
    }
  }
}
