/** The attribute combinations of one relation.  The AttributeList class itself
    is not part of this model: its operations are given the meaning the UCC
    search relies on (a sorted set of column indices), and that meaning is an
    assumption of the model. */
module AttributeLists {
  import opened Sequences

  /** A sorted list of attribute indices without repetitions. */
  type AttrList = s: seq<nat> | Increasing(s) witness []

  /** The list holding one attribute (the level-1 combinations). */
  function Single(a: nat): (l: AttrList)
    ensures |l| == 1 && l[0] == a
  {
    [a]
  }

  /** Assumed meaning of `union`: the sorted merge of both lists without repetitions. */
  function Union(a: AttrList, b: AttrList): (u: AttrList)
    ensures forall x :: x in u <==> x in a || x in b
    decreases |a| + |b|
  {
    if |a| == 0 then b
    else if |b| == 0 then a
    else if a[0] < b[0] then
      var rest := Union(a[1..], b);
      assert forall j :: 0 <= j < |rest| ==> a[0] < rest[j] by {
        assert forall i :: 0 <= i < |b| ==> b[0] <= b[i];
        assert forall j :: 0 <= j < |rest| ==> rest[j] in rest;
      }
      [a[0]] + rest
    else if b[0] < a[0] then
      var rest := Union(a, b[1..]);
      assert forall j :: 0 <= j < |rest| ==> b[0] < rest[j] by {
        assert forall i :: 0 <= i < |a| ==> a[0] <= a[i];
        assert forall j :: 0 <= j < |rest| ==> rest[j] in rest;
      }
      [b[0]] + rest
    else
      var rest := Union(a[1..], b[1..]);
      assert forall j :: 0 <= j < |rest| ==> a[0] < rest[j] by {
        assert forall j :: 0 <= j < |rest| ==> rest[j] in rest;
      }
      [a[0]] + rest
  }

  /** Assumed meaning of `samePrefixAs`: equal length, and equal on every
      position but the last. */
  predicate SamePrefixAs(a: AttrList, b: AttrList) {
    |a| == |b| && forall i :: 0 <= i < |a| - 1 ==> a[i] == b[i]
  }

  /** Assumed meaning of `sublistOf`: every attribute of a occurs in b. */
  predicate SublistOf(a: AttrList, b: AttrList) {
    forall i :: 0 <= i < |a| ==> a[i] in b
  }

  /** Assumed meaning of `supersetOf`: every attribute of b occurs in a. */
  predicate SupersetOf(a: AttrList, b: AttrList) {
    SublistOf(b, a)
  }

  /** Every attribute index lies below n, the relation's attribute count. */
  predicate Below(a: AttrList, n: nat) {
    forall i :: 0 <= i < |a| ==> a[i] < n
  }

  /** Union is commutative: the result depends on the content only. */
  lemma UnionCommutes(a: AttrList, b: AttrList)
    ensures Union(a, b) == Union(b, a)
  {
    IncreasingUnique(Union(a, b), Union(b, a));
  }

  /** Union is associative. */
  lemma UnionAssociates(a: AttrList, b: AttrList, c: AttrList)
    ensures Union(Union(a, b), c) == Union(a, Union(b, c))
  {
    IncreasingUnique(Union(Union(a, b), c), Union(a, Union(b, c)));
  }

  /** Joining two different lists that share their prefix extends the prefix by
      both last attributes, so the candidate is one attribute longer. */
  lemma JoinExtends(a: AttrList, b: AttrList)
    requires SamePrefixAs(a, b) && a != b
    ensures |a| > 0
    ensures |Union(a, b)| == |a| + 1
    ensures a[|a| - 1] < b[|b| - 1] ==> Union(a, b) == a + [b[|b| - 1]]
    ensures b[|b| - 1] < a[|a| - 1] ==> Union(a, b) == b + [a[|a| - 1]]
  {
    var k := |a|;
    assert k > 0;
    assert a[k - 1] != b[k - 1];
    var lo, hi := if a[k - 1] < b[k - 1] then a else b, if a[k - 1] < b[k - 1] then b else a;
    var joined := lo + [hi[k - 1]];
    assert Increasing(joined) by {
      assert forall i :: 0 <= i < k ==> lo[i] <= lo[k - 1];
    }
    forall x
      ensures x in joined <==> x in a || x in b
    {
      if x in hi {
        var i :| 0 <= i < k && hi[i] == x;
        if i < k - 1 {
          assert lo[i] == x;
        }
      }
    }
    IncreasingUnique(Union(a, b), joined);
  }

  /** Attribute lists below n stay below n under union. */
  lemma UnionBelow(a: AttrList, b: AttrList, n: nat)
    requires Below(a, n) && Below(b, n)
    ensures Below(Union(a, b), n)
  {
    var u := Union(a, b);
    forall i | 0 <= i < |u|
      ensures u[i] < n
    {
      assert u[i] in u;
    }
  }

  /** A list below n holds at most n attributes. */
  lemma SizeBound(a: AttrList, n: nat)
    requires Below(a, n)
    ensures |a| <= n
  {
    IncreasingLengthBound(a, n);
  }

  /** A sublist has at most as many attributes as the list containing it. */
  lemma SublistSize(a: AttrList, b: AttrList)
    ensures SublistOf(a, b) ==> |a| <= |b|
  {
    if SublistOf(a, b) {
      IncreasingCardinality(a);
      IncreasingCardinality(b);
      var sa, sb := set x | x in a, set x | x in b;
      assert sa <= sb;
      assert sb == sa + (sb - sa);
      assert sa * (sb - sa) == {};
    }
  }

  /** Two lists of equal size, one containing the other, are equal. */
  lemma SameSizeSuperset(a: AttrList, b: AttrList)
    requires |a| == |b|
    ensures SupersetOf(a, b) ==> a == b
  {
    if SupersetOf(a, b) {
      IncreasingCardinality(a);
      IncreasingCardinality(b);
      var sa, sb := set x | x in a, set x | x in b;
      assert sb <= sa;
      assert sa * sb == sb;
      assert |sa - sb| == 0;
      assert sa - sb == {};
      forall x | x in a
        ensures x in b
      {
        assert x in sa && x !in sa - sb;
      }
      IncreasingUnique(a, b);
    }
  }

  /** A sublist of a list below n is below n. */
  lemma SublistBelow(a: AttrList, b: AttrList, n: nat)
    requires SublistOf(a, b) && Below(b, n)
    ensures Below(a, n)
  {
    forall i | 0 <= i < |a|
      ensures a[i] < n
    {
      var j :| 0 <= j < |b| && b[j] == a[i];
    }
  }

  /** Containment of attribute lists is transitive. */
  lemma SublistTrans(a: AttrList, b: AttrList, c: AttrList)
    requires SublistOf(a, b) && SublistOf(b, c)
    ensures SublistOf(a, c)
  {
    forall i | 0 <= i < |a|
      ensures a[i] in c
    {
      var j :| 0 <= j < |b| && b[j] == a[i];
    }
  }

  /** Leaving out the attribute before the last keeps a list increasing. */
  lemma DropBeforeLast(c: AttrList)
    requires |c| >= 2
    ensures Increasing(c[..|c| - 2] + [c[|c| - 1]])
  {
    var m := |c| - 1;
    var back := c[..m - 1] + [c[m]];
    forall i, j | 0 <= i < j < |back|
      ensures back[i] < back[j]
    {
      assert back[i] == c[i];
      assert back[j] == if j < m - 1 then c[j] else c[m];
    }
  }

  /** A list of two or more attributes is the join of two shorter lists that
      share their prefix: the list without its last attribute and the list
      without the attribute before the last. */
  lemma JoinParts(c: AttrList) returns (x: AttrList, y: AttrList)
    requires |c| >= 2
    ensures |x| == |y| == |c| - 1 && SamePrefixAs(x, y) && x != y
    ensures SublistOf(x, c) && SublistOf(y, c)
    ensures Union(x, y) == c
  {
    var m := |c| - 1;
    DropBeforeLast(c);
    x, y := c[..m], c[..m - 1] + [c[m]];
    forall i | 0 <= i < m
      ensures x[i] in c && y[i] in c
    {
      assert x[i] == c[i];
      assert y[i] == if i < m - 1 then c[i] else c[m];
    }
    assert x[m - 1] == c[m - 1] < c[m] == y[m - 1];
    JoinExtends(x, y);
    assert x + [y[m - 1]] == c;
  }
}
