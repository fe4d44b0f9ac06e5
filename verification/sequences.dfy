/** Small facts about sequences shared by the profiling and similarity modules. */
module Sequences {

  /** Strictly increasing: the order in which row and attribute indices are appended. */
  predicate Increasing(s: seq<int>) {
    forall i, j :: 0 <= i < j < |s| ==> s[i] < s[j]
  }

  /** No element occurs twice. */
  predicate NoDuplicates<T(==)>(s: seq<T>) {
    forall i, j :: 0 <= i < j < |s| ==> s[i] != s[j]
  }

  /** The distinct elements of s, in order of first occurrence (the insertion
      order of a hash set filled from s). */
  function Distinct<T(==,!new)>(s: seq<T>): (d: seq<T>)
    ensures NoDuplicates(d)
    ensures forall x :: x in d <==> x in s
    ensures |d| <= |s|
  {
    if |s| == 0 then []
    else
      var prefix := Distinct(s[..|s| - 1]);
      assert forall x :: x in s <==> x in s[..|s| - 1] || x == s[|s| - 1];
      if s[|s| - 1] in prefix then prefix else prefix + [s[|s| - 1]]
  }

  /** The indices 0 .. n-1 in increasing order. */
  function Range(n: nat): (r: seq<nat>)
    ensures |r| == n
    ensures forall i :: 0 <= i < n ==> r[i] == i
    ensures forall x :: x in r <==> 0 <= x < n
  {
    if n == 0 then [] else Range(n - 1) + [n - 1]
  }

  /** s with every occurrence of x removed, order kept. */
  function Without<T(==,!new)>(s: seq<T>, x: T): (r: seq<T>)
    ensures forall y :: y in r <==> y in s && y != x
    ensures NoDuplicates(s) ==> NoDuplicates(r)
  {
    if |s| == 0 then []
    else
      var rest := Without(s[1..], x);
      assert forall y :: y in s <==> y == s[0] || y in s[1..];
      if s[0] == x then rest
      else
        assert NoDuplicates(s) ==> s[0] !in s[1..];
        [s[0]] + rest
  }

  /** An increasing sequence is determined by its elements. */
  lemma {:induction false} IncreasingUnique(s: seq<int>, t: seq<int>)
    requires Increasing(s) && Increasing(t)
    requires forall x :: x in s <==> x in t
    ensures s == t
  {
    assert |s| > 0 ==> s[0] in s && s[0] in t;
    assert |t| > 0 ==> t[0] in t && t[0] in s;
    if |s| > 0 && |t| > 0 {
      // both heads are the least element of the common content
      assert s[0] in t && t[0] in s;
      IncreasingHeadLeast(s, t[0]);
      IncreasingHeadLeast(t, s[0]);
      forall x
        ensures x in s[1..] <==> x in t[1..]
      {
        IncreasingTailMembers(s, x);
        IncreasingTailMembers(t, x);
      }
      IncreasingUnique(s[1..], t[1..]);
      assert s == [s[0]] + s[1..];
      assert t == [t[0]] + t[1..];
    }
  }

  /** The head of an increasing sequence is its least element. */
  lemma IncreasingHeadLeast(s: seq<int>, x: int)
    requires Increasing(s) && x in s
    ensures s[0] <= x
  {
    var i :| 0 <= i < |s| && s[i] == x;
    assert i == 0 || s[0] < s[i];
  }

  /** The tail of a non-empty increasing sequence holds all elements but the head. */
  lemma IncreasingTailMembers(s: seq<int>, x: int)
    requires Increasing(s) && |s| > 0
    ensures x in s[1..] <==> x in s && x != s[0]
  {
    if x in s && x != s[0] {
      var i :| 0 <= i < |s| && s[i] == x;
      assert s[1..][i - 1] == x;
    }
    if x in s[1..] {
      var i :| 0 <= i < |s[1..]| && s[1..][i] == x;
      assert s[i + 1] == x && s[0] < s[i + 1];
    }
  }

  /** An increasing sequence whose elements lie below m has at most m elements. */
  lemma {:induction false} IncreasingLengthBound(s: seq<int>, m: nat)
    requires Increasing(s)
    requires forall x :: x in s ==> 0 <= x < m
    ensures |s| <= m
  {
    if |s| > 0 {
      var last := s[|s| - 1];
      assert last in s;
      var init := s[..|s| - 1];
      forall x | x in init
        ensures 0 <= x < last
      {
        var i :| 0 <= i < |init| && init[i] == x;
        assert s[i] == x && s[i] < s[|s| - 1];
        assert s[i] in s;
      }
      assert Increasing(init);
      IncreasingLengthBound(init, last);
      assert |s| == |init| + 1;
      assert 0 <= last < m;
    }
  }

  /** In an increasing sequence each element stands for one position: the
      number of distinct elements equals the length. */
  lemma {:induction false} IncreasingCardinality(s: seq<int>)
    requires Increasing(s)
    ensures |set x | x in s| == |s|
  {
    if |s| > 0 {
      var tail := s[1..];
      IncreasingCardinality(tail);
      assert (set x | x in s) == {s[0]} + (set x | x in tail) by {
        assert forall x :: x in s <==> x == s[0] || x in tail;
      }
      assert s[0] !in (set x | x in tail);
    }
  }
}
