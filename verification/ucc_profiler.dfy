/** The UCC profiler: the level-wise search instantiated with the uniqueness
    tests the profiler runs on a relation, and the sorted result. */
module UccProfiler {
  import opened Sequences
  import opened AttributeLists
  import opened PositionListIndex
  import opened MergeColumns
  import opened UccOrder
  import opened UccSearch

  /** A relation: its attribute names and its records.  The Relation class is
      not part of this model; column a is read from the records. */
  datatype Relation = Relation(attributes: seq<string>, records: seq<Record>)

  /** The values of attribute a, one per record. */
  function Column(rel: Relation, a: nat): (col: seq<string>)
    ensures |col| == |rel.records|
    ensures forall i :: 0 <= i < |col| ==> col[i] == Field(rel.records[i], a)
  {
    seq(|rel.records|, i requires 0 <= i < |rel.records| => Field(rel.records[i], a))
  }

  /** The value tuples of the attribute list, one per record. */
  function Tuples(rel: Relation, c: AttrList): (ts: seq<seq<string>>)
    ensures |ts| == |rel.records|
    ensures forall i :: 0 <= i < |ts| ==> ts[i] == Project(rel.records[i], c)
  {
    seq(|rel.records|, i requires 0 <= i < |rel.records| => Project(rel.records[i], c))
  }

  /** The attribute list is a unique column combination: no two records agree
      on all of its attributes. */
  ghost predicate IsUcc(rel: Relation, c: AttrList) {
    forall i, j :: 0 <= i < j < |rel.records| ==> Project(rel.records[i], c) != Project(rel.records[j], c)
  }

  /** A minimal unique column combination: a UCC none of whose non-empty
      proper sublists is a UCC. */
  ghost predicate MinimalUcc(rel: Relation, c: AttrList) {
    0 < |c| && IsUcc(rel, c) &&
    forall d: AttrList {:trigger SublistOf(d, c)} :: 0 < |d| && SublistOf(d, c) && d != c ==> !IsUcc(rel, d)
  }

  /** No field of the relation contains the separator of the merged strings. */
  predicate NoCommas(rel: Relation) {
    forall i, k :: 0 <= i < |rel.records| && 0 <= k < |rel.records[i]| ==> ',' !in rel.records[i][k]
  }

  /** Adding attributes keeps two records apart: a list containing a UCC is a UCC. */
  lemma UccMonotone(rel: Relation, c: AttrList, d: AttrList)
    requires IsUcc(rel, c) && SublistOf(c, d)
    ensures IsUcc(rel, d)
  {
    forall i, j | 0 <= i < j < |rel.records|
      ensures Project(rel.records[i], d) != Project(rel.records[j], d)
    {
      var ti, tj := Project(rel.records[i], c), Project(rel.records[j], c);
      assert ti != tj;
      var k :| 0 <= k < |c| && ti[k] != tj[k];
      assert c[k] in d;
      var l :| 0 <= l < |d| && d[l] == c[k];
      assert Project(rel.records[i], d)[l] != Project(rel.records[j], d)[l];
    }
  }

  /** The unary test: the index of the column has no clusters. */
  function ColumnUnique(rel: Relation, a: nat): bool {
    FromValues(Single(a), Column(rel, a)).IsUnique()
  }

  /** The test for larger combinations as the profiler runs it: the index of the
      merged strings has no clusters. */
  function MergedUnique(rel: Relation, c: AttrList): bool {
    FromValues(c, Merge(rel.records, c)).IsUnique()
  }

  /** The intended test for larger combinations: the index of the value tuples
      has no clusters. */
  function TupleUnique(rel: Relation, c: AttrList): bool {
    FromValues(c, Tuples(rel, c)).IsUnique()
  }

  /** The unary test holds exactly when the attribute alone is unique. */
  lemma ColumnUniqueExact(rel: Relation, a: nat)
    ensures ColumnUnique(rel, a) <==> IsUcc(rel, Single(a))
  {
    var col := Column(rel, a);
    FromValuesUnique(Single(a), col);
    forall i, j | 0 <= i < j < |rel.records|
      ensures col[i] == col[j] <==> Project(rel.records[i], Single(a)) == Project(rel.records[j], Single(a))
    {
      assert Project(rel.records[i], Single(a)) == [col[i]];
      assert Project(rel.records[j], Single(a)) == [col[j]];
    }
  }

  /** The merged test is sound: it passes only unique combinations. */
  lemma MergedUniqueSound(rel: Relation, c: AttrList)
    ensures MergedUnique(rel, c) ==> IsUcc(rel, c)
  {
    FromValuesUnique(c, Merge(rel.records, c));
  }

  /** On values without commas the merged test is exact. */
  lemma MergedUniqueExact(rel: Relation, c: AttrList)
    requires forall i :: 0 <= i < |rel.records| ==> CommaFree(Project(rel.records[i], c))
    ensures MergedUnique(rel, c) <==> IsUcc(rel, c)
  {
    var merged := Merge(rel.records, c);
    FromValuesUnique(c, merged);
    forall i, j | 0 <= i < j < |rel.records|
      ensures merged[i] == merged[j] <==> Project(rel.records[i], c) == Project(rel.records[j], c)
    {
      MergeExact(rel.records[i], rel.records[j], c);
    }
  }

  /** The tuple test is exact on every relation. */
  lemma TupleUniqueExact(rel: Relation, c: AttrList)
    ensures TupleUnique(rel, c) <==> IsUcc(rel, c)
  {
    FromValuesUnique(c, Tuples(rel, c));
  }

  /** The unary test as the search's parameter. */
  function UnaryTest(rel: Relation): nat -> bool {
    (a: nat) => ColumnUnique(rel, a)
  }

  /** The merged-string test as the search's parameter. */
  function MergedTest(rel: Relation): AttrList -> bool {
    (c: AttrList) => MergedUnique(rel, c)
  }

  /** The tuple test as the search's parameter. */
  function TupleTest(rel: Relation): AttrList -> bool {
    (c: AttrList) => TupleUnique(rel, c)
  }

  /** With a sound test for larger combinations, the search reports only unique
      column combinations over the relation's attributes. */
  lemma SearchFindsUccs(rel: Relation, unique: AttrList -> bool)
    requires forall c :: |c| > 1 && unique(c) ==> IsUcc(rel, c)
    ensures var found := Search(UnaryTest(rel), unique, |rel.attributes|);
      forall x :: x in found ==> 0 < |x| && Below(x, |rel.attributes|) && IsUcc(rel, x)
  {
    var found := Search(UnaryTest(rel), unique, |rel.attributes|);
    forall x | x in found
      ensures 0 < |x| && Below(x, |rel.attributes|) && IsUcc(rel, x)
    {
      var k :| 0 <= k < |found| && found[k] == x;
      if |x| == 1 {
        assert x == Single(x[0]);
        ColumnUniqueExact(rel, x[0]);
      }
    }
  }

  /** The search reports a single attribute exactly when it is unique alone. */
  lemma SearchSingles(rel: Relation, unique: AttrList -> bool)
    ensures var found := Search(UnaryTest(rel), unique, |rel.attributes|);
      forall a :: 0 <= a < |rel.attributes| ==> (Single(a) in found <==> IsUcc(rel, Single(a)))
  {
    forall a | 0 <= a < |rel.attributes|
      ensures Single(a) in Search(UnaryTest(rel), unique, |rel.attributes|) <==> IsUcc(rel, Single(a))
    {
      ColumnUniqueExact(rel, a);
    }
  }

  /** No reported combination contains another. */
  lemma SearchAntichain(unary: nat -> bool, unique: AttrList -> bool, n: nat)
    ensures var found := Search(unary, unique, n);
      forall x, y :: x in found && y in found && x != y ==> !SupersetOf(x, y)
  {
    var found := Search(unary, unique, n);
    forall x, y | x in found && y in found && x != y
      ensures !SupersetOf(x, y)
    {
      var i :| 0 <= i < |found| && found[i] == x;
      var j :| 0 <= j < |found| && found[j] == y;
    }
  }

  /** Sorting keeps the members. */
  lemma SortMembers(s: seq<AttrList>)
    ensures forall x :: x in Sort(s) <==> x in s
  {
    assert forall x :: x in Sort(s) <==> x in multiset(Sort(s));
  }

  /** Every larger combination the search reports passed the merged test. */
  lemma MergedFound(rel: Relation)
    ensures var found := Search(UnaryTest(rel), MergedTest(rel), |rel.attributes|);
      forall x :: x in found && |x| > 1 ==> MergedUnique(rel, x)
  {
    var found := Search(UnaryTest(rel), MergedTest(rel), |rel.attributes|);
    forall x | x in found && |x| > 1
      ensures MergedUnique(rel, x)
    {
      var k :| 0 <= k < |found| && found[k] == x;
    }
  }

  /** The merged test meets the soundness condition of the search lemmas. */
  lemma MergedTestSound(rel: Relation)
    ensures forall c :: |c| > 1 && MergedTest(rel)(c) ==> IsUcc(rel, c)
  {
    forall c | |c| > 1 && MergedTest(rel)(c)
      ensures IsUcc(rel, c)
    {
      MergedUniqueSound(rel, c);
    }
  }

  /** The tuple test meets the soundness condition of the search lemmas. */
  lemma TupleTestSound(rel: Relation)
    ensures forall c :: |c| > 1 && TupleTest(rel)(c) ==> IsUcc(rel, c)
  {
    forall c | |c| > 1 && TupleTest(rel)(c)
      ensures IsUcc(rel, c)
    {
      TupleUniqueExact(rel, c);
    }
  }

  /** With a test that decides exactly the UCCs, the search finds exactly the
      minimal UCCs over the relation's attributes. */
  lemma ExactTestFindsMinimal(rel: Relation, unique: AttrList -> bool)
    requires forall c :: unique(c) == IsUcc(rel, c)
    ensures forall c: AttrList :: c in Search(UnaryTest(rel), unique, |rel.attributes|) <==>
      Below(c, |rel.attributes|) && MinimalUcc(rel, c)
  {
    var n := |rel.attributes|;
    forall c: AttrList, d: AttrList | unique(c) && SublistOf(c, d)
      ensures unique(d)
    {
      UccMonotone(rel, c, d);
    }
    forall a | 0 <= a < n
      ensures UnaryTest(rel)(a) == unique(Single(a))
    {
      ColumnUniqueExact(rel, a);
    }
    SearchExact(UnaryTest(rel), unique, n);
    forall c: AttrList
      ensures MinimalUnique(unique, c) == MinimalUcc(rel, c)
    {
    }
  }

  /** With the tuple test, the search finds exactly the minimal UCCs. */
  lemma TupleSearchExact(rel: Relation)
    ensures forall c: AttrList :: c in Search(UnaryTest(rel), TupleTest(rel), |rel.attributes|) <==>
      Below(c, |rel.attributes|) && MinimalUcc(rel, c)
  {
    forall c: AttrList
      ensures TupleTest(rel)(c) == IsUcc(rel, c)
    {
      TupleUniqueExact(rel, c);
    }
    ExactTestFindsMinimal(rel, TupleTest(rel));
  }

  /** Without commas in the fields, the merged test decides exactly the UCCs. */
  lemma MergedTestExact(rel: Relation, c: AttrList)
    requires NoCommas(rel)
    ensures MergedTest(rel)(c) == IsUcc(rel, c)
  {
    forall i | 0 <= i < |rel.records|
      ensures CommaFree(Project(rel.records[i], c))
    {
      var r := rel.records[i];
      forall k | 0 <= k < |c|
        ensures ',' !in Project(r, c)[k]
      {
        if c[k] >= |r| {
          assert Project(r, c)[k] == "N/A";
        }
      }
    }
    MergedUniqueExact(rel, c);
  }

  /** Without commas in the fields, the search as written finds exactly the
      minimal UCCs. */
  lemma MergedSearchExact(rel: Relation)
    requires NoCommas(rel)
    ensures forall c: AttrList :: c in Search(UnaryTest(rel), MergedTest(rel), |rel.attributes|) <==>
      Below(c, |rel.attributes|) && MinimalUcc(rel, c)
  {
    forall c: AttrList
      ensures MergedTest(rel)(c) == IsUcc(rel, c)
    {
      MergedTestExact(rel, c);
    }
    ExactTestFindsMinimal(rel, MergedTest(rel));
  }

  /** profile(relation): the minimal unique column combinations found by the
      level-wise search, sorted by size and then attribute by attribute. */
  function Profile(rel: Relation): (uccs: seq<AttrList>)
    ensures Ordered(uccs) && multiset(uccs) == multiset(Search(UnaryTest(rel), MergedTest(rel), |rel.attributes|))
    ensures forall x :: x in uccs ==> 0 < |x| && Below(x, |rel.attributes|) && IsUcc(rel, x)
    ensures forall x :: x in uccs && |x| > 1 ==> MergedUnique(rel, x)
    ensures forall a :: 0 <= a < |rel.attributes| ==> (Single(a) in uccs <==> IsUcc(rel, Single(a)))
    ensures forall x, y :: x in uccs && y in uccs && x != y ==> !SupersetOf(x, y)
    ensures NoCommas(rel) ==>
      forall c: AttrList :: c in uccs <==> Below(c, |rel.attributes|) && MinimalUcc(rel, c)
  {
    var found := Search(UnaryTest(rel), MergedTest(rel), |rel.attributes|);
    assert NoCommas(rel) ==>
      forall c: AttrList :: c in found <==> Below(c, |rel.attributes|) && MinimalUcc(rel, c)
    by {
      if NoCommas(rel) {
        MergedSearchExact(rel);
      }
    }
    MergedTestSound(rel);
    SearchFindsUccs(rel, MergedTest(rel));
    SearchSingles(rel, MergedTest(rel));
    SearchAntichain(UnaryTest(rel), MergedTest(rel), |rel.attributes|);
    MergedFound(rel);
    SortMembers(found);
    Sort(found)
  }

  /** profile(relation) with the tuple test in place of the merged strings. */
  function CorrectedProfile(rel: Relation): (uccs: seq<AttrList>)
    ensures Ordered(uccs) && multiset(uccs) == multiset(Search(UnaryTest(rel), TupleTest(rel), |rel.attributes|))
    ensures forall x :: x in uccs ==> 0 < |x| && Below(x, |rel.attributes|) && IsUcc(rel, x)
    ensures forall a :: 0 <= a < |rel.attributes| ==> (Single(a) in uccs <==> IsUcc(rel, Single(a)))
    ensures forall x, y :: x in uccs && y in uccs && x != y ==> !SupersetOf(x, y)
    ensures forall c: AttrList :: c in uccs <==> Below(c, |rel.attributes|) && MinimalUcc(rel, c)
  {
    var found := Search(UnaryTest(rel), TupleTest(rel), |rel.attributes|);
    TupleSearchExact(rel);
    TupleTestSound(rel);
    SearchFindsUccs(rel, TupleTest(rel));
    SearchSingles(rel, TupleTest(rel));
    SearchAntichain(UnaryTest(rel), TupleTest(rel), |rel.attributes|);
    SortMembers(found);
    Sort(found)
  }

  /** Three records whose values contain the separator: neither attribute is
      unique alone, the pair is. */
  predicate CommaRecords(rel: Relation) {
    |rel.attributes| >= 2 && rel.records == [["a,b", "c"], ["a", "b,c"], ["a,b", "b,c"]]
  }

  /** An attribute whose values repeat in two records is not unique alone. */
  lemma RepeatedColumn(rel: Relation, a: nat, i: nat, j: nat)
    requires i < j < |rel.records|
    requires Field(rel.records[i], a) == Field(rel.records[j], a)
    ensures !ColumnUnique(rel, a)
  {
    var col := Column(rel, a);
    FromValuesUnique(Single(a), col);
    assert col[i] == col[j];
  }

  /** The repeated values of the two attributes. */
  lemma CommaFields(rel: Relation)
    requires CommaRecords(rel)
    ensures Field(rel.records[0], 0) == Field(rel.records[2], 0)
    ensures Field(rel.records[1], 1) == Field(rel.records[2], 1)
  {
  }

  /** Neither attribute is unique on its own. */
  lemma CommaColumnsRepeat(rel: Relation)
    requires CommaRecords(rel)
    ensures !ColumnUnique(rel, 0) && !ColumnUnique(rel, 1)
  {
    CommaFields(rel);
    RepeatedColumn(rel, 0, 0, 2);
    RepeatedColumn(rel, 1, 1, 2);
  }

  /** The pair of attributes is unique. */
  lemma CommaPairUnique(rel: Relation)
    requires CommaRecords(rel)
    ensures IsUcc(rel, [0, 1])
  {
    var rs := rel.records;
    var t0, t1, t2 := Project(rs[0], [0, 1]), Project(rs[1], [0, 1]), Project(rs[2], [0, 1]);
    assert t0[1] != t2[1];
    assert t1[0] != t2[0];
    assert t0[0] != t1[0];
  }

  /** As written: the merged strings of the first two records are both
      "a,b,c", so the profiler misses the unique pair [0, 1]. */
  lemma MergedTestMissesUcc(rel: Relation)
    requires CommaRecords(rel)
    ensures IsUcc(rel, [0, 1])
    ensures Merge(rel.records, [0, 1])[0] == Merge(rel.records, [0, 1])[1] == "a,b,c"
    ensures !MergedUnique(rel, [0, 1])
    ensures [0, 1] !in Profile(rel)
  {
    CommaPairUnique(rel);
    var rs := rel.records;
    MergeTwo(rs[0]);
    MergeTwo(rs[1]);
    var merged := Merge(rs, [0, 1]);
    assert merged[0] == "a,b" + "," + "c" == "a,b,c";
    assert merged[1] == "a" + "," + "b,c" == "a,b,c";
    FromValuesUnique([0, 1], merged);
  }

  /** The corrected profile holds exactly the lists the search finds. */
  lemma CorrectedMembers(rel: Relation)
    ensures forall x :: x in CorrectedProfile(rel) <==> x in Search(UnaryTest(rel), TupleTest(rel), |rel.attributes|)
  {
    var found := Search(UnaryTest(rel), TupleTest(rel), |rel.attributes|);
    var uccs := CorrectedProfile(rel);
    assert multiset(uccs) == multiset(found);
    forall x
      ensures x in uccs <==> x in found
    {
      assert x in uccs <==> x in multiset(uccs);
      assert x in found <==> x in multiset(found);
    }
  }

  /** The tests handed to the search are the profiler's tests. */
  lemma TestsApply(rel: Relation, a: nat, c: AttrList)
    ensures UnaryTest(rel)(a) == ColumnUnique(rel, a)
    ensures MergedTest(rel)(c) == MergedUnique(rel, c)
    ensures TupleTest(rel)(c) == TupleUnique(rel, c)
  {
  }

  /** The unary test rejects an attribute that is not unique alone. */
  lemma UnaryRejects(rel: Relation, a: nat)
    requires !IsUcc(rel, Single(a))
    ensures !UnaryTest(rel)(a)
  {
    ColumnUniqueExact(rel, a);
    TestsApply(rel, a, []);
  }

  /** The tuple test accepts every unique column combination. */
  lemma TupleAccepts(rel: Relation, c: AttrList)
    requires IsUcc(rel, c)
    ensures TupleTest(rel)(c)
  {
    TupleUniqueExact(rel, c);
    TestsApply(rel, 0, c);
  }

  /** The corrected profile holds a pair both of whose attributes the unary
      test rejected and whose combination the tuple test accepts. */
  lemma PairProfiled(rel: Relation, a: nat, b: nat)
    requires a < b < |rel.attributes|
    requires !UnaryTest(rel)(a) && !UnaryTest(rel)(b) && TupleTest(rel)([a, b])
    ensures [a, b] in CorrectedProfile(rel)
  {
    PairRecorded(UnaryTest(rel), TupleTest(rel), |rel.attributes|, a, b);
    CorrectedMembers(rel);
  }

  /** With the tuple test, a unique pair of attributes that are not unique
      alone is always reported. */
  lemma PairFound(rel: Relation, a: nat, b: nat)
    requires a < b < |rel.attributes|
    requires !IsUcc(rel, Single(a)) && !IsUcc(rel, Single(b)) && IsUcc(rel, [a, b])
    ensures [a, b] in CorrectedProfile(rel)
  {
    TupleAccepts(rel, [a, b]);
    UnaryRejects(rel, a);
    UnaryRejects(rel, b);
    PairProfiled(rel, a, b);
  }

  /** Corrected: with the tuple test the profiler reports the pair [0, 1]. */
  lemma TupleTestFindsUcc(rel: Relation)
    requires CommaRecords(rel)
    ensures [0, 1] in CorrectedProfile(rel)
  {
    CommaColumnsRepeat(rel);
    ColumnUniqueExact(rel, 0);
    ColumnUniqueExact(rel, 1);
    CommaPairUnique(rel);
    PairFound(rel, 0, 1);
  }
}
