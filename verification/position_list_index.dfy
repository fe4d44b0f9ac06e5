/** The position list index of PositionListIndex.java: the stripped partition
    of a relation's rows by equal values on an attribute combination, with an
    inverse row-to-cluster index. */
module PositionListIndex {
  import opened Sequences
  import opened AttributeLists

  /** Row indices in the order they were appended to the cluster. */
  type Cluster = seq<nat>

  /** Every row of c is below n. */
  ghost predicate Within(c: Cluster, n: nat) {
    forall i :: 0 <= i < |c| ==> c[i] < n
  }

  /** Every row of every cluster is a row of a relation with n rows. */
  ghost predicate RowsBelow(cs: seq<Cluster>, n: nat) {
    forall k :: 0 <= k < |cs| ==> Within(cs[k], n)
  }

  /** Singleton groups are never materialised. */
  ghost predicate NonTrivial(cs: seq<Cluster>) {
    forall k :: 0 <= k < |cs| ==> |cs[k]| > 1
  }

  /** A row belongs to at most one cluster. */
  ghost predicate Disjoint(cs: seq<Cluster>) {
    forall k1, k2, r :: 0 <= k1 < |cs| && 0 <= k2 < |cs| && r in cs[k1] && r in cs[k2] ==> k1 == k2
  }

  /** Rows are appended in increasing order, so no row repeats within a cluster. */
  ghost predicate SortedClusters(cs: seq<Cluster>) {
    forall k :: 0 <= k < |cs| ==> Increasing(cs[k])
  }

  /** The shape every cluster list of this class has. */
  ghost predicate Stripped(cs: seq<Cluster>, n: nat) {
    RowsBelow(cs, n) && NonTrivial(cs) && Disjoint(cs) && SortedClusters(cs)
  }

  /** Rows r and s share a cluster. */
  ghost predicate Together(cs: seq<Cluster>, r: nat, s: nat) {
    exists k :: 0 <= k < |cs| && r in cs[k] && s in cs[k]
  }

  /** cs is the stripped partition of values: two different rows share a
      cluster exactly when they carry equal values. */
  ghost predicate PartitionOf<V>(cs: seq<Cluster>, values: seq<V>) {
    && Stripped(cs, |values|)
    && forall r: nat, s: nat :: r < |values| && s < |values| && r != s ==>
         (Together(cs, r, s) <==> values[r] == values[s])
  }

  /** inv maps each row to the cluster holding it, and every other row to -1. */
  ghost predicate InverseOf(inv: seq<int>, cs: seq<Cluster>) {
    && RowsBelow(cs, |inv|)
    && (forall r :: 0 <= r < |inv| ==> -1 <= inv[r] < |cs|)
    && (forall r, k :: 0 <= r < |inv| && 0 <= k < |cs| ==> (inv[r] == k <==> r in cs[k]))
  }

  /** The rows of c whose key is v, in the order of c. */
  function Select<V(==)>(c: Cluster, key: seq<V>, v: V): (s: Cluster)
    requires Within(c, |key|)
    ensures |s| <= |c|
  {
    if |c| == 0 then []
    else if key[c[0]] == v then [c[0]] + Select(c[1..], key, v)
    else Select(c[1..], key, v)
  }

  /** Select keeps exactly the rows of c with key v, in increasing order when
      c is increasing. */
  lemma {:induction false} SelectMeaning<V>(c: Cluster, key: seq<V>, v: V)
    requires Within(c, |key|)
    ensures Within(Select(c, key, v), |key|)
    ensures forall r :: r in Select(c, key, v) <==> r in c && r < |key| && key[r] == v
    ensures Increasing(c) ==> Increasing(Select(c, key, v))
  {
    if |c| > 0 {
      var rest := Select(c[1..], key, v);
      SelectMeaning(c[1..], key, v);
      assert forall r :: r in c <==> r == c[0] || r in c[1..];
      if key[c[0]] == v {
        assert Select(c, key, v) == [c[0]] + rest;
        assert Increasing(c) ==> forall j :: 0 <= j < |rest| ==> c[0] < rest[j] by {
          if Increasing(c) {
            forall j | 0 <= j < |rest|
              ensures c[0] < rest[j]
            {
              assert rest[j] in c[1..];
              var i :| 1 <= i < |c| && c[i] == rest[j];
            }
          }
        }
      }
    }
  }

  /** The distinct keys of the rows of c, in order of first occurrence. */
  function KeysOf<V(==,!new)>(c: Cluster, key: seq<V>): (ks: seq<V>)
    requires Within(c, |key|)
    ensures |ks| <= |c|
  {
    Distinct(seq(|c|, i requires 0 <= i < |c| => key[c[i]]))
  }

  /** KeysOf lists every key of a row of c once, and nothing else. */
  lemma KeysOfMeaning<V(!new)>(c: Cluster, key: seq<V>)
    requires Within(c, |key|)
    ensures NoDuplicates(KeysOf(c, key))
    ensures forall i :: 0 <= i < |c| ==> key[c[i]] in KeysOf(c, key)
    ensures forall v :: v in KeysOf(c, key) ==> exists i :: 0 <= i < |c| && key[c[i]] == v
  {
    var keys := seq(|c|, i requires 0 <= i < |c| => key[c[i]]);
    forall i | 0 <= i < |c|
      ensures key[c[i]] in KeysOf(c, key)
    {
      assert keys[i] in keys;
    }
  }

  /** One cluster per key in ids that more than one row of c carries; each
      cluster is identified by the key of its first row. */
  function Refine<V(==,!new)>(c: Cluster, key: seq<V>, ids: seq<V>): (cs: seq<Cluster>)
    requires Within(c, |key|)
    ensures |cs| <= |ids|
  {
    if |ids| == 0 then []
    else
      var s := Select(c, key, ids[0]);
      (if |s| > 1 then [s] else []) + Refine(c, key, ids[1..])
  }

  /** Cluster d has more than one row and is the selection from c of its first
      row's key, which is one of ids. */
  ghost predicate Keyed<V>(d: Cluster, c: Cluster, key: seq<V>, ids: seq<V>)
    requires Within(c, |key|)
  {
    |d| > 1 && d[0] < |key| && key[d[0]] in ids && d == Select(c, key, key[d[0]])
  }

  /** Every refined cluster is the selection of its first row's key, that key
      is one of ids, every key of ids selecting more than one row has its
      cluster, and distinct ids give distinct clusters. */
  lemma {:induction false} RefineMeaning<V(!new)>(c: Cluster, key: seq<V>, ids: seq<V>)
    requires Within(c, |key|)
    ensures forall k :: 0 <= k < |Refine(c, key, ids)| ==> Keyed(Refine(c, key, ids)[k], c, key, ids)
    ensures forall v {:trigger v in ids} :: v in ids && |Select(c, key, v)| > 1 ==> Select(c, key, v) in Refine(c, key, ids)
    ensures NoDuplicates(ids) ==> NoDuplicates(Refine(c, key, ids))
  {
    if |ids| > 0 {
      var s := Select(c, key, ids[0]);
      var rest := Refine(c, key, ids[1..]);
      var head := if |s| > 1 then [s] else [];
      var cs := Refine(c, key, ids);
      assert cs == head + rest;
      RefineMeaning(c, key, ids[1..]);
      SelectMeaning(c, key, ids[0]);
      assert forall v :: v in ids <==> v == ids[0] || v in ids[1..];
      assert NoDuplicates(ids) ==> ids[0] !in ids[1..] && NoDuplicates(ids[1..]);
      if |s| > 1 {
        assert s[0] in s;
        assert cs[0] == s;
        forall k | 1 <= k < |cs|
          ensures cs[k] == rest[k - 1]
        {
        }
      }
    }
  }

  /** Clusters refined from distinct keys do not overlap. */
  lemma RefineDisjoint<V(!new)>(c: Cluster, key: seq<V>, ids: seq<V>)
    requires Within(c, |key|)
    requires NoDuplicates(ids)
    ensures Disjoint(Refine(c, key, ids))
  {
    var cs := Refine(c, key, ids);
    RefineMeaning(c, key, ids);
    forall k1, k2, r | 0 <= k1 < |cs| && 0 <= k2 < |cs| && r in cs[k1] && r in cs[k2]
      ensures k1 == k2
    {
      SelectMeaning(c, key, key[cs[k1][0]]);
      SelectMeaning(c, key, key[cs[k2][0]]);
      assert key[r] == key[cs[k1][0]] && key[r] == key[cs[k2][0]];
    }
  }

  /** Refining an increasing cluster by distinct keys gives a stripped partition. */
  lemma RefineStripped<V(!new)>(c: Cluster, key: seq<V>, ids: seq<V>)
    requires Within(c, |key|) && Increasing(c) && NoDuplicates(ids)
    ensures Stripped(Refine(c, key, ids), |key|)
  {
    var cs := Refine(c, key, ids);
    RefineMeaning(c, key, ids);
    RefineDisjoint(c, key, ids);
    forall k | 0 <= k < |cs|
      ensures Within(cs[k], |key|) && Increasing(cs[k])
    {
      SelectMeaning(c, key, key[cs[k][0]]);
    }
  }

  /** Rows sharing a refined cluster carry the same key, one of ids. */
  lemma RefineTogetherSound<V(!new)>(c: Cluster, key: seq<V>, ids: seq<V>, r: nat, s: nat)
    requires Within(c, |key|)
    requires Together(Refine(c, key, ids), r, s)
    ensures r in c && s in c
    ensures r < |key| && s < |key| && key[r] == key[s] && key[r] in ids
  {
    var cs := Refine(c, key, ids);
    RefineMeaning(c, key, ids);
    var k :| 0 <= k < |cs| && r in cs[k] && s in cs[k];
    var v := key[cs[k][0]];
    SelectMeaning(c, key, v);
  }

  /** Two different rows of c with the same key from ids share a refined cluster. */
  lemma RefineTogetherComplete<V(!new)>(c: Cluster, key: seq<V>, ids: seq<V>, r: nat, s: nat)
    requires Within(c, |key|)
    requires r in c && s in c && r != s
    requires r < |key| && s < |key| && key[r] == key[s] && key[r] in ids
    ensures Together(Refine(c, key, ids), r, s)
  {
    var cs := Refine(c, key, ids);
    RefineMeaning(c, key, ids);
    var sel := Select(c, key, key[r]);
    SelectMeaning(c, key, key[r]);
    assert r in sel && s in sel;
    assert |sel| > 1 by {
      if |sel| <= 1 {
        var i :| 0 <= i < |sel| && sel[i] == r;
        var j :| 0 <= j < |sel| && sel[j] == s;
      }
    }
    assert sel in cs;
    var k :| 0 <= k < |cs| && cs[k] == sel;
    assert r in cs[k] && s in cs[k];
  }

  /** Two different rows of c share a refined cluster exactly when they carry
      the same key and that key is one of ids. */
  lemma RefineTogether<V(!new)>(c: Cluster, key: seq<V>, ids: seq<V>, r: nat, s: nat)
    requires Within(c, |key|)
    requires r in c && s in c && r != s
    ensures r < |key| && s < |key|
    ensures Together(Refine(c, key, ids), r, s) <==> key[r] == key[s] && key[r] in ids
  {
    if Together(Refine(c, key, ids), r, s) {
      RefineTogetherSound(c, key, ids, r, s);
    }
    if key[r] == key[s] && key[r] in ids {
      RefineTogetherComplete(c, key, ids, r, s);
    }
  }

  /** calculateClusters: group the rows by value and keep the groups with more
      than one row.  The groups come out in first-occurrence order of their value. */
  function CalculateClusters<V(==,!new)>(values: seq<V>): (cs: seq<Cluster>)
    ensures |cs| <= |values|
  {
    Refine(Range(|values|), values, Distinct(values))
  }

  /** calculateClusters yields the stripped partition of the values. */
  lemma ClustersPartition<V(!new)>(values: seq<V>)
    ensures PartitionOf(CalculateClusters(values), values)
  {
    var rows := Range(|values|);
    var ids := Distinct(values);
    var cs := CalculateClusters(values);
    RefineStripped(rows, values, ids);
    forall r: nat, s: nat | r < |values| && s < |values| && r != s
      ensures Together(cs, r, s) <==> values[r] == values[s]
    {
      assert values[r] in values;
      RefineTogether(rows, values, ids, r, s);
    }
  }

  /** calculateInverted: a row maps to the index of the last cluster that holds
      it, and to -1 when no cluster holds it. */
  function Inverted(cs: seq<Cluster>, n: nat): (inv: seq<int>)
    requires RowsBelow(cs, n)
    ensures |inv| == n
    ensures forall r :: 0 <= r < n ==> -1 <= inv[r] < |cs|
    ensures forall r :: 0 <= r < n ==> (inv[r] == -1 <==> forall k :: 0 <= k < |cs| ==> r !in cs[k])
    ensures forall r :: 0 <= r < n && inv[r] != -1 ==>
              r in cs[inv[r]] && forall k :: inv[r] < k < |cs| ==> r !in cs[k]
    decreases |cs|
  {
    if |cs| == 0 then seq(n, r => -1)
    else
      var m := |cs| - 1;
      var prev := Inverted(cs[..m], n);
      seq(n, r requires 0 <= r < n => if r in cs[m] then m else prev[r])
  }

  /** Over disjoint clusters the last cluster holding a row is the only one. */
  lemma InvertedIsInverse(cs: seq<Cluster>, n: nat)
    requires RowsBelow(cs, n) && Disjoint(cs)
    ensures InverseOf(Inverted(cs, n), cs)
  {
  }

  /** A position list index: the attribute combination, its clusters, and the
      inverse index whose length is the relation's row count. */
  datatype Pli = Pli(attributes: AttrList, clusters: seq<Cluster>, invertedClusters: seq<int>)
  {
    /** isUnique: no two rows agree, so no cluster was kept. */
    predicate IsUnique() {
      |clusters| == 0
    }

    /** relationLength: the number of rows the inverse index covers. */
    function RelationLength(): nat {
      |invertedClusters|
    }
  }

  /** What every index built by the two constructors satisfies. */
  ghost predicate Valid(p: Pli) {
    Stripped(p.clusters, p.RelationLength()) && InverseOf(p.invertedClusters, p.clusters)
  }

  /** The constructor from raw column values. */
  function FromValues<V(==,!new)>(attributes: AttrList, values: seq<V>): (p: Pli)
    ensures p.attributes == attributes && p.RelationLength() == |values|
  {
    var cs := CalculateClusters(values);
    ClustersPartition(values);
    Pli(attributes, cs, Inverted(cs, |values|))
  }

  /** The index built from values is valid and partitions the rows by value. */
  lemma FromValuesPartition<V(!new)>(attributes: AttrList, values: seq<V>)
    ensures PartitionOf(FromValues(attributes, values).clusters, values)
    ensures Valid(FromValues(attributes, values))
  {
    ClustersPartition(values);
    InvertedIsInverse(CalculateClusters(values), |values|);
  }

  /** The constructor from ready clusters and a row count. */
  function FromClusters(attributes: AttrList, cs: seq<Cluster>, relationLength: nat): (p: Pli)
    requires RowsBelow(cs, relationLength)
    ensures p.attributes == attributes && p.clusters == cs && p.RelationLength() == relationLength
    ensures Stripped(cs, relationLength) ==> Valid(p)
  {
    var p := Pli(attributes, cs, Inverted(cs, relationLength));
    assert Stripped(cs, relationLength) ==> Valid(p) by {
      if Stripped(cs, relationLength) {
        InvertedIsInverse(cs, relationLength);
      }
    }
    p
  }

  /** isUnique holds exactly when the values are pairwise distinct. */
  lemma UniqueIffDistinct<V>(p: Pli, values: seq<V>)
    requires PartitionOf(p.clusters, values)
    ensures p.IsUnique() <==> forall r, s :: 0 <= r < s < |values| ==> values[r] != values[s]
  {
    if |p.clusters| > 0 {
      var c := p.clusters[0];
      assert c[0] < c[1] && c[0] in c && c[1] in c;
      assert Together(p.clusters, c[0], c[1]);
    }
    forall r, s | 0 <= r < s < |values| && values[r] == values[s]
      ensures !p.IsUnique()
    {
      assert Together(p.clusters, r, s);
    }
  }

  /** The index of a column is unique exactly when no value repeats. */
  lemma FromValuesUnique<V(!new)>(attributes: AttrList, values: seq<V>)
    ensures FromValues(attributes, values).IsUnique() <==>
              forall r, s :: 0 <= r < s < |values| ==> values[r] != values[s]
  {
    FromValuesPartition(attributes, values);
    UniqueIffDistinct(FromValues(attributes, values), values);
  }

  /** Every row of a occurs in b. */
  ghost predicate Contained(a: Cluster, b: Cluster) {
    forall i :: 0 <= i < |a| ==> a[i] in b
  }

  /** Rows r and s carry the same cluster id, other than -1, in the inverse index inv. */
  ghost predicate SameId(inv: seq<int>, r: nat, s: nat) {
    r < |inv| && s < |inv| && inv[r] != -1 && inv[r] == inv[s]
  }

  /** The part of intersect that handles one cluster c of this index: its rows
      grouped by their cluster id in the other index, rows with id -1 dropped,
      groups of one row dropped. */
  function SplitCluster(c: Cluster, inv: seq<int>): (parts: seq<Cluster>)
    requires Within(c, |inv|)
  {
    Refine(c, inv, Without(KeysOf(c, inv), -1))
  }

  /** The parts of a cluster are disjoint groups of more than one of its rows,
      increasing when the cluster is. */
  lemma SplitClusterShape(c: Cluster, inv: seq<int>)
    requires Within(c, |inv|)
    ensures NonTrivial(SplitCluster(c, inv)) && Disjoint(SplitCluster(c, inv))
    ensures forall j :: 0 <= j < |SplitCluster(c, inv)| ==> Contained(SplitCluster(c, inv)[j], c)
    ensures Increasing(c) ==> SortedClusters(SplitCluster(c, inv))
  {
    var ids := Without(KeysOf(c, inv), -1);
    var parts := SplitCluster(c, inv);
    KeysOfMeaning(c, inv);
    RefineMeaning(c, inv, ids);
    RefineDisjoint(c, inv, ids);
    forall j | 0 <= j < |parts|
      ensures Contained(parts[j], c) && (Increasing(c) ==> Increasing(parts[j]))
    {
      SelectMeaning(c, inv, inv[parts[j][0]]);
      forall i | 0 <= i < |parts[j]|
        ensures parts[j][i] in c
      {
        assert parts[j][i] in parts[j];
      }
    }
  }

  /** intersect(clusters, invertedClusters): the clusters of this index split by
      the other index's inverse. */
  function IntersectClusters(cs: seq<Cluster>, inv: seq<int>): (out: seq<Cluster>)
    requires RowsBelow(cs, |inv|)
  {
    if |cs| == 0 then []
    else SplitCluster(cs[0], inv) + IntersectClusters(cs[1..], inv)
  }

  /** The clusters after the first keep their rows below n. */
  lemma RowsBelowTail(cs: seq<Cluster>, n: nat)
    requires RowsBelow(cs, n) && |cs| > 0
    ensures RowsBelow(cs[1..], n)
  {
    assert forall k :: 0 <= k < |cs| - 1 ==> cs[1..][k] == cs[k + 1];
  }

  /** Every result cluster has more than one row. */
  lemma {:induction false} IntersectNonTrivial(cs: seq<Cluster>, inv: seq<int>)
    requires RowsBelow(cs, |inv|)
    ensures NonTrivial(IntersectClusters(cs, inv))
  {
    if |cs| > 0 {
      var head := SplitCluster(cs[0], inv);
      var rest := IntersectClusters(cs[1..], inv);
      SplitClusterShape(cs[0], inv);
      RowsBelowTail(cs, |inv|);
      IntersectNonTrivial(cs[1..], inv);
      assert IntersectClusters(cs, inv) == head + rest;
      assert forall j :: |head| <= j < |head + rest| ==> (head + rest)[j] == rest[j - |head|];
    }
  }

  /** The result clusters refined from the first cluster lie within it. */
  lemma OriginHead(cs: seq<Cluster>, inv: seq<int>, j: nat)
    requires RowsBelow(cs, |inv|) && |cs| > 0 && j < |SplitCluster(cs[0], inv)|
    ensures j < |IntersectClusters(cs, inv)| && Contained(IntersectClusters(cs, inv)[j], cs[0])
  {
    var head := SplitCluster(cs[0], inv);
    SplitClusterShape(cs[0], inv);
    assert IntersectClusters(cs, inv) == head + IntersectClusters(cs[1..], inv);
    assert IntersectClusters(cs, inv)[j] == head[j];
  }

  /** The later result clusters lie where the ones refined from cs[1..] lie;
      m is the number of result clusters refined from the first cluster. */
  lemma OriginTail(cs: seq<Cluster>, inv: seq<int>, m: nat, j: nat, k: nat)
    requires RowsBelow(cs, |inv|) && |cs| > 0 && m == |SplitCluster(cs[0], inv)|
    requires m <= j < |IntersectClusters(cs, inv)|
    requires k < |cs| - 1 && j - m < |IntersectClusters(cs[1..], inv)|
    requires Contained(IntersectClusters(cs[1..], inv)[j - m], cs[1..][k])
    ensures Contained(IntersectClusters(cs, inv)[j], cs[k + 1])
  {
    var head := SplitCluster(cs[0], inv);
    var rest := IntersectClusters(cs[1..], inv);
    assert IntersectClusters(cs, inv) == head + rest;
    assert IntersectClusters(cs, inv)[j] == rest[j - m];
    assert cs[1..][k] == cs[k + 1];
  }

  /** The cluster of this index that result cluster j lies within. */
  ghost function Origin(cs: seq<Cluster>, inv: seq<int>, j: nat): (k: nat)
    requires RowsBelow(cs, |inv|) && j < |IntersectClusters(cs, inv)|
    ensures k < |cs| && Contained(IntersectClusters(cs, inv)[j], cs[k])
    decreases |cs|
  {
    var n := |SplitCluster(cs[0], inv)|;
    assert |IntersectClusters(cs, inv)| == n + |IntersectClusters(cs[1..], inv)|;
    if j < n then
      OriginHead(cs, inv, j);
      0
    else
      RowsBelowTail(cs, |inv|);
      var k := Origin(cs[1..], inv, j - n);
      OriginTail(cs, inv, n, j, k);
      k + 1
  }

  /** Together over a concatenation. */
  lemma TogetherConcat(a: seq<Cluster>, b: seq<Cluster>, r: nat, s: nat)
    ensures Together(a + b, r, s) <==> Together(a, r, s) || Together(b, r, s)
  {
    if Together(a + b, r, s) {
      var k :| 0 <= k < |a + b| && r in (a + b)[k] && s in (a + b)[k];
      if k >= |a| {
        assert (a + b)[k] == b[k - |a|];
      }
    }
    if Together(a, r, s) {
      var k :| 0 <= k < |a| && r in a[k] && s in a[k];
      assert (a + b)[k] == a[k];
      assert r in (a + b)[k] && s in (a + b)[k];
    }
    if Together(b, r, s) {
      var k :| 0 <= k < |b| && r in b[k] && s in b[k];
      assert (a + b)[k + |a|] == b[k];
      assert r in (a + b)[k + |a|] && s in (a + b)[k + |a|];
    }
  }

  /** Two different rows share a part of c exactly when both lie in c and the
      other index puts them in the same cluster. */
  lemma SplitTogether(c: Cluster, inv: seq<int>, r: nat, s: nat)
    requires Within(c, |inv|) && r != s
    ensures Together(SplitCluster(c, inv), r, s) <==> r in c && s in c && SameId(inv, r, s)
  {
    var ids := Without(KeysOf(c, inv), -1);
    KeysOfMeaning(c, inv);
    if Together(SplitCluster(c, inv), r, s) {
      RefineTogetherSound(c, inv, ids, r, s);
    }
    if r in c && s in c && SameId(inv, r, s) {
      var i :| 0 <= i < |c| && c[i] == r;
      assert inv[c[i]] in KeysOf(c, inv);
      RefineTogetherComplete(c, inv, ids, r, s);
    }
  }

  /** Exactness of intersect: two different rows share a result cluster exactly
      when they share a cluster of this index and a cluster of the other one. */
  lemma {:induction false} IntersectExact(cs: seq<Cluster>, inv: seq<int>, r: nat, s: nat)
    requires RowsBelow(cs, |inv|) && r != s
    ensures Together(IntersectClusters(cs, inv), r, s) <==> Together(cs, r, s) && SameId(inv, r, s)
  {
    if |cs| > 0 {
      var head := SplitCluster(cs[0], inv);
      var rest := IntersectClusters(cs[1..], inv);
      assert IntersectClusters(cs, inv) == head + rest;
      TogetherConcat(head, rest, r, s);
      SplitTogether(cs[0], inv, r, s);
      RowsBelowTail(cs, |inv|);
      IntersectExact(cs[1..], inv, r, s);
      TogetherConcat([cs[0]], cs[1..], r, s);
      assert cs == [cs[0]] + cs[1..];
    }
  }

  /** Rows of the result are rows of this index. */
  lemma IntersectRowsBelow(cs: seq<Cluster>, inv: seq<int>, n: nat)
    requires RowsBelow(cs, n) && RowsBelow(cs, |inv|)
    ensures RowsBelow(IntersectClusters(cs, inv), n)
  {
    var out := IntersectClusters(cs, inv);
    forall j, i | 0 <= j < |out| && 0 <= i < |out[j]|
      ensures out[j][i] < n
    {
      var k := Origin(cs, inv, j);
      assert out[j][i] in cs[k];
    }
  }

  /** The result clusters keep the row order of this index's clusters. */
  lemma {:induction false} IntersectSorted(cs: seq<Cluster>, inv: seq<int>)
    requires SortedClusters(cs) && RowsBelow(cs, |inv|)
    ensures SortedClusters(IntersectClusters(cs, inv))
  {
    if |cs| > 0 {
      var head := SplitCluster(cs[0], inv);
      var rest := IntersectClusters(cs[1..], inv);
      assert IntersectClusters(cs, inv) == head + rest;
      SplitClusterShape(cs[0], inv);
      RowsBelowTail(cs, |inv|);
      assert SortedClusters(cs[1..]) by {
        assert forall k :: 0 <= k < |cs| - 1 ==> cs[1..][k] == cs[k + 1];
      }
      IntersectSorted(cs[1..], inv);
      assert forall j :: |head| <= j < |head + rest| ==> (head + rest)[j] == rest[j - |head|];
    }
  }

  /** Two disjoint lists of clusters that share no row concatenate to a
      disjoint list. */
  lemma DisjointConcat(a: seq<Cluster>, b: seq<Cluster>)
    requires Disjoint(a) && Disjoint(b)
    requires forall j1, j2, x :: 0 <= j1 < |a| && 0 <= j2 < |b| && x in a[j1] ==> x !in b[j2]
    ensures Disjoint(a + b)
  {
    var out := a + b;
    forall j1, j2, x | 0 <= j1 < |a| <= j2 < |out| && x in out[j1]
      ensures x !in out[j2]
    {
      assert out[j1] == a[j1] && out[j2] == b[j2 - |a|];
    }
    forall j1, j2, x | 0 <= j1 < |a| && 0 <= j2 < |a| && x in out[j1] && x in out[j2]
      ensures j1 == j2
    {
      assert out[j1] == a[j1] && out[j2] == a[j2];
    }
    forall j1, j2, x | |a| <= j1 < |out| && |a| <= j2 < |out| && x in out[j1] && x in out[j2]
      ensures j1 == j2
    {
      assert out[j1] == b[j1 - |a|] && out[j2] == b[j2 - |a|];
    }
  }

  /** Rows in the clusters refined from later clusters are not rows of the
      first cluster. */
  lemma RestAvoidsHead(cs: seq<Cluster>, inv: seq<int>)
    requires |cs| > 0 && Disjoint(cs) && RowsBelow(cs, |inv|)
    ensures forall j1, j2, x ::
      (0 <= j1 < |SplitCluster(cs[0], inv)| && 0 <= j2 < |IntersectClusters(cs[1..], inv)| &&
       x in SplitCluster(cs[0], inv)[j1]) ==> x !in IntersectClusters(cs[1..], inv)[j2]
  {
    var head := SplitCluster(cs[0], inv);
    var rest := IntersectClusters(cs[1..], inv);
    SplitClusterShape(cs[0], inv);
    RowsBelowTail(cs, |inv|);
    forall j1, j2, x | 0 <= j1 < |head| && 0 <= j2 < |rest| && x in head[j1]
      ensures x !in rest[j2]
    {
      var i :| 0 <= i < |head[j1]| && head[j1][i] == x;
      assert x in cs[0];
      var k := Origin(cs[1..], inv, j2);
      assert cs[1..][k] == cs[k + 1];
      assert x !in cs[k + 1];
    }
  }

  /** Refining disjoint clusters yields disjoint clusters. */
  lemma {:induction false} IntersectDisjoint(cs: seq<Cluster>, inv: seq<int>)
    requires Disjoint(cs) && RowsBelow(cs, |inv|)
    ensures Disjoint(IntersectClusters(cs, inv))
  {
    if |cs| > 0 {
      assert Disjoint(cs[1..]) by {
        forall k1, k2, x | 0 <= k1 < |cs[1..]| && 0 <= k2 < |cs[1..]| && x in cs[1..][k1] && x in cs[1..][k2]
          ensures k1 == k2
        {
          assert cs[1..][k1] == cs[k1 + 1] && cs[1..][k2] == cs[k2 + 1];
        }
      }
      RowsBelowTail(cs, |inv|);
      IntersectDisjoint(cs[1..], inv);
      SplitClusterShape(cs[0], inv);
      RestAvoidsHead(cs, inv);
      DisjointConcat(SplitCluster(cs[0], inv), IntersectClusters(cs[1..], inv));
    }
  }

  /** Refining a stripped partition yields a stripped partition. */
  lemma IntersectStripped(cs: seq<Cluster>, inv: seq<int>, n: nat)
    requires Stripped(cs, n) && RowsBelow(cs, |inv|)
    ensures Stripped(IntersectClusters(cs, inv), n)
  {
    IntersectNonTrivial(cs, inv);
    IntersectRowsBelow(cs, inv, n);
    IntersectSorted(cs, inv);
    IntersectDisjoint(cs, inv);
  }

  /** intersect(other): refine this index by the other's inverse index.  The
      result keeps this index's row count and covers both attribute lists. */
  function Intersect(p: Pli, q: Pli): (r: Pli)
    requires RowsBelow(p.clusters, q.RelationLength()) && RowsBelow(p.clusters, p.RelationLength())
    ensures r.attributes == Union(p.attributes, q.attributes)
    ensures r.RelationLength() == p.RelationLength()
    ensures NonTrivial(r.clusters)
    ensures forall j :: 0 <= j < |r.clusters| ==> exists k :: 0 <= k < |p.clusters| && Contained(r.clusters[j], p.clusters[k])
    ensures p.IsUnique() ==> r.IsUnique()
    ensures Valid(p) ==> Valid(r)
  {
    var cs := IntersectClusters(p.clusters, q.invertedClusters);
    IntersectNonTrivial(p.clusters, q.invertedClusters);
    IntersectRowsBelow(p.clusters, q.invertedClusters, p.RelationLength());
    assert forall j :: 0 <= j < |cs| ==> exists k :: 0 <= k < |p.clusters| && Contained(cs[j], p.clusters[k]) by {
      forall j | 0 <= j < |cs|
        ensures exists k :: 0 <= k < |p.clusters| && Contained(cs[j], p.clusters[k])
      {
        var k := Origin(p.clusters, q.invertedClusters, j);
      }
    }
    assert Valid(p) ==> Stripped(cs, p.RelationLength()) by {
      if Valid(p) {
        IntersectStripped(p.clusters, q.invertedClusters, p.RelationLength());
      }
    }
    FromClusters(Union(p.attributes, q.attributes), cs, p.RelationLength())
  }

  /** The pairwise combination of two value columns. */
  function Zip<V, W>(a: seq<V>, b: seq<W>): (z: seq<(V, W)>)
    requires |a| == |b|
    ensures |z| == |a|
    ensures forall i :: 0 <= i < |z| ==> z[i] == (a[i], b[i])
  {
    seq(|a|, i requires 0 <= i < |a| => (a[i], b[i]))
  }

  /** Intersecting the index of column a with the index of column b gives the
      index of the combined column: the result is exactly the stripped
      partition of the value pairs. */
  lemma IntersectMatchesCombinedValues<V, W>(p: Pli, q: Pli, a: seq<V>, b: seq<W>)
    requires |a| == |b| == p.RelationLength() == q.RelationLength()
    requires PartitionOf(p.clusters, a) && PartitionOf(q.clusters, b)
    requires InverseOf(q.invertedClusters, q.clusters)
    ensures PartitionOf(Intersect(p, q).clusters, Zip(a, b))
  {
    var n := |a|;
    var out := IntersectClusters(p.clusters, q.invertedClusters);
    IntersectStripped(p.clusters, q.invertedClusters, n);
    forall r: nat, s: nat | r < n && s < n && r != s
      ensures Together(out, r, s) <==> Zip(a, b)[r] == Zip(a, b)[s]
    {
      IntersectExact(p.clusters, q.invertedClusters, r, s);
      var inv := q.invertedClusters;
      if Together(q.clusters, r, s) {
        var k :| 0 <= k < |q.clusters| && r in q.clusters[k] && s in q.clusters[k];
        assert inv[r] == k && inv[s] == k;
      }
      if SameId(inv, r, s) {
        var k := inv[r];
        assert r in q.clusters[k] && s in q.clusters[k];
      }
    }
  }
}
