/** The transitive closure of a set of duplicate pairs over the records of one
    relation: the pairs become the edges of an undirected graph, Warshall's
    algorithm closes the adjacency matrix, and every connected pair of
    different records is reported in both orientations. */
module TransitiveClosure {

  /** A duplicate, reduced to the record indices it relates. */
  type Pair = (nat, nat)

  /** An adjacency matrix, row by row. */
  type Matrix = seq<seq<bool>>

  /** Every index of every pair is a record index of a relation with n records. */
  predicate InRange(dups: set<Pair>, n: nat) {
    forall p :: p in dups ==> p.0 < n && p.1 < n
  }

  /** An n by n matrix. */
  ghost predicate Square(m: Matrix, n: nat) {
    |m| == n && forall i :: 0 <= i < n ==> |m[i]| == n
  }

  // ----- the graph of the duplicates -------------------------------------

  /** Records a and b are related by a duplicate, in either orientation. */
  ghost predicate Edge(dups: set<Pair>, a: nat, b: nat) {
    (a, b) in dups || (b, a) in dups
  }

  /** A walk of at least one step along duplicate edges. */
  ghost predicate Walk(dups: set<Pair>, p: seq<nat>) {
    |p| >= 2 && forall t :: 0 <= t < |p| - 1 ==> Edge(dups, p[t], p[t + 1])
  }

  /** Every node strictly inside the walk is below k. */
  ghost predicate Inner(p: seq<nat>, k: nat) {
    forall t :: 0 < t < |p| - 1 ==> p[t] < k
  }

  /** Some walk leads from a to b through nodes below k only. */
  ghost predicate Via(dups: set<Pair>, a: nat, b: nat, k: nat) {
    exists p :: Walk(dups, p) && p[0] == a && p[|p| - 1] == b && Inner(p, k)
  }

  /** Some walk leads from a to b. */
  ghost predicate Connected(dups: set<Pair>, a: nat, b: nat) {
    exists p :: Walk(dups, p) && p[0] == a && p[|p| - 1] == b
  }

  /** The pairs the closure reports: different records of the relation that
      are connected. */
  ghost predicate InClosure(dups: set<Pair>, n: nat, a: nat, b: nat) {
    a != b && a < n && b < n && Connected(dups, a, b)
  }

  /** Joining two walks at a shared node gives a walk. */
  lemma WalkConcat(dups: set<Pair>, p: seq<nat>, q: seq<nat>)
    requires Walk(dups, p) && Walk(dups, q) && p[|p| - 1] == q[0]
    ensures Walk(dups, p + q[1..])
    ensures (p + q[1..])[0] == p[0] && (p + q[1..])[|p| + |q| - 2] == q[|q| - 1]
    ensures forall t :: 0 <= t < |p| ==> (p + q[1..])[t] == p[t]
    ensures forall t :: |p| <= t < |p| + |q| - 1 ==> (p + q[1..])[t] == q[t - |p| + 1]
  {
    var w := p + q[1..];
    forall t | 0 <= t < |w| - 1
      ensures Edge(dups, w[t], w[t + 1])
    {
      if t < |p| - 1 {
        assert w[t] == p[t] && w[t + 1] == p[t + 1];
      } else if t == |p| - 1 {
        assert w[t] == q[0] && w[t + 1] == q[1];
      } else {
        assert w[t] == q[t - |p| + 1] && w[t + 1] == q[t - |p| + 2];
      }
    }
  }

  /** A walk read backwards is a walk. */
  lemma WalkReverse(dups: set<Pair>, p: seq<nat>) returns (r: seq<nat>)
    requires Walk(dups, p)
    ensures Walk(dups, r) && r[0] == p[|p| - 1] && r[|r| - 1] == p[0]
  {
    r := seq(|p|, t requires 0 <= t < |p| => p[|p| - 1 - t]);
    forall t | 0 <= t < |r| - 1
      ensures Edge(dups, r[t], r[t + 1])
    {
      assert Edge(dups, p[|p| - 2 - t], p[|p| - 1 - t]);
    }
  }

  /** One inner node of a walk through nodes below k. */
  lemma InnerAt(p: seq<nat>, k: nat, t: nat)
    requires Inner(p, k) && 0 < t < |p| - 1
    ensures p[t] < k
  {
  }

  /** Walks through nodes below 0 are single edges. */
  lemma ViaEdge(dups: set<Pair>, a: nat, b: nat)
    ensures Via(dups, a, b, 0) <==> Edge(dups, a, b)
  {
    if Edge(dups, a, b) {
      var p := [a, b];
      assert Walk(dups, p) && Inner(p, 0);
    }
    if Via(dups, a, b, 0) {
      var p :| Walk(dups, p) && p[0] == a && p[|p| - 1] == b && Inner(p, 0);
      if |p| > 2 {
        InnerAt(p, 0, 1);
        assert false;
      }
      assert Edge(dups, p[0], p[1]);
    }
  }

  /** The first position at or after t strictly inside p that holds k, or
      |p| - 1 when there is none. */
  ghost function FirstAt(p: seq<nat>, k: nat, t: nat): (s: nat)
    requires 1 <= t <= |p| - 1
    ensures t <= s <= |p| - 1
    ensures s < |p| - 1 ==> p[s] == k
    ensures forall r :: t <= r < s ==> p[r] != k
    decreases |p| - 1 - t
  {
    if t == |p| - 1 || p[t] == k then t else FirstAt(p, k, t + 1)
  }

  /** The last position at or before t that holds k and is not the first
      position of p, or 0 when there is none. */
  ghost function LastAt(p: seq<nat>, k: nat, t: nat): (s: nat)
    requires t < |p|
    ensures s <= t
    ensures s > 0 ==> p[s] == k
    ensures forall r :: s < r <= t ==> p[r] != k
    decreases t
  {
    if t == 0 || p[t] == k then t else LastAt(p, k, t - 1)
  }

  /** Cuts a walk through nodes below k + 1 that passes k into a walk to k and
      a walk from k, both through nodes below k. */
  lemma ViaSplit(dups: set<Pair>, p: seq<nat>, k: nat)
    requires Walk(dups, p) && Inner(p, k + 1)
    ensures Inner(p, k) || (Via(dups, p[0], k, k) && Via(dups, k, p[|p| - 1], k))
  {
    var first := FirstAt(p, k, 1);
    if first < |p| - 1 {
      var last := LastAt(p, k, |p| - 2);
      assert last >= first;
      var head, tail := p[..first + 1], p[last..];
      assert Walk(dups, head) by {
        forall t | 0 <= t < |head| - 1
          ensures Edge(dups, head[t], head[t + 1])
        {
          assert head[t] == p[t] && head[t + 1] == p[t + 1];
        }
      }
      assert Inner(head, k) by {
        forall t | 0 < t < |head| - 1
          ensures head[t] < k
        {
          assert head[t] == p[t] && p[t] != k;
        }
      }
      assert Walk(dups, tail) by {
        forall t | 0 <= t < |tail| - 1
          ensures Edge(dups, tail[t], tail[t + 1])
        {
          assert tail[t] == p[last + t] && tail[t + 1] == p[last + t + 1];
        }
      }
      assert Inner(tail, k) by {
        forall t | 0 < t < |tail| - 1
          ensures tail[t] < k
        {
          assert tail[t] == p[last + t] && p[last + t] != k;
        }
      }
      assert head[0] == p[0] && head[|head| - 1] == k;
      assert tail[0] == k && tail[|tail| - 1] == p[|p| - 1];
    } else {
      assert forall t :: 0 < t < |p| - 1 ==> p[t] != k;
    }
  }

  /** One round of Warshall's algorithm: a walk through nodes below k + 1
      either avoids k or passes it. */
  lemma ViaStep(dups: set<Pair>, a: nat, b: nat, k: nat)
    ensures Via(dups, a, b, k + 1) <==> Via(dups, a, b, k) || (Via(dups, a, k, k) && Via(dups, k, b, k))
  {
    if Via(dups, a, b, k) {
      var p :| Walk(dups, p) && p[0] == a && p[|p| - 1] == b && Inner(p, k);
      assert Inner(p, k + 1);
    }
    if Via(dups, a, k, k) && Via(dups, k, b, k) {
      var p :| Walk(dups, p) && p[0] == a && p[|p| - 1] == k && Inner(p, k);
      var q :| Walk(dups, q) && q[0] == k && q[|q| - 1] == b && Inner(q, k);
      WalkConcat(dups, p, q);
      var w := p + q[1..];
      assert Inner(w, k + 1) by {
        forall t | 0 < t < |w| - 1
          ensures w[t] < k + 1
        {
          if t < |p| - 1 {
            assert w[t] == p[t];
          } else if t >= |p| {
            assert w[t] == q[t - |p| + 1];
          }
        }
      }
      assert w[|w| - 1] == b;
    }
    if Via(dups, a, b, k + 1) {
      var p :| Walk(dups, p) && p[0] == a && p[|p| - 1] == b && Inner(p, k + 1);
      ViaSplit(dups, p, k);
    }
  }

  /** Every node of a walk over in-range duplicates is a record index. */
  lemma WalkInRange(dups: set<Pair>, n: nat, p: seq<nat>)
    requires InRange(dups, n) && Walk(dups, p)
    ensures forall t :: 0 <= t < |p| ==> p[t] < n
  {
    forall t | 0 <= t < |p|
      ensures p[t] < n
    {
      if t < |p| - 1 {
        assert Edge(dups, p[t], p[t + 1]);
      } else {
        assert Edge(dups, p[t - 1], p[t]);
      }
    }
  }

  /** Over in-range duplicates, walks through nodes below n are all walks. */
  lemma ViaAll(dups: set<Pair>, n: nat, a: nat, b: nat)
    requires InRange(dups, n)
    ensures Via(dups, a, b, n) <==> Connected(dups, a, b)
  {
    if Connected(dups, a, b) {
      var p :| Walk(dups, p) && p[0] == a && p[|p| - 1] == b;
      WalkInRange(dups, n, p);
      assert Inner(p, n);
    }
  }

  /** Connection is symmetric. */
  lemma ConnectedSymmetric(dups: set<Pair>, a: nat, b: nat)
    ensures Connected(dups, a, b) <==> Connected(dups, b, a)
  {
    if Connected(dups, a, b) {
      var p :| Walk(dups, p) && p[0] == a && p[|p| - 1] == b;
      var r := WalkReverse(dups, p);
    }
    if Connected(dups, b, a) {
      var p :| Walk(dups, p) && p[0] == b && p[|p| - 1] == a;
      var r := WalkReverse(dups, p);
    }
  }

  // ----- properties of the closure ---------------------------------------

  /** The closure holds (a, b) exactly when it holds (b, a). */
  lemma ClosureSymmetric(dups: set<Pair>, n: nat, a: nat, b: nat)
    ensures InClosure(dups, n, a, b) <==> InClosure(dups, n, b, a)
  {
    ConnectedSymmetric(dups, a, b);
  }

  /** The closure is transitive wherever the ends differ. */
  lemma ClosureTransitive(dups: set<Pair>, n: nat, a: nat, b: nat, c: nat)
    requires InClosure(dups, n, a, b) && InClosure(dups, n, b, c) && a != c
    ensures InClosure(dups, n, a, c)
  {
    var p :| Walk(dups, p) && p[0] == a && p[|p| - 1] == b;
    var q :| Walk(dups, q) && q[0] == b && q[|q| - 1] == c;
    WalkConcat(dups, p, q);
  }

  /** Every input pair of different records is in the closure, in both
      orientations. */
  lemma ClosureContainsInput(dups: set<Pair>, n: nat, a: nat, b: nat)
    requires InRange(dups, n) && (a, b) in dups && a != b
    ensures InClosure(dups, n, a, b) && InClosure(dups, n, b, a)
  {
    assert Walk(dups, [a, b]);
    assert Walk(dups, [b, a]);
  }

  /** A relation that contains every duplicate edge and is transitive holds
      the ends of every walk. */
  lemma {:induction false} WalkInRelation(dups: set<Pair>, rel: set<Pair>, p: seq<nat>)
    requires forall x: nat, y: nat :: Edge(dups, x, y) ==> (x, y) in rel
    requires forall x: nat, y: nat, z: nat :: (x, y) in rel && (y, z) in rel ==> (x, z) in rel
    requires Walk(dups, p)
    ensures (p[0], p[|p| - 1]) in rel
    decreases |p|
  {
    assert Edge(dups, p[0], p[1]);
    if |p| > 2 {
      var rest := p[1..];
      assert Walk(dups, rest) by {
        forall t | 0 <= t < |rest| - 1
          ensures Edge(dups, rest[t], rest[t + 1])
        {
          assert rest[t] == p[t + 1] && rest[t + 1] == p[t + 2];
        }
      }
      WalkInRelation(dups, rel, rest);
      assert (p[0], p[1]) in rel && (p[1], p[|p| - 1]) in rel;
    }
  }

  /** The closure is the least transitive relation containing the duplicate
      edges, apart from identity pairs. */
  lemma ClosureLeast(dups: set<Pair>, rel: set<Pair>, n: nat, a: nat, b: nat)
    requires forall x: nat, y: nat :: Edge(dups, x, y) ==> (x, y) in rel
    requires forall x: nat, y: nat, z: nat :: (x, y) in rel && (y, z) in rel ==> (x, z) in rel
    requires InClosure(dups, n, a, b)
    ensures (a, b) in rel
  {
    var p :| Walk(dups, p) && p[0] == a && p[|p| - 1] == b;
    WalkInRelation(dups, rel, p);
  }

  // ----- the algorithm ---------------------------------------------------

  /** Fills the adjacency matrix: both orientations of every duplicate. */
  method Fill(dups: set<Pair>, n: nat) returns (m: Matrix)
    requires InRange(dups, n)
    ensures Square(m, n)
    ensures forall a, b :: 0 <= a < n && 0 <= b < n ==> (m[a][b] <==> Edge(dups, a, b))
  {
    m := seq(n, i => seq(n, j => false));
    var rest := dups;
    while rest != {}
      invariant rest <= dups && Square(m, n)
      invariant forall a, b :: 0 <= a < n && 0 <= b < n ==> (m[a][b] <==> Edge(dups - rest, a, b))
      decreases |rest|
    {
      var d :| d in rest;
      m := m[d.0 := m[d.0][d.1 := true]];
      m := m[d.1 := m[d.1][d.0 := true]];
      rest := rest - {d};
    }
  }

  /** The inner loop of round k for one row, updating the row in place:
      entry j becomes true when the row's entry k and entry j of row k are.
      The row's entry k keeps its value, so every read sees the value from
      before the loop. */
  method RoundRow(row0: seq<bool>, rowK: seq<bool>, k: nat) returns (row: seq<bool>)
    requires |row0| == |rowK| && k < |row0|
    ensures |row| == |row0|
    ensures forall b :: 0 <= b < |row| ==> row[b] == (row0[b] || (row0[k] && rowK[b]))
  {
    row := row0;
    var j := 0;
    while j < |row0|
      invariant 0 <= j <= |row0| && |row| == |row0|
      invariant forall b :: 0 <= b < j ==> row[b] == (row0[b] || (row0[k] && rowK[b]))
      invariant forall b :: j <= b < |row0| ==> row[b] == row0[b]
    {
      if row[k] && rowK[j] {
        row := row[j := true];
      }
      j := j + 1;
    }
  }

  /** Round k of Warshall's algorithm, updating the matrix in place: m[i][j]
      becomes true when m[i][k] and m[k][j] are.  Row k does not change during
      the round, so every read sees the value from before it. */
  method Round(m0: Matrix, n: nat, k: nat) returns (m: Matrix)
    requires Square(m0, n) && k < n
    ensures Square(m, n)
    ensures forall a, b {:trigger m[a][b]} :: 0 <= a < n && 0 <= b < n ==> m[a][b] == (m0[a][b] || (m0[a][k] && m0[k][b]))
  {
    m := m0;
    var i := 0;
    while i < n
      invariant 0 <= i <= n && Square(m, n)
      invariant forall a, b {:trigger m[a][b]} :: 0 <= a < i && 0 <= b < n ==> m[a][b] == (m0[a][b] || (m0[a][k] && m0[k][b]))
      invariant forall a :: i <= a < n ==> m[a] == m0[a]
      invariant m[k] == m0[k]
    {
      var row := RoundRow(m[i], m[k], k);
      if i == k {
        assert row == m0[k];
      }
      m := m[i := row];
      i := i + 1;
    }
  }

  /** Warshall's algorithm on the filled matrix: afterwards m[a][b] holds
      exactly when b can be reached from a. */
  method Warshall(dups: set<Pair>, n: nat, m0: Matrix) returns (m: Matrix)
    requires InRange(dups, n) && Square(m0, n)
    requires forall a, b :: 0 <= a < n && 0 <= b < n ==> (m0[a][b] <==> Edge(dups, a, b))
    ensures Square(m, n)
    ensures forall a, b :: 0 <= a < n && 0 <= b < n ==> (m[a][b] <==> Connected(dups, a, b))
  {
    m := m0;
    forall a, b | 0 <= a < n && 0 <= b < n
      ensures m[a][b] <==> Via(dups, a, b, 0)
    {
      ViaEdge(dups, a, b);
    }
    var k := 0;
    while k < n
      invariant 0 <= k <= n && Square(m, n)
      invariant forall a, b :: 0 <= a < n && 0 <= b < n ==> (m[a][b] <==> Via(dups, a, b, k))
    {
      var before := m;
      m := Round(m, n, k);
      forall a, b | 0 <= a < n && 0 <= b < n
        ensures m[a][b] <==> Via(dups, a, b, k + 1)
      {
        ViaStep(dups, a, b, k);
        assert m[a][b] == (before[a][b] || (before[a][k] && before[k][b]));
      }
      k := k + 1;
    }
    forall a, b | 0 <= a < n && 0 <= b < n
      ensures m[a][b] <==> Connected(dups, a, b)
    {
      ViaAll(dups, n, a, b);
    }
  }

  /** Pair (a, b) with a < b has been visited by the collection loop once the
      loop has reached row i, column j. */
  predicate Visited(i: nat, j: nat, a: nat, b: nat) {
    a < i || (a == i && b < j)
  }

  /** The smaller and the larger of two indices. */
  function Lo(a: nat, b: nat): nat { if a < b then a else b }
  function Hi(a: nat, b: nat): nat { if a < b then b else a }

  /** Collects both orientations of every pair i < j the matrix relates. */
  method Collect(m: Matrix, n: nat) returns (closed: set<Pair>)
    requires Square(m, n)
    ensures forall a: nat, b: nat :: (a, b) in closed <==> a != b && a < n && b < n && m[Lo(a, b)][Hi(a, b)]
  {
    closed := {};
    var i := 0;
    while i < n
      invariant 0 <= i <= n
      invariant forall a: nat, b: nat :: (a, b) in closed <==>
        a != b && a < n && b < n && m[Lo(a, b)][Hi(a, b)] && Lo(a, b) < i
    {
      var j := i + 1;
      while j < n
        invariant i + 1 <= j <= n
        invariant forall a: nat, b: nat :: (a, b) in closed <==>
          a != b && a < n && b < n && m[Lo(a, b)][Hi(a, b)] && Visited(i, j, Lo(a, b), Hi(a, b))
      {
        if m[i][j] {
          closed := closed + {(i, j), (j, i)};
        }
        j := j + 1;
      }
      i := i + 1;
    }
  }

  /** calculate: the input itself when it holds at most one duplicate,
      otherwise every pair of different connected records, in both
      orientations. */
  method Calculate(dups: set<Pair>, n: nat) returns (closed: set<Pair>)
    requires InRange(dups, n)
    ensures |dups| <= 1 ==> closed == dups
    ensures |dups| > 1 ==> forall a: nat, b: nat :: (a, b) in closed <==> InClosure(dups, n, a, b)
  {
    if |dups| <= 1 {
      return dups;
    }
    var m := Fill(dups, n);
    m := Warshall(dups, n, m);
    closed := Collect(m, n);
    forall a: nat, b: nat
      ensures (a, b) in closed <==> InClosure(dups, n, a, b)
    {
      ConnectedSymmetric(dups, a, b);
    }
  }
}
