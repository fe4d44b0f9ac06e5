/** Levenshtein and restricted Damerau-Levenshtein (optimal string alignment)
    distance and the similarity built from it, over characters and over token
    lists.  Java's double arithmetic is modelled by exact reals. */
module Levenshtein {
  import opened Nulls

  /** Integer.MAX_VALUE. */
  const IntMax: int := 2147483647

  /** Math.min on two ints. */
  function Min(x: int, y: int): int {
    if x <= y then x else y
  }

  /** Math.max on two ints. */
  function Max(x: int, y: int): int {
    if x >= y then x else y
  }

  /** A UTF-16 code unit, the element of a Java string. */
  type CodeUnit = u: int | 0 <= u < 0x1_0000

  /** A Java string as `length()` and `charAt` see it: its UTF-16 code units. */
  type JavaString = seq<CodeUnit>

  /** The UTF-16 encoding of a text: a character of the Basic Multilingual
      Plane is one code unit, every other character a surrogate pair. */
  function Utf16(s: string): (r: JavaString)
    ensures |r| >= |s|
  {
    if |s| == 0 then []
    else
      var v := s[0] as int;
      var units: JavaString :=
        if v < 0x1_0000 then [v]
        else [0xD800 + (v - 0x1_0000) / 0x400, 0xDC00 + (v - 0x1_0000) % 0x400];
      units + Utf16(s[1..])
  }

  /** min(int...): the least argument, Integer.MAX_VALUE when there is none. */
  function MinOf(numbers: seq<int>): (r: int)
    ensures |numbers| == 0 ==> r == IntMax
    ensures |numbers| > 0 ==> r in numbers && forall k :: 0 <= k < |numbers| ==> r <= numbers[k]
  {
    if |numbers| == 0 then IntMax
    else if |numbers| == 1 then numbers[0]
    else
      var rest := MinOf(numbers[1..]);
      assert forall k :: 1 <= k < |numbers| ==> numbers[k] == numbers[1..][k - 1];
      Min(numbers[0], rest)
  }

  // ----- the reference recurrence ----------------------------------------

  /** The substitution cost of two elements. */
  function Cost<T(==)>(x: T, y: T): nat {
    if x == y then 0 else 1
  }

  /** The last two elements of a[..i] are those of b[..j] in swapped order. */
  predicate Swapped<T(==)>(a: seq<T>, b: seq<T>, i: nat, j: nat)
    requires i <= |a| && j <= |b|
  {
    i > 1 && j > 1 && a[i - 1] == b[j - 2] && a[i - 2] == b[j - 1]
  }

  /** The value of an inner cell from its neighbours: the cheapest of
      deleting (up), inserting (left) and aligning (diag), and with a swap
      also of transposing (twoBack). */
  function Cell(up: nat, left: nat, diag: nat, cost: nat, swap: bool, twoBack: nat): nat {
    var m := Min(up + 1, Min(left + 1, diag + cost));
    if swap then Min(m, twoBack + 1) else m
  }

  /** Completes row i of the table from its prefix `row`, given the rows
      i - 1 (`up`) and i - 2 (`upUp`). */
  ghost function Extend<T>(a: seq<T>, b: seq<T>, i: nat, damerau: bool, up: seq<nat>, upUp: seq<nat>, row: seq<nat>): (r: seq<nat>)
    requires 1 <= i <= |a| && |up| == |b| + 1 && |upUp| == |b| + 1 && 1 <= |row| <= |b| + 1
    ensures |r| == |b| + 1
    decreases |b| + 1 - |row|
  {
    if |row| == |b| + 1 then row
    else
      var j := |row|;
      var x := Cell(up[j], row[j - 1], up[j - 1], Cost(a[i - 1], b[j - 1]), damerau && Swapped(a, b, i, j),
                    if j > 1 then upUp[j - 2] else 0);
      Extend(a, b, i, damerau, up, upUp, row + [x])
  }

  /** Row i of the distance table: entry j is the distance of a[..i] and
      b[..j]. */
  ghost function Row<T>(a: seq<T>, b: seq<T>, i: nat, damerau: bool): (r: seq<nat>)
    requires i <= |a|
    ensures |r| == |b| + 1
  {
    if i == 0 then seq(|b| + 1, j => j)
    else
      var upUp := if i > 1 then Row(a, b, i - 2, damerau) else seq(|b| + 1, j => 0);
      Extend(a, b, i, damerau, Row(a, b, i - 1, damerau), upUp, [i])
  }

  /** The edit distance of a[..i] and b[..j]: the least number of insertions,
      deletions and substitutions, and with `damerau` also transpositions of
      adjacent elements (each element edited at most once). */
  ghost function Dist<T>(a: seq<T>, b: seq<T>, i: nat, j: nat, damerau: bool): nat
    requires i <= |a| && j <= |b|
  {
    Row(a, b, i, damerau)[j]
  }

  /** The distance of two whole sequences. */
  ghost function Distance<T>(a: seq<T>, b: seq<T>, damerau: bool): nat {
    Dist(a, b, |a|, |b|, damerau)
  }

  // ----- properties of the recurrence ------------------------------------

  /** Extend keeps the prefix and fills every later entry by Cell. */
  lemma {:induction false} ExtendMeaning<T>(a: seq<T>, b: seq<T>, i: nat, damerau: bool, up: seq<nat>, upUp: seq<nat>, row: seq<nat>)
    requires 1 <= i <= |a| && |up| == |b| + 1 && |upUp| == |b| + 1 && 1 <= |row| <= |b| + 1
    ensures var r := Extend(a, b, i, damerau, up, upUp, row);
      (forall k :: 0 <= k < |row| ==> r[k] == row[k]) &&
      forall j :: |row| <= j <= |b| ==>
        r[j] == Cell(up[j], r[j - 1], up[j - 1], Cost(a[i - 1], b[j - 1]), damerau && Swapped(a, b, i, j),
                     if j > 1 then upUp[j - 2] else 0)
    decreases |b| + 1 - |row|
  {
    if |row| < |b| + 1 {
      var j := |row|;
      var x := Cell(up[j], row[j - 1], up[j - 1], Cost(a[i - 1], b[j - 1]), damerau && Swapped(a, b, i, j),
                    if j > 1 then upUp[j - 2] else 0);
      ExtendMeaning(a, b, i, damerau, up, upUp, row + [x]);
      var r := Extend(a, b, i, damerau, up, upUp, row + [x]);
      assert r[j] == (row + [x])[j] == x;
      assert r[j - 1] == (row + [x])[j - 1] == row[j - 1];
    }
  }

  /** The borders of the table: a prefix against an empty one. */
  lemma DistBorder<T>(a: seq<T>, b: seq<T>, i: nat, j: nat, damerau: bool)
    requires i <= |a| && j <= |b|
    ensures Dist(a, b, i, 0, damerau) == i
    ensures Dist(a, b, 0, j, damerau) == j
  {
    if i > 0 {
      var upUp := if i > 1 then Row(a, b, i - 2, damerau) else seq(|b| + 1, k => 0);
      ExtendMeaning(a, b, i, damerau, Row(a, b, i - 1, damerau), upUp, [i]);
    }
  }

  /** Both borders at once. */
  lemma DistBorders<T>(a: seq<T>, b: seq<T>, damerau: bool)
    ensures forall i :: 0 <= i <= |a| ==> Dist(a, b, i, 0, damerau) == i
    ensures forall j :: 0 <= j <= |b| ==> Dist(a, b, 0, j, damerau) == j
  {
    forall i | 0 <= i <= |a| {
      DistBorder(a, b, i, 0, damerau);
    }
  }

  /** The recurrence: an inner cell is Cell of its neighbours. */
  lemma DistCell<T>(a: seq<T>, b: seq<T>, i: nat, j: nat, damerau: bool)
    requires 1 <= i <= |a| && 1 <= j <= |b|
    ensures Dist(a, b, i, j, damerau) ==
      Cell(Dist(a, b, i - 1, j, damerau), Dist(a, b, i, j - 1, damerau), Dist(a, b, i - 1, j - 1, damerau),
           Cost(a[i - 1], b[j - 1]), damerau && Swapped(a, b, i, j),
           if i > 1 && j > 1 then Dist(a, b, i - 2, j - 2, damerau) else 0)
  {
    var upUp := if i > 1 then Row(a, b, i - 2, damerau) else seq(|b| + 1, k => 0);
    ExtendMeaning(a, b, i, damerau, Row(a, b, i - 1, damerau), upUp, [i]);
  }

  /** An inner cell is at most each of its options and equal to one of them. */
  lemma DistOptions<T>(a: seq<T>, b: seq<T>, i: nat, j: nat, damerau: bool)
    requires 1 <= i <= |a| && 1 <= j <= |b|
    ensures Dist(a, b, i, j, damerau) <= Dist(a, b, i - 1, j, damerau) + 1
    ensures Dist(a, b, i, j, damerau) <= Dist(a, b, i, j - 1, damerau) + 1
    ensures Dist(a, b, i, j, damerau) <= Dist(a, b, i - 1, j - 1, damerau) + Cost(a[i - 1], b[j - 1])
    ensures damerau && Swapped(a, b, i, j) ==> Dist(a, b, i, j, damerau) <= Dist(a, b, i - 2, j - 2, damerau) + 1
    ensures Dist(a, b, i, j, damerau) == Dist(a, b, i - 1, j, damerau) + 1
         || Dist(a, b, i, j, damerau) == Dist(a, b, i, j - 1, damerau) + 1
         || Dist(a, b, i, j, damerau) == Dist(a, b, i - 1, j - 1, damerau) + Cost(a[i - 1], b[j - 1])
         || (damerau && Swapped(a, b, i, j) && Dist(a, b, i, j, damerau) == Dist(a, b, i - 2, j - 2, damerau) + 1)
  {
    DistCell(a, b, i, j, damerau);
  }

  /** Deleting the last element of a costs at most one. */
  lemma DeleteStep<T>(a: seq<T>, b: seq<T>, i: nat, j: nat, damerau: bool)
    requires 1 <= i <= |a| && j <= |b|
    ensures Dist(a, b, i, j, damerau) <= Dist(a, b, i - 1, j, damerau) + 1
  {
    DistBorders(a, b, damerau);
    if j > 0 {
      DistOptions(a, b, i, j, damerau);
    }
  }

  /** Inserting the last element of b costs at most one. */
  lemma InsertStep<T>(a: seq<T>, b: seq<T>, i: nat, j: nat, damerau: bool)
    requires i <= |a| && 1 <= j <= |b|
    ensures Dist(a, b, i, j, damerau) <= Dist(a, b, i, j - 1, damerau) + 1
  {
    DistBorders(a, b, damerau);
    if i > 0 {
      DistOptions(a, b, i, j, damerau);
    }
  }

  /** Dropping the last element of b lowers the distance by at most one. */
  lemma {:induction false} ShorterB<T>(a: seq<T>, b: seq<T>, i: nat, j: nat, damerau: bool)
    requires i <= |a| && 1 <= j <= |b|
    ensures Dist(a, b, i, j - 1, damerau) <= Dist(a, b, i, j, damerau) + 1
    decreases i
  {
    DistBorders(a, b, damerau);
    if i > 0 {
      ShorterB(a, b, i - 1, j, damerau);
      DeleteStep(a, b, i, j - 1, damerau);
      DistOptions(a, b, i, j, damerau);
      if damerau && Swapped(a, b, i, j) {
        DistOptions(a, b, i - 1, j - 1, damerau);
      }
    }
  }

  /** Dropping the last element of a lowers the distance by at most one. */
  lemma {:induction false} ShorterA<T>(a: seq<T>, b: seq<T>, i: nat, j: nat, damerau: bool)
    requires 1 <= i <= |a| && j <= |b|
    ensures Dist(a, b, i - 1, j, damerau) <= Dist(a, b, i, j, damerau) + 1
    decreases j
  {
    DistBorders(a, b, damerau);
    if j > 0 {
      ShorterA(a, b, i, j - 1, damerau);
      InsertStep(a, b, i - 1, j, damerau);
      DistOptions(a, b, i, j, damerau);
      if damerau && Swapped(a, b, i, j) {
        DistOptions(a, b, i - 1, j - 1, damerau);
      }
    }
  }

  /** Equal last elements are best aligned with each other. */
  lemma MatchDiagonal<T>(a: seq<T>, b: seq<T>, i: nat, j: nat, damerau: bool)
    requires 1 <= i <= |a| && 1 <= j <= |b| && a[i - 1] == b[j - 1]
    ensures Dist(a, b, i, j, damerau) == Dist(a, b, i - 1, j - 1, damerau)
  {
    DistOptions(a, b, i, j, damerau);
    ShorterB(a, b, i - 1, j, damerau);
    ShorterA(a, b, i, j - 1, damerau);
    if damerau && Swapped(a, b, i, j) {
      DistOptions(a, b, i - 1, j - 1, damerau);
    }
  }

  /** The cell computation of the string methods: the diagonal on equal
      characters, otherwise one plus the least neighbour, lowered by a
      transposition when the Damerau variant allows one. */
  lemma StringCell<T>(a: seq<T>, b: seq<T>, i: nat, j: nat, damerau: bool)
    requires 1 <= i <= |a| && 1 <= j <= |b|
    ensures Dist(a, b, i, j, damerau) ==
      if a[i - 1] == b[j - 1] then Dist(a, b, i - 1, j - 1, damerau)
      else
        var m := 1 + Min(Dist(a, b, i - 1, j, damerau), Min(Dist(a, b, i, j - 1, damerau), Dist(a, b, i - 1, j - 1, damerau)));
        if damerau && Swapped(a, b, i, j) then Min(m, Dist(a, b, i - 2, j - 2, damerau) + 1) else m
  {
    if a[i - 1] == b[j - 1] {
      MatchDiagonal(a, b, i, j, damerau);
    } else {
      DistOptions(a, b, i, j, damerau);
    }
  }

  /** The cell computation of the token method: the least of the three
      neighbour moves, lowered by a transposition that costs the substitution
      cost of the current pair. */
  lemma TokenCell<T>(a: seq<T>, b: seq<T>, i: nat, j: nat, damerau: bool)
    requires 1 <= i <= |a| && 1 <= j <= |b|
    ensures Dist(a, b, i, j, damerau) ==
      var cost := Cost(a[i - 1], b[j - 1]);
      var m := Min(Dist(a, b, i, j - 1, damerau) + 1, Min(Dist(a, b, i - 1, j, damerau) + 1, Dist(a, b, i - 1, j - 1, damerau) + cost));
      if damerau && Swapped(a, b, i, j) then Min(m, Dist(a, b, i - 2, j - 2, damerau) + cost) else m
  {
    DistOptions(a, b, i, j, damerau);
    if damerau && Swapped(a, b, i, j) && a[i - 1] == b[j - 1] {
      // all four elements are equal, so the transposition never wins
      DistOptions(a, b, i - 1, j - 1, damerau);
    }
  }

  /** The distance never exceeds the longer length. */
  lemma {:induction false} DistAtMostLonger<T>(a: seq<T>, b: seq<T>, i: nat, j: nat, damerau: bool)
    requires i <= |a| && j <= |b|
    ensures Dist(a, b, i, j, damerau) <= Max(i, j)
    decreases i + j
  {
    DistBorders(a, b, damerau);
    if i > 0 && j > 0 {
      DistAtMostLonger(a, b, i - 1, j - 1, damerau);
      DistOptions(a, b, i, j, damerau);
    }
  }

  /** The distance is at least the difference of the lengths. */
  lemma {:induction false} DistAtLeastGap<T>(a: seq<T>, b: seq<T>, i: nat, j: nat, damerau: bool)
    requires i <= |a| && j <= |b|
    ensures Dist(a, b, i, j, damerau) >= if i >= j then i - j else j - i
    decreases i + j
  {
    DistBorders(a, b, damerau);
    if i > 0 && j > 0 {
      DistOptions(a, b, i, j, damerau);
      DistAtLeastGap(a, b, i - 1, j, damerau);
      DistAtLeastGap(a, b, i, j - 1, damerau);
      DistAtLeastGap(a, b, i - 1, j - 1, damerau);
      if damerau && Swapped(a, b, i, j) {
        DistAtLeastGap(a, b, i - 2, j - 2, damerau);
      }
    }
  }

  /** The distance is zero exactly when the prefixes are equal. */
  lemma {:induction false} DistZero<T>(a: seq<T>, b: seq<T>, i: nat, j: nat, damerau: bool)
    requires i <= |a| && j <= |b|
    ensures Dist(a, b, i, j, damerau) == 0 <==> a[..i] == b[..j]
    decreases i + j
  {
    DistBorders(a, b, damerau);
    if i > 0 && j > 0 {
      DistOptions(a, b, i, j, damerau);
      DistZero(a, b, i - 1, j - 1, damerau);
      assert a[..i] == a[..i - 1] + [a[i - 1]];
      assert b[..j] == b[..j - 1] + [b[j - 1]];
      if a[..i] == b[..j] {
        assert a[i - 1] == a[..i][i - 1] == b[..j][j - 1] == b[j - 1];
        assert a[..i - 1] == a[..i][..i - 1] == b[..j][..j - 1] == b[..j - 1];
      }
    } else if i > 0 {
      assert |a[..i]| != |b[..j]|;
    } else if j > 0 {
      assert |a[..i]| != |b[..j]|;
    }
  }

  /** The distance does not depend on the order of the arguments. */
  lemma {:induction false} DistSymmetric<T>(a: seq<T>, b: seq<T>, i: nat, j: nat, damerau: bool)
    requires i <= |a| && j <= |b|
    ensures Dist(a, b, i, j, damerau) == Dist(b, a, j, i, damerau)
    decreases i + j
  {
    DistBorders(a, b, damerau);
    DistBorders(b, a, damerau);
    if i > 0 && j > 0 {
      DistSymmetric(a, b, i - 1, j, damerau);
      DistSymmetric(a, b, i, j - 1, damerau);
      DistSymmetric(a, b, i - 1, j - 1, damerau);
      if i > 1 && j > 1 {
        DistSymmetric(a, b, i - 2, j - 2, damerau);
      }
      DistOptions(a, b, i, j, damerau);
      DistOptions(b, a, j, i, damerau);
      assert Swapped(a, b, i, j) == Swapped(b, a, j, i);
    }
  }

  /** Allowing transpositions never makes the distance larger. */
  lemma {:induction false} DamerauAtMostLevenshtein<T>(a: seq<T>, b: seq<T>, i: nat, j: nat)
    requires i <= |a| && j <= |b|
    ensures Dist(a, b, i, j, true) <= Dist(a, b, i, j, false)
    decreases i + j
  {
    DistBorders(a, b, true);
    DistBorders(a, b, false);
    if i > 0 && j > 0 {
      DamerauAtMostLevenshtein(a, b, i - 1, j);
      DamerauAtMostLevenshtein(a, b, i, j - 1);
      DamerauAtMostLevenshtein(a, b, i - 1, j - 1);
      DistOptions(a, b, i, j, true);
      DistOptions(a, b, i, j, false);
    }
  }

  // ----- the full-matrix methods on strings -------------------------------

  /** The rows of an (r + 1) by (c + 1) matrix. */
  ghost predicate Shape(m: seq<seq<int>>, r: nat, c: nat) {
    |m| == r + 1 && forall k :: 0 <= k <= r ==> |m[k]| == c + 1
  }

  /** Rows 0 .. i - 1 of m hold the distance table. */
  ghost predicate RowsDone<T>(a: seq<T>, b: seq<T>, damerau: bool, m: seq<seq<int>>, i: nat)
    requires Shape(m, |a|, |b|) && i <= |a| + 1
  {
    forall r, c {:trigger m[r][c]} :: 0 <= r < i && 0 <= c <= |b| ==> m[r][c] == Dist(a, b, r, c, damerau)
  }

  /** The inner loop of the matrix methods: fills row i of the matrix from
      column 1 on, from the rows above and the entries to its left. */
  method MatrixRow<T(==)>(a: seq<T>, b: seq<T>, damerau: bool, m0: seq<seq<int>>, i: nat) returns (m: seq<seq<int>>)
    requires 1 <= i <= |a| && Shape(m0, |a|, |b|) && RowsDone(a, b, damerau, m0, i) && m0[i][0] == i
    ensures Shape(m, |a|, |b|) && RowsDone(a, b, damerau, m, i + 1)
    ensures forall r :: 0 <= r <= |a| && r != i ==> m[r] == m0[r]
  {
    DistBorders(a, b, damerau);
    m := m0;
    var j := 1;
    while j <= |b|
      invariant 1 <= j <= |b| + 1 && Shape(m, |a|, |b|) && RowsDone(a, b, damerau, m, i)
      invariant forall r :: 0 <= r <= |a| && r != i ==> m[r] == m0[r]
      invariant forall c :: 0 <= c < j ==> m[i][c] == Dist(a, b, i, c, damerau)
    {
      StringCell(a, b, i, j, damerau);
      var v: int;
      if a[i - 1] == b[j - 1] {
        v := m[i - 1][j - 1];
      } else {
        v := 1 + Min(m[i - 1][j], Min(m[i][j - 1], m[i - 1][j - 1]));
        if damerau && i > 1 && j > 1 && a[i - 1] == b[j - 2] && a[i - 2] == b[j - 1] {
          v := Min(v, m[i - 2][j - 2] + 1);
        }
      }
      m := m[i := m[i][j := v]];
      j := j + 1;
    }
  }

  /** calculateLevenshtein (damerau false) and calculateDamerauLevenshtein
      (damerau true): fills the matrix border first, then row by row, and
      returns its last entry. */
  method MatrixDistance<T(==)>(a: seq<T>, b: seq<T>, damerau: bool) returns (d: nat)
    ensures d == Distance(a, b, damerau)
  {
    DistBorders(a, b, damerau);
    var m: seq<seq<int>> := seq(|a| + 1, r => seq(|b| + 1, c => 0));
    var i := 0;
    while i <= |a|
      invariant 0 <= i <= |a| + 1 && Shape(m, |a|, |b|)
      invariant forall r :: 0 <= r < i ==> m[r][0] == r
    {
      m := m[i := m[i][0 := i]];
      i := i + 1;
    }
    var j := 0;
    while j <= |b|
      invariant 0 <= j <= |b| + 1 && Shape(m, |a|, |b|)
      invariant forall r :: 0 <= r <= |a| ==> m[r][0] == r
      invariant forall c :: 0 <= c < j ==> m[0][c] == c
    {
      m := m[0 := m[0][j := j]];
      j := j + 1;
    }
    i := 1;
    while i <= |a|
      invariant 1 <= i <= |a| + 1 && Shape(m, |a|, |b|) && RowsDone(a, b, damerau, m, i)
      invariant forall r :: i <= r <= |a| ==> m[r][0] == r
    {
      m := MatrixRow(a, b, damerau, m, i);
      i := i + 1;
    }
    assert RowsDone(a, b, damerau, m, |a| + 1);
    d := m[|a|][|b|];
  }

  // ----- the rolling-line method on token lists ----------------------------

  /** The inner loop of the token method: fills the line for the j-th token
      of s2 from the previous line `upper` and the one before it. */
  method FillLine<T(==)>(s1: seq<T>, s2: seq<T>, damerau: bool, j: nat, upper: seq<int>, upperUpper: seq<int>, lower0: seq<int>)
    returns (lower: seq<int>)
    requires 1 <= j <= |s2| && |upper| == |upperUpper| == |lower0| == |s1| + 1
    requires forall c :: 0 <= c <= |s1| ==> upper[c] == Dist(s1, s2, c, j - 1, damerau)
    requires damerau && j >= 2 ==> forall c :: 0 <= c <= |s1| ==> upperUpper[c] == Dist(s1, s2, c, j - 2, damerau)
    ensures |lower| == |s1| + 1
    ensures forall c :: 0 <= c <= |s1| ==> lower[c] == Dist(s1, s2, c, j, damerau)
  {
    DistBorders(s1, s2, damerau);
    lower := lower0[0 := j];
    var i := 1;
    while i <= |s1|
      invariant 1 <= i <= |s1| + 1 && |lower| == |s1| + 1
      invariant forall c :: 0 <= c < i ==> lower[c] == Dist(s1, s2, c, j, damerau)
    {
      TokenCell(s1, s2, i, j, damerau);
      var cost := if s1[i - 1] == s2[j - 1] then 0 else 1;
      var v := Min(upper[i] + 1, Min(lower[i - 1] + 1, upper[i - 1] + cost));
      if damerau && i > 1 && j > 1 && s1[i - 1] == s2[j - 2] && s1[i - 2] == s2[j - 1] {
        v := Min(v, upperUpper[i - 2] + cost);
      }
      lower := lower[i := v];
      i := i + 1;
    }
  }

  /** The rolling-line computation over token lists: `upper` holds the line
      for the previous token of s2, `upperUpper` the one before it, and
      `lower` is filled next; the lines rotate after every token. */
  method LineDistance<T(==)>(s1: seq<T>, s2: seq<T>, damerau: bool) returns (d: nat)
    ensures d == Distance(s1, s2, damerau)
  {
    DistBorders(s1, s2, damerau);
    var n := |s1|;
    var upperUpper: seq<int> := seq(n + 1, k => 0);
    var upper: seq<int> := seq(n + 1, k => 0);
    var lower: seq<int> := seq(n + 1, k => 0);
    var i := 0;
    while i <= n
      invariant 0 <= i <= n + 1 && |upper| == n + 1
      invariant forall c :: 0 <= c < i ==> upper[c] == c
    {
      upper := upper[i := i];
      i := i + 1;
    }
    var j := 1;
    while j <= |s2|
      invariant 1 <= j <= |s2| + 1
      invariant |upperUpper| == |upper| == |lower| == n + 1
      invariant forall c :: 0 <= c <= n ==> upper[c] == Dist(s1, s2, c, j - 1, damerau)
      invariant damerau && j >= 2 ==> forall c :: 0 <= c <= n ==> upperUpper[c] == Dist(s1, s2, c, j - 2, damerau)
    {
      lower := FillLine(s1, s2, damerau, j, upper, upperUpper, lower);
      if damerau {
        upperUpper, upper, lower := upper, lower, upperUpper;
      } else {
        upper, lower := lower, upper;
      }
      j := j + 1;
    }
    d := upper[n];
  }

  // ----- similarity ------------------------------------------------------

  /** A ratio of a non-negative value to a larger positive one lies in [0, 1]. */
  lemma RatioInUnit(x: real, m: real)
    requires 0.0 <= x <= m && m > 0.0
    ensures 0.0 <= x / m <= 1.0
  {
    assert (x / m) * m == x;
  }

  /** Dividing by the same positive value keeps the order. */
  lemma RatioMonotone(x: real, y: real, m: real)
    requires x <= y && m > 0.0
    ensures x / m <= y / m
  {
    assert (x / m) * m == x && (y / m) * m == y;
  }

  /** The similarity of two sequences: 1 - distance / longer length, and 1 for
      two empty sequences. */
  ghost function Similarity<T>(a: seq<T>, b: seq<T>, damerau: bool): (r: real)
    ensures 0.0 <= r <= 1.0
  {
    if |a| == 0 && |b| == 0 then 1.0
    else
      DistAtMostLonger(a, b, |a|, |b|, damerau);
      RatioInUnit(Distance(a, b, damerau) as real, Max(|a|, |b|) as real);
      1.0 - (Distance(a, b, damerau) as real) / (Max(|a|, |b|) as real)
  }

  /** The similarity of two references: 0 when either is null. */
  ghost function NullableSimilarity<T>(a: Nullable<seq<T>>, b: Nullable<seq<T>>, damerau: bool): real {
    if a.Null? || b.Null? then 0.0 else Similarity(a.get, b.get, damerau)
  }

  /** Similarity is symmetric. */
  lemma SimilaritySymmetric<T>(a: seq<T>, b: seq<T>, damerau: bool)
    ensures Similarity(a, b, damerau) == Similarity(b, a, damerau)
  {
    DistSymmetric(a, b, |a|, |b|, damerau);
  }

  /** The similarity is 1 exactly for equal sequences. */
  lemma SimilarityOne<T>(a: seq<T>, b: seq<T>, damerau: bool)
    ensures Similarity(a, b, damerau) == 1.0 <==> a == b
  {
    DistZero(a, b, |a|, |b|, damerau);
    assert a[..|a|] == a && b[..|b|] == b;
    if |a| > 0 || |b| > 0 {
      var m := Max(|a|, |b|) as real;
      var d := Distance(a, b, damerau) as real;
      assert 1.0 - d / m == 1.0 <==> d == 0.0;
    }
  }

  /** The Damerau similarity is at least the plain one. */
  lemma DamerauSimilarityAtLeast<T>(a: seq<T>, b: seq<T>)
    ensures Similarity(a, b, false) <= Similarity(a, b, true)
  {
    DamerauAtMostLevenshtein(a, b, |a|, |b|);
    if |a| > 0 || |b| > 0 {
      RatioMonotone(Distance(a, b, true) as real, Distance(a, b, false) as real, Max(|a|, |b|) as real);
    }
  }

  /** Two sequences of two elements that differ only in the second are at
      distance one. */
  lemma LastMismatch<T>(a: seq<T>, b: seq<T>)
    requires |a| == |b| == 2 && a[0] == b[0] && a[1] != b[1]
    ensures Distance(a, b, false) == 1
  {
    DistZero(a, b, 1, 1, false);
    assert a[..1] == b[..1];
    DistZero(a, b, 2, 2, false);
    assert a[..2] != b[..2];
    DistOptions(a, b, 2, 2, false);
  }

  /** Two different one-element sequences are at distance one. */
  lemma SingleMismatch<T>(a: seq<T>, b: seq<T>, damerau: bool)
    requires |a| == |b| == 1 && a != b
    ensures Distance(a, b, damerau) == 1
  {
    DistZero(a, b, 1, 1, damerau);
    assert a[..1] == a && b[..1] == b;
    DistAtMostLonger(a, b, 1, 1, damerau);
  }

  /** The UTF-16 encoding of the two characters U+1F600 and U+1F601. */
  lemma EmojiUnits(x: string, y: string)
    requires x == "\U{1F600}" && y == "\U{1F601}"
    ensures Utf16(x) == [0xD83D, 0xDE00] && Utf16(y) == [0xD83D, 0xDE01]
  {
    assert x[0] as int == 0x1F600 && x[1..] == [];
    assert y[0] as int == 0x1F601 && y[1..] == [];
  }

  /** Two characters outside the Basic Multilingual Plane, U+1F600 and
      U+1F601, are two code units each and share the high surrogate: their
      similarity over code units, as Java counts, is 1/2, while over
      characters it would be 0. */
  lemma SurrogatePairs(x: string, y: string)
    requires x == "\U{1F600}" && y == "\U{1F601}"
    ensures Similarity(Utf16(x), Utf16(y), false) == 0.5
    ensures Similarity(x, y, false) == 0.0
  {
    EmojiUnits(x, y);
    LastMismatch(Utf16(x), Utf16(y));
    assert |x| == |y| == 1 && x != y;
    SingleMismatch(x, y, false);
  }

  /** calculate(String, String): 0 for a null argument, 1 for two empty
      strings, otherwise the similarity from the full-matrix distance.  The
      strings are sequences of UTF-16 code units, the unit Java's `length()`
      and `charAt` count. */
  method Calculate(string1: Nullable<JavaString>, string2: Nullable<JavaString>, withDamerau: bool) returns (sim: real)
    ensures sim == NullableSimilarity(string1, string2, withDamerau)
    ensures 0.0 <= sim <= 1.0
  {
    if string1.Null? || string2.Null? {
      return 0.0;
    }
    var s1, s2 := string1.get, string2.get;
    if |s1| == 0 && |s2| == 0 {
      return 1.0;
    }
    var d := MatrixDistance(s1, s2, withDamerau);
    sim := 1.0 - (d as real) / (Max(|s1|, |s2|) as real);
  }

  /** What calculate(String[], String[]) ends with.  A null array gives 0
      and two empty arrays give 1.  Tokens are compared by
      strings1[i - 1].equals(...): once strings2 has a token, every token of
      strings1 is such a receiver, so a null one throws NullPointerException;
      a null token of strings2 is only ever the argument and is unequal to
      every string token. */
  ghost function TokenOutcome(strings1: StringArray, strings2: StringArray, damerau: bool): Outcome<real> {
    if strings1.Null? || strings2.Null? then Success(0.0)
    else if Null in strings1.get && |strings2.get| > 0 then Thrown(NullPointer)
    else Success(Similarity(strings1.get, strings2.get, damerau))
  }

  /** calculate(String[], String[]): the same over token lists, with the
      rolling-line distance. */
  method CalculateTokens(strings1: StringArray, strings2: StringArray, withDamerau: bool) returns (r: Outcome<real>)
    ensures r == TokenOutcome(strings1, strings2, withDamerau)
    ensures r.Thrown? <==> strings1.Value? && strings2.Value? && Null in strings1.get && |strings2.get| > 0
    ensures r.Success? ==> 0.0 <= r.value <= 1.0
  {
    if strings1.Null? || strings2.Null? {
      return Success(0.0);
    }
    var s1, s2 := strings1.get, strings2.get;
    if |s1| == 0 && |s2| == 0 {
      return Success(1.0);
    }
    if |s2| > 0 && Null in s1 {
      return Thrown(NullPointer);
    }
    var d := LineDistance(s1, s2, withDamerau);
    r := Success(1.0 - (d as real) / (Max(|s1|, |s2|) as real));
  }

  /** Without null tokens, swapping the arrays changes nothing. */
  lemma TokenOutcomeSymmetric(strings1: StringArray, strings2: StringArray, damerau: bool)
    requires strings1.Value? ==> Null !in strings1.get
    requires strings2.Value? ==> Null !in strings2.get
    ensures TokenOutcome(strings1, strings2, damerau) == TokenOutcome(strings2, strings1, damerau)
  {
    if strings1.Value? && strings2.Value? {
      SimilaritySymmetric(strings1.get, strings2.get, damerau);
    }
  }

  /** A null token is treated differently on the two sides: ["a"] against
      [null] gives 0, while [null] against ["a"] throws. */
  lemma NullTokenAsymmetry(a: seq<Nullable<string>>, b: seq<Nullable<string>>, damerau: bool)
    requires a == [Value("a")] && b == [Null]
    ensures TokenOutcome(Value(a), Value(b), damerau) == Success(0.0)
    ensures TokenOutcome(Value(b), Value(a), damerau) == Thrown(NullPointer)
  {
    assert a[0] != Null && a[0] != b[0];
    assert b[0] == Null;
    SingleMismatch(a, b, damerau);
  }
}
