/** The level-wise search for minimal unique column combinations, as a state
    machine over levels.  The uniqueness tests are parameters: `unary` decides
    a single attribute, `unique` a combination of several. */
module UccSearch {
  import opened Sequences
  import opened AttributeLists

  /** The search state between two levels: the unique combinations recorded so
      far, in order of discovery, and the attribute lists of the current
      non-unique indexes (the frontier). */
  datatype State = State(uniques: seq<AttrList>, frontier: seq<AttrList>)

  /** Where one candidate of a level goes. */
  datatype Outcome = Recorded | NonMinimal | NonUnique

  /** The frontier of level `level`: different lists of `level` attributes,
      all below n. */
  ghost predicate FrontierOk(f: seq<AttrList>, level: nat, n: nat) {
    NoDuplicates(f) && forall k :: 0 <= k < |f| ==> |f[k]| == level && Below(f[k], n)
  }

  /** No recorded combination contains another. */
  ghost predicate Antichain(u: seq<AttrList>) {
    forall i, j :: 0 <= i < |u| && 0 <= j < |u| && i != j ==> !SupersetOf(u[i], u[j])
  }

  /** The recorded combinations at level `level`: an antichain of non-empty
      lists of at most `level` attributes below n. */
  ghost predicate UniquesOk(u: seq<AttrList>, level: nat, n: nat) {
    Antichain(u) && forall k :: 0 <= k < |u| ==> 0 < |u[k]| <= level && Below(u[k], n)
  }

  // ----- the unary phase -------------------------------------------------

  /** The unary phase over attributes 0 .. a-1: an attribute whose column is
      unique is recorded, every other one joins the frontier. */
  function UnaryPhase(unary: nat -> bool, a: nat): (s: State)
    ensures |s.uniques| + |s.frontier| == a
  {
    if a == 0 then State([], [])
    else
      var s := UnaryPhase(unary, a - 1);
      if unary(a - 1) then State(s.uniques + [Single(a - 1)], s.frontier)
      else State(s.uniques, s.frontier + [Single(a - 1)])
  }

  /** What the unary phase over attributes 0 .. a-1 leaves: each attribute
      exactly once, as a recorded unique when its column is unique and on the
      frontier otherwise. */
  ghost predicate UnaryShape(s: State, unary: nat -> bool, a: nat) {
    && (forall b :: 0 <= b < a ==> (Single(b) in s.uniques <==> unary(b)))
    && (forall b :: 0 <= b < a ==> (Single(b) in s.frontier <==> !unary(b)))
    && (forall k :: 0 <= k < |s.uniques| ==> |s.uniques[k]| == 1 && s.uniques[k][0] < a)
    && (forall k :: 0 <= k < |s.frontier| ==> |s.frontier[k]| == 1 && s.frontier[k][0] < a)
    && NoDuplicates(s.uniques) && NoDuplicates(s.frontier)
  }

  /** Every list of the unary phase over 0 .. a-1 is a single attribute below a. */
  lemma {:induction false} UnaryPhaseBound(unary: nat -> bool, a: nat)
    ensures forall k :: 0 <= k < |UnaryPhase(unary, a).uniques| ==>
      |UnaryPhase(unary, a).uniques[k]| == 1 && UnaryPhase(unary, a).uniques[k][0] < a
    ensures forall k :: 0 <= k < |UnaryPhase(unary, a).frontier| ==>
      |UnaryPhase(unary, a).frontier[k]| == 1 && UnaryPhase(unary, a).frontier[k][0] < a
  {
    if a > 0 {
      UnaryPhaseBound(unary, a - 1);
    }
  }

  /** The unary phase records attribute b exactly when its column is unique
      and puts it on the frontier exactly when it is not. */
  lemma {:induction false} UnaryPhaseMembers(unary: nat -> bool, a: nat)
    ensures forall b :: 0 <= b < a ==> (Single(b) in UnaryPhase(unary, a).uniques <==> unary(b))
    ensures forall b :: 0 <= b < a ==> (Single(b) in UnaryPhase(unary, a).frontier <==> !unary(b))
  {
    if a > 0 {
      UnaryPhaseMembers(unary, a - 1);
      UnaryPhaseBound(unary, a - 1);
      var s := UnaryPhase(unary, a - 1);
      var l := Single(a - 1);
      assert l !in s.uniques && l !in s.frontier by {
        assert forall k :: 0 <= k < |s.uniques| ==> s.uniques[k][0] != l[0];
        assert forall k :: 0 <= k < |s.frontier| ==> s.frontier[k][0] != l[0];
      }
      forall b | 0 <= b < a - 1
        ensures Single(b) != l
      {
        assert Single(b)[0] != l[0];
      }
    }
  }

  /** The unary phase lists every attribute at most once. */
  lemma {:induction false} UnaryPhaseDistinct(unary: nat -> bool, a: nat)
    ensures NoDuplicates(UnaryPhase(unary, a).uniques) && NoDuplicates(UnaryPhase(unary, a).frontier)
  {
    if a > 0 {
      UnaryPhaseDistinct(unary, a - 1);
      UnaryPhaseBound(unary, a - 1);
      var s := UnaryPhase(unary, a - 1);
      var l := Single(a - 1);
      assert l !in s.uniques && l !in s.frontier by {
        assert forall k :: 0 <= k < |s.uniques| ==> s.uniques[k][0] != l[0];
        assert forall k :: 0 <= k < |s.frontier| ==> s.frontier[k][0] != l[0];
      }
    }
  }

  /** The unary phase sorts every attribute to the side its column test picks. */
  lemma UnaryPhaseMeaning(unary: nat -> bool, a: nat)
    ensures UnaryShape(UnaryPhase(unary, a), unary, a)
  {
    UnaryPhaseBound(unary, a);
    UnaryPhaseMembers(unary, a);
    UnaryPhaseDistinct(unary, a);
  }

  /** The unary phase leaves a level-1 frontier and level-1 uniques. */
  lemma UnaryPhaseShape(unary: nat -> bool, n: nat)
    ensures FrontierOk(UnaryPhase(unary, n).frontier, 1, n)
    ensures UniquesOk(UnaryPhase(unary, n).uniques, 1, n)
  {
    UnaryPhaseMeaning(unary, n);
    var u := UnaryPhase(unary, n).uniques;
    forall i, j | 0 <= i < |u| && 0 <= j < |u| && i != j
      ensures !SupersetOf(u[i], u[j])
    {
      assert u[j][0] != u[i][0];
      assert u[j][0] !in u[i];
    }
  }

  // ----- candidate generation --------------------------------------------

  /** isValidCandidate: scans the frontier for a list containing the candidate. */
  function IsValidCandidate(c: AttrList, f: seq<AttrList>): bool {
    if |f| == 0 then true
    else if SublistOf(c, f[0]) then false
    else IsValidCandidate(c, f[1..])
  }

  /** isValidCandidate rejects exactly the candidates that are a sublist of
      some frontier list. */
  lemma {:induction false} ValidCandidateMeaning(c: AttrList, f: seq<AttrList>)
    ensures IsValidCandidate(c, f) <==> forall k :: 0 <= k < |f| ==> !SublistOf(c, f[k])
  {
    if |f| > 0 && !SublistOf(c, f[0]) {
      ValidCandidateMeaning(c, f[1..]);
      assert forall k :: 1 <= k < |f| ==> f[k] == f[1..][k - 1];
    }
  }

  /** Frontier lists i < j share their prefix and their union passes the
      validity test. */
  ghost predicate Joinable(f: seq<AttrList>, i: int, j: int) {
    0 <= i < j < |f| && SamePrefixAs(f[i], f[j]) && IsValidCandidate(Union(f[i], f[j]), f)
  }

  /** c is the union of a joinable pair of frontier lists. */
  ghost predicate IsJoin(f: seq<AttrList>, c: AttrList) {
    exists i, j :: Joinable(f, i, j) && c == Union(f[i], f[j])
  }

  /** c is the union of two prefix-sharing frontier lists i < j. */
  ghost predicate PrefixJoin(f: seq<AttrList>, c: AttrList) {
    exists i, j :: 0 <= i < j < |f| && SamePrefixAs(f[i], f[j]) && c == Union(f[i], f[j])
  }

  /** The inner loop of generateCandidates: the joins of f[i] with f[j] for
      j from `from` on. */
  function JoinsWith(f: seq<AttrList>, i: nat, from: nat): (cs: seq<AttrList>)
    requires i < from
    decreases |f| - from
  {
    if from >= |f| then []
    else
      var rest := JoinsWith(f, i, from + 1);
      if SamePrefixAs(f[i], f[from]) && IsValidCandidate(Union(f[i], f[from]), f) then
        [Union(f[i], f[from])] + rest
      else
        rest
  }

  /** Every join of the inner loop is the union of a joinable pair. */
  lemma {:induction false} JoinsWithSound(f: seq<AttrList>, i: nat, from: nat)
    requires i < from
    ensures forall c :: c in JoinsWith(f, i, from) ==> IsJoin(f, c)
    decreases |f| - from
  {
    if from < |f| {
      JoinsWithSound(f, i, from + 1);
      if SamePrefixAs(f[i], f[from]) && IsValidCandidate(Union(f[i], f[from]), f) {
        assert Joinable(f, i, from);
        assert IsJoin(f, Union(f[i], f[from]));
        var rest := JoinsWith(f, i, from + 1);
        assert forall c :: c in [Union(f[i], f[from])] + rest <==> c == Union(f[i], f[from]) || c in rest;
      }
    }
  }

  /** The inner loop yields the join of f[i] with every joinable f[j], j >= from. */
  lemma {:induction false} JoinsWithComplete(f: seq<AttrList>, i: nat, from: nat)
    requires i < from
    ensures forall j :: from <= j && Joinable(f, i, j) ==> Union(f[i], f[j]) in JoinsWith(f, i, from)
    decreases |f| - from
  {
    if from < |f| {
      JoinsWithComplete(f, i, from + 1);
    }
  }

  /** The inner loop yields exactly the joins of f[i] with the joinable f[j],
      j >= from. */
  lemma JoinsWithMeaning(f: seq<AttrList>, i: nat, from: nat)
    requires i < from
    ensures forall c :: c in JoinsWith(f, i, from) ==> IsJoin(f, c)
    ensures forall j :: from <= j && Joinable(f, i, j) ==> Union(f[i], f[j]) in JoinsWith(f, i, from)
  {
    JoinsWithSound(f, i, from);
    JoinsWithComplete(f, i, from);
  }

  /** The outer loop of generateCandidates, from frontier index i on. */
  function Joins(f: seq<AttrList>, i: nat): (cs: seq<AttrList>)
    decreases |f| - i
  {
    if i >= |f| then [] else JoinsWith(f, i, i + 1) + Joins(f, i + 1)
  }

  /** The outer loop yields exactly the joins of the joinable pairs whose
      first index is at least i. */
  lemma {:induction false} JoinsMeaning(f: seq<AttrList>, i: nat)
    ensures forall c :: c in Joins(f, i) ==> IsJoin(f, c)
    ensures forall i', j :: i <= i' && Joinable(f, i', j) ==> Union(f[i'], f[j]) in Joins(f, i)
    decreases |f| - i
  {
    if i < |f| {
      var here, rest := JoinsWith(f, i, i + 1), Joins(f, i + 1);
      JoinsWithMeaning(f, i, i + 1);
      JoinsMeaning(f, i + 1);
      assert forall c :: c in here + rest <==> c in here || c in rest;
      forall i', j | i <= i' && Joinable(f, i', j)
        ensures Union(f[i'], f[j]) in here + rest
      {
        if i' == i {
          assert Union(f[i'], f[j]) in here;
        } else {
          assert Union(f[i'], f[j]) in rest;
        }
      }
    }
  }

  /** generateCandidates: the set of all valid joins, in order of first
      generation. */
  function GenerateCandidates(f: seq<AttrList>): (cs: seq<AttrList>)
    ensures NoDuplicates(cs)
  {
    Distinct(Joins(f, 0))
  }

  /** The candidates are exactly the unions of the joinable frontier pairs. */
  lemma CandidatesMeaning(f: seq<AttrList>)
    ensures forall c :: c in GenerateCandidates(f) ==> IsJoin(f, c)
    ensures forall i, j :: Joinable(f, i, j) ==> Union(f[i], f[j]) in GenerateCandidates(f)
  {
    JoinsMeaning(f, 0);
  }

  /** The validity test never rejects anything: a join of two different
      frontier lists of one level is one attribute longer than every frontier
      list, so it cannot be a sublist of one. */
  lemma CandidatesAlwaysValid(f: seq<AttrList>, level: nat, n: nat, i: nat, j: nat)
    requires FrontierOk(f, level, n) && i < j < |f| && SamePrefixAs(f[i], f[j])
    ensures IsValidCandidate(Union(f[i], f[j]), f)
  {
    var c := Union(f[i], f[j]);
    JoinExtends(f[i], f[j]);
    ValidCandidateMeaning(c, f);
    forall k | 0 <= k < |f|
      ensures !SublistOf(c, f[k])
    {
      SublistSize(c, f[k]);
    }
  }

  /** The candidates of a level-`level` frontier are different lists of
      level + 1 attributes below n. */
  lemma CandidatesShape(f: seq<AttrList>, level: nat, n: nat)
    requires FrontierOk(f, level, n)
    ensures FrontierOk(GenerateCandidates(f), level + 1, n)
  {
    var cs := GenerateCandidates(f);
    CandidatesMeaning(f);
    forall k | 0 <= k < |cs|
      ensures |cs[k]| == level + 1 && Below(cs[k], n)
    {
      assert cs[k] in cs;
      assert IsJoin(f, cs[k]);
      var i, j :| Joinable(f, i, j) && cs[k] == Union(f[i], f[j]);
      JoinExtends(f[i], f[j]);
      UnionBelow(f[i], f[j], n);
    }
  }

  /** On a frontier, the candidates are exactly the unions of two
      prefix-sharing frontier lists. */
  lemma CandidatesExact(f: seq<AttrList>, level: nat, n: nat)
    requires FrontierOk(f, level, n)
    ensures forall c :: c in GenerateCandidates(f) <==> PrefixJoin(f, c)
  {
    CandidatesMeaning(f);
    forall c | PrefixJoin(f, c)
      ensures c in GenerateCandidates(f)
    {
      var i, j :| 0 <= i < j < |f| && SamePrefixAs(f[i], f[j]) && c == Union(f[i], f[j]);
      CandidatesAlwaysValid(f, level, n, i, j);
      assert Joinable(f, i, j);
    }
  }

  // ----- one level -------------------------------------------------------

  /** isMinimal: scans the recorded combinations for one the candidate contains. */
  function IsMinimal(c: AttrList, uniques: seq<AttrList>): bool {
    if |uniques| == 0 then true
    else if SupersetOf(c, uniques[0]) then false
    else IsMinimal(c, uniques[1..])
  }

  /** isMinimal rejects exactly the candidates that contain a recorded
      combination. */
  lemma {:induction false} MinimalMeaning(c: AttrList, uniques: seq<AttrList>)
    ensures IsMinimal(c, uniques) <==> forall k :: 0 <= k < |uniques| ==> !SupersetOf(c, uniques[k])
  {
    if |uniques| > 0 && !SupersetOf(c, uniques[0]) {
      MinimalMeaning(c, uniques[1..]);
      assert forall k :: 1 <= k < |uniques| ==> uniques[k] == uniques[1..][k - 1];
    }
  }

  /** The branch the level loop takes for candidate c. */
  function Classify(unique: AttrList -> bool, c: AttrList, uniques: seq<AttrList>): Outcome {
    if unique(c) then (if IsMinimal(c, uniques) then Recorded else NonMinimal) else NonUnique
  }

  /** The body of the candidate loop: record, drop, or keep for the next level. */
  function Step(unique: AttrList -> bool, c: AttrList, s: State): State {
    match Classify(unique, c, s.uniques)
    case Recorded => State(s.uniques + [c], s.frontier)
    case NonMinimal => s
    case NonUnique => State(s.uniques, s.frontier + [c])
  }

  /** The non-unique candidates, in order. */
  function NonUniques(unique: AttrList -> bool, cands: seq<AttrList>): (r: seq<AttrList>)
    ensures |r| <= |cands|
  {
    if |cands| == 0 then []
    else
      var rest := NonUniques(unique, cands[1..]);
      if !unique(cands[0]) then [cands[0]] + rest else rest
  }

  /** NonUniques keeps exactly the candidates that fail the test, without
      repeating any. */
  lemma {:induction false} NonUniquesMeaning(unique: AttrList -> bool, cands: seq<AttrList>)
    ensures forall c :: c in NonUniques(unique, cands) <==> c in cands && !unique(c)
    ensures NoDuplicates(cands) ==> NoDuplicates(NonUniques(unique, cands))
  {
    if |cands| > 0 {
      NonUniquesMeaning(unique, cands[1..]);
      assert forall c :: c in cands <==> c == cands[0] || c in cands[1..];
      assert NoDuplicates(cands) ==> cands[0] !in cands[1..] && NoDuplicates(cands[1..]) by {
        assert forall k :: 0 <= k < |cands[1..]| ==> cands[1..][k] == cands[k + 1];
      }
    }
  }

  /** The unique candidates that contain no combination of `uniques`, in order. */
  function Recordable(unique: AttrList -> bool, cands: seq<AttrList>, uniques: seq<AttrList>): (r: seq<AttrList>)
    ensures |r| <= |cands|
  {
    if |cands| == 0 then []
    else
      var rest := Recordable(unique, cands[1..], uniques);
      if unique(cands[0]) && IsMinimal(cands[0], uniques) then [cands[0]] + rest else rest
  }

  /** Recordable keeps exactly the unique candidates that are minimal with
      respect to `uniques`, without repeating any. */
  lemma {:induction false} RecordableMeaning(unique: AttrList -> bool, cands: seq<AttrList>, uniques: seq<AttrList>)
    ensures forall c :: c in Recordable(unique, cands, uniques) <==> c in cands && unique(c) && IsMinimal(c, uniques)
    ensures NoDuplicates(cands) ==> NoDuplicates(Recordable(unique, cands, uniques))
  {
    if |cands| > 0 {
      RecordableMeaning(unique, cands[1..], uniques);
      assert forall c :: c in cands <==> c == cands[0] || c in cands[1..];
      assert NoDuplicates(cands) ==> cands[0] !in cands[1..] && NoDuplicates(cands[1..]) by {
        assert forall k :: 0 <= k < |cands[1..]| ==> cands[1..][k] == cands[k + 1];
      }
    }
  }

  /** The candidate loop of one level, from the state s on. */
  function Process(unique: AttrList -> bool, cands: seq<AttrList>, s: State): (r: State)
    decreases |cands|
  {
    if |cands| == 0 then s
    else Process(unique, cands[1..], Step(unique, cands[0], s))
  }

  /** The loop carries exactly the non-unique candidates, in order, to the
      next frontier. */
  lemma {:induction false} ProcessFrontier(unique: AttrList -> bool, cands: seq<AttrList>, s: State)
    ensures Process(unique, cands, s).frontier == s.frontier + NonUniques(unique, cands)
  {
    if |cands| > 0 {
      var c, tail := cands[0], cands[1..];
      var next := Step(unique, c, s);
      ProcessFrontier(unique, tail, next);
      if unique(c) {
        assert next.frontier == s.frontier;
        assert NonUniques(unique, cands) == NonUniques(unique, tail);
      } else {
        assert next.frontier == s.frontier + [c];
        assert NonUniques(unique, cands) == [c] + NonUniques(unique, tail);
      }
    }
  }

  /** Adding a different combination of the candidate's own size does not
      change whether the candidate is minimal. */
  lemma MinimalAppend(c: AttrList, uniques: seq<AttrList>, u: AttrList)
    requires |u| == |c| && u != c
    ensures IsMinimal(c, uniques + [u]) == IsMinimal(c, uniques)
  {
    MinimalMeaning(c, uniques);
    MinimalMeaning(c, uniques + [u]);
    SameSizeSuperset(c, u);
    assert forall k :: 0 <= k < |uniques| ==> (uniques + [u])[k] == uniques[k];
  }

  /** Recordable is unaffected by recording a different candidate of the same size. */
  lemma {:induction false} RecordableAppend(unique: AttrList -> bool, cands: seq<AttrList>, uniques: seq<AttrList>, u: AttrList)
    requires u !in cands && forall k :: 0 <= k < |cands| ==> |cands[k]| == |u|
    ensures Recordable(unique, cands, uniques + [u]) == Recordable(unique, cands, uniques)
  {
    if |cands| > 0 {
      MinimalAppend(cands[0], uniques, u);
      assert forall k :: 0 <= k < |cands[1..]| ==> cands[1..][k] == cands[k + 1];
      RecordableAppend(unique, cands[1..], uniques, u);
    }
  }

  /** Recordable unfolded once. */
  lemma RecordableCons(unique: AttrList -> bool, cands: seq<AttrList>, uniques: seq<AttrList>)
    requires |cands| > 0
    ensures Recordable(unique, cands, uniques) ==
      (if unique(cands[0]) && IsMinimal(cands[0], uniques) then [cands[0]] else []) + Recordable(unique, cands[1..], uniques)
  {
  }

  /** Candidates of one size that differ are never supersets of each other, so
      the loop records exactly the unique candidates that are minimal with
      respect to the combinations recorded before the level. */
  lemma {:induction false} ProcessRecords(unique: AttrList -> bool, cands: seq<AttrList>, s: State, m: nat)
    requires NoDuplicates(cands) && forall k :: 0 <= k < |cands| ==> |cands[k]| == m
    ensures Process(unique, cands, s).uniques == s.uniques + Recordable(unique, cands, s.uniques)
  {
    if |cands| > 0 {
      var c, tail := cands[0], cands[1..];
      assert NoDuplicates(tail) && c !in tail && forall k :: 0 <= k < |tail| ==> |tail[k]| == m by {
        assert forall k :: 0 <= k < |tail| ==> tail[k] == cands[k + 1];
      }
      var next := Step(unique, c, s);
      ProcessRecords(unique, tail, next, m);
      RecordableCons(unique, cands, s.uniques);
      var rest := Recordable(unique, tail, s.uniques);
      if unique(c) && IsMinimal(c, s.uniques) {
        RecordableAppend(unique, tail, s.uniques, c);
        assert s.uniques + [c] + rest == s.uniques + ([c] + rest);
      }
    }
  }

  /** One iteration of the level loop. */
  function Level(unique: AttrList -> bool, s: State): State {
    Process(unique, GenerateCandidates(s.frontier), State(s.uniques, []))
  }

  /** On a frontier, one level appends the recordable candidates to the
      recorded combinations and makes the non-unique candidates the next
      frontier. */
  lemma LevelMeaning(unique: AttrList -> bool, s: State, level: nat, n: nat)
    requires FrontierOk(s.frontier, level, n)
    ensures Level(unique, s).frontier == NonUniques(unique, GenerateCandidates(s.frontier))
    ensures Level(unique, s).uniques == s.uniques + Recordable(unique, GenerateCandidates(s.frontier), s.uniques)
  {
    var cands := GenerateCandidates(s.frontier);
    ProcessFrontier(unique, cands, State(s.uniques, []));
    CandidatesShape(s.frontier, level, n);
    ProcessRecords(unique, cands, State(s.uniques, []), level + 1);
  }

  /** Each candidate meets exactly one outcome: recorded when it is unique and
      contains no combination recorded before the level, carried to the next
      frontier when it is not unique, dropped otherwise. */
  lemma LevelOutcome(unique: AttrList -> bool, s: State, level: nat, n: nat)
    requires FrontierOk(s.frontier, level, n)
    ensures s.uniques <= Level(unique, s).uniques
    ensures forall c :: c in GenerateCandidates(s.frontier) ==>
      (c in Level(unique, s).uniques[|s.uniques|..] <==> Classify(unique, c, s.uniques) == Recorded) &&
      (c in Level(unique, s).frontier <==> Classify(unique, c, s.uniques) == NonUnique)
  {
    var cands := GenerateCandidates(s.frontier);
    LevelMeaning(unique, s, level, n);
    RecordableMeaning(unique, cands, s.uniques);
    NonUniquesMeaning(unique, cands);
    assert Level(unique, s).uniques[|s.uniques|..] == Recordable(unique, cands, s.uniques);
  }

  /** A combination with fewer attributes than another is not its superset. */
  lemma SmallerNotSuperset(u: AttrList, c: AttrList)
    requires |u| < |c|
    ensures !SupersetOf(u, c)
  {
    SublistSize(c, u);
  }

  /** The next frontier is a frontier of the next level. */
  lemma LevelFrontier(unique: AttrList -> bool, s: State, level: nat, n: nat)
    requires FrontierOk(s.frontier, level, n)
    ensures FrontierOk(Level(unique, s).frontier, level + 1, n)
  {
    var cands := GenerateCandidates(s.frontier);
    LevelMeaning(unique, s, level, n);
    CandidatesShape(s.frontier, level, n);
    NonUniquesMeaning(unique, cands);
    var f := Level(unique, s).frontier;
    forall k | 0 <= k < |f|
      ensures |f[k]| == level + 1 && Below(f[k], n)
    {
      assert f[k] in f;
      var i :| 0 <= i < |cands| && cands[i] == f[k];
    }
  }

  /** The combinations one level records are unique candidates of the next size. */
  lemma LevelRecords(unique: AttrList -> bool, s: State, level: nat, n: nat)
    requires FrontierOk(s.frontier, level, n)
    ensures s.uniques <= Level(unique, s).uniques
    ensures forall k :: |s.uniques| <= k < |Level(unique, s).uniques| ==>
      |Level(unique, s).uniques[k]| == level + 1 && unique(Level(unique, s).uniques[k])
  {
    var cands := GenerateCandidates(s.frontier);
    LevelMeaning(unique, s, level, n);
    CandidatesShape(s.frontier, level, n);
    RecordableMeaning(unique, cands, s.uniques);
    var u, added := Level(unique, s).uniques, Recordable(unique, cands, s.uniques);
    forall k | |s.uniques| <= k < |u|
      ensures |u[k]| == level + 1 && unique(u[k])
    {
      assert u[k] == added[k - |s.uniques|];
      assert u[k] in added;
      var i :| 0 <= i < |cands| && cands[i] == u[k];
    }
  }

  /** Appending minimal combinations of the next size to the recorded ones,
      none containing another, keeps them an antichain. */
  lemma AntichainExtend(u: seq<AttrList>, added: seq<AttrList>, level: nat)
    requires Antichain(u) && forall k :: 0 <= k < |u| ==> |u[k]| <= level
    requires NoDuplicates(added) && forall k :: 0 <= k < |added| ==> |added[k]| == level + 1
    requires forall k, i :: 0 <= k < |added| && 0 <= i < |u| ==> !SupersetOf(added[k], u[i])
    ensures Antichain(u + added)
  {
    var all := u + added;
    forall i, j | 0 <= i < |all| && 0 <= j < |all| && i != j
      ensures !SupersetOf(all[i], all[j])
    {
      if i < |u| && j < |u| {
        assert all[i] == u[i] && all[j] == u[j];
      } else if i >= |u| && j >= |u| {
        assert all[i] == added[i - |u|] && all[j] == added[j - |u|];
        SameSizeSuperset(all[i], all[j]);
      } else if i >= |u| {
        assert all[i] == added[i - |u|] && all[j] == u[j];
      } else {
        assert all[i] == u[i] && all[j] == added[j - |u|];
        SmallerNotSuperset(u[i], added[j - |u|]);
      }
    }
  }

  /** Appending different combinations of the next size, none containing a
      recorded one, turns level-`level` uniques into level-(level + 1) uniques. */
  lemma UniquesExtend(u: seq<AttrList>, added: seq<AttrList>, level: nat, n: nat)
    requires UniquesOk(u, level, n)
    requires NoDuplicates(added) && forall k :: 0 <= k < |added| ==> |added[k]| == level + 1 && Below(added[k], n)
    requires forall k, i :: 0 <= k < |added| && 0 <= i < |u| ==> !SupersetOf(added[k], u[i])
    ensures UniquesOk(u + added, level + 1, n)
  {
    AntichainExtend(u, added, level);
    var all := u + added;
    forall k | 0 <= k < |all|
      ensures 0 < |all[k]| <= level + 1 && Below(all[k], n)
    {
      if k < |u| {
        assert all[k] == u[k];
      } else {
        assert all[k] == added[k - |u|];
      }
    }
  }

  /** One level keeps the recorded combinations an antichain, one level higher. */
  lemma LevelUniques(unique: AttrList -> bool, s: State, level: nat, n: nat)
    requires FrontierOk(s.frontier, level, n) && UniquesOk(s.uniques, level, n)
    ensures UniquesOk(Level(unique, s).uniques, level + 1, n)
  {
    var cands := GenerateCandidates(s.frontier);
    LevelMeaning(unique, s, level, n);
    CandidatesShape(s.frontier, level, n);
    RecordableMeaning(unique, cands, s.uniques);
    var u, added := s.uniques, Recordable(unique, cands, s.uniques);
    forall k | 0 <= k < |added|
      ensures |added[k]| == level + 1 && Below(added[k], n)
      ensures forall i :: 0 <= i < |u| ==> !SupersetOf(added[k], u[i])
    {
      assert added[k] in added;
      var j :| 0 <= j < |cands| && cands[j] == added[k];
      MinimalMeaning(added[k], u);
    }
    UniquesExtend(u, added, level, n);
  }

  // ----- the level loop --------------------------------------------------

  /** The level loop from a level-`level` state: repeat Level while the
      frontier is not empty. */
  function Run(unique: AttrList -> bool, n: nat, s: State, level: nat): State
    requires FrontierOk(s.frontier, level, n)
    decreases n + 1 - level
  {
    if |s.frontier| == 0 then s
    else
      assert level <= n by {
        SizeBound(s.frontier[0], n);
      }
      LevelFrontier(unique, s, level, n);
      Run(unique, n, Level(unique, s), level + 1)
  }

  /** The loop ends with an empty frontier and only appends to the recorded
      combinations, each new one unique and larger than the starting level. */
  lemma {:induction false} RunGrows(unique: AttrList -> bool, n: nat, s: State, level: nat)
    requires FrontierOk(s.frontier, level, n)
    ensures Run(unique, n, s, level).frontier == []
    ensures s.uniques <= Run(unique, n, s, level).uniques
    ensures forall k :: |s.uniques| <= k < |Run(unique, n, s, level).uniques| ==>
      unique(Run(unique, n, s, level).uniques[k]) && |Run(unique, n, s, level).uniques[k]| > level
    decreases n + 1 - level
  {
    if |s.frontier| > 0 {
      SizeBound(s.frontier[0], n);
      var next := Level(unique, s);
      LevelFrontier(unique, s, level, n);
      LevelRecords(unique, s, level, n);
      RunGrows(unique, n, next, level + 1);
      var u := Run(unique, n, s, level).uniques;
      assert u == Run(unique, n, next, level + 1).uniques;
      forall k | |s.uniques| <= k < |u|
        ensures unique(u[k]) && |u[k]| > level
      {
        if k < |next.uniques| {
          assert u[k] == next.uniques[k];
        }
      }
    }
  }

  /** The loop keeps the recorded combinations an antichain of lists below n. */
  lemma {:induction false} RunInvariant(unique: AttrList -> bool, n: nat, s: State, level: nat)
    requires FrontierOk(s.frontier, level, n) && UniquesOk(s.uniques, level, n)
    ensures Antichain(Run(unique, n, s, level).uniques)
    ensures forall k :: 0 <= k < |Run(unique, n, s, level).uniques| ==> Below(Run(unique, n, s, level).uniques[k], n)
    decreases n + 1 - level
  {
    if |s.frontier| > 0 {
      SizeBound(s.frontier[0], n);
      var next := Level(unique, s);
      LevelFrontier(unique, s, level, n);
      LevelUniques(unique, s, level, n);
      assert Run(unique, n, s, level) == Run(unique, n, next, level + 1);
      RunInvariant(unique, n, next, level + 1);
    }
  }

  /** The whole search: the unary phase, then the level loop from level 1. */
  function Search(unary: nat -> bool, unique: AttrList -> bool, n: nat): (u: seq<AttrList>)
    ensures forall k :: 0 <= k < |u| ==> 0 < |u[k]| && Below(u[k], n)
    ensures forall k :: 0 <= k < |u| ==> (|u[k]| == 1 && unary(u[k][0])) || (|u[k]| > 1 && unique(u[k]))
    ensures forall a :: 0 <= a < n ==> (Single(a) in u <==> unary(a))
    ensures Antichain(u)
  {
    var s := UnaryPhase(unary, n);
    UnaryPhaseMeaning(unary, n);
    UnaryPhaseShape(unary, n);
    RunGrows(unique, n, s, 1);
    RunInvariant(unique, n, s, 1);
    var u := Run(unique, n, s, 1).uniques;
    assert forall k :: 0 <= k < |s.uniques| ==> u[k] == s.uniques[k];
    forall k | 0 <= k < |u|
      ensures 0 < |u[k]| && ((|u[k]| == 1 && unary(u[k][0])) || (|u[k]| > 1 && unique(u[k])))
    {
      if k < |s.uniques| {
        assert u[k] == Single(u[k][0]);
      }
    }
    forall a, k | 0 <= a < n && |s.uniques| <= k < |u|
      ensures u[k] != Single(a)
    {
      assert |u[k]| > 1;
    }
    forall a | 0 <= a < n && unary(a)
      ensures Single(a) in u
    {
      var k :| 0 <= k < |s.uniques| && s.uniques[k] == Single(a);
      assert u[k] == Single(a);
    }
    u
  }

  /** Two non-unique attributes a < b give the candidate [a, b] at level two. */
  lemma PairCandidate(unary: nat -> bool, n: nat, a: nat, b: nat)
    requires a < b < n && !unary(a) && !unary(b)
    ensures [a, b] in GenerateCandidates(UnaryPhase(unary, n).frontier)
  {
    var f := UnaryPhase(unary, n).frontier;
    UnaryPhaseMeaning(unary, n);
    UnaryPhaseShape(unary, n);
    CandidatesMeaning(f);
    var i :| 0 <= i < |f| && f[i] == Single(a);
    var j :| 0 <= j < |f| && f[j] == Single(b);
    JoinExtends(Single(a), Single(b));
    UnionCommutes(Single(a), Single(b));
    var pair: AttrList := [a, b];
    assert Union(Single(a), Single(b)) == pair;
    if i < j {
      CandidatesAlwaysValid(f, 1, n, i, j);
      assert Joinable(f, i, j);
    } else {
      CandidatesAlwaysValid(f, 1, n, j, i);
      assert Joinable(f, j, i);
    }
  }

  /** No unary unique is contained in a pair of non-unique attributes. */
  lemma PairMinimal(unary: nat -> bool, n: nat, a: nat, b: nat)
    requires a < b && !unary(a) && !unary(b)
    ensures IsMinimal([a, b], UnaryPhase(unary, n).uniques)
  {
    UnaryPhaseMeaning(unary, n);
    var u := UnaryPhase(unary, n).uniques;
    forall k | 0 <= k < |u|
      ensures !SupersetOf([a, b], u[k])
    {
      var d := u[k][0];
      assert u[k] == Single(d);
      assert d != a && d != b;
    }
    MinimalMeaning([a, b], u);
  }

  /** Completeness at level two: when neither of two attributes is unique on
      its own and the pair passes the test, the search records the pair. */
  lemma PairRecorded(unary: nat -> bool, unique: AttrList -> bool, n: nat, a: nat, b: nat)
    requires a < b < n && !unary(a) && !unary(b)
    requires unique([a, b])
    ensures [a, b] in Search(unary, unique, n)
  {
    var s := UnaryPhase(unary, n);
    UnaryPhaseMeaning(unary, n);
    UnaryPhaseShape(unary, n);
    PairCandidate(unary, n, a, b);
    PairMinimal(unary, n, a, b);
    LevelOutcome(unique, s, 1, n);
    var next := Level(unique, s);
    assert [a, b] in next.uniques[|s.uniques|..];
    LevelFrontier(unique, s, 1, n);
    var k :| |s.uniques| <= k < |next.uniques| && next.uniques[k] == [a, b];
    assert |s.frontier| > 0 by {
      assert Single(a) in s.frontier;
    }
    RunGrows(unique, n, next, 2);
    assert Run(unique, n, s, 1) == Run(unique, n, next, 2);
    assert Run(unique, n, s, 1).uniques[k] == [a, b];
  }
  // ----- completeness for a monotone test ----------------------------------

  /** A list containing a list that passes the test passes it too, as
      uniqueness of a column combination does. */
  ghost predicate Monotone(unique: AttrList -> bool) {
    forall c: AttrList, d: AttrList {:trigger SublistOf(c, d)} :: unique(c) && SublistOf(c, d) ==> unique(d)
  }

  /** The unary test decides a single attribute as the test decides the list
      holding it. */
  ghost predicate UnaryAgrees(unary: nat -> bool, unique: AttrList -> bool, n: nat) {
    forall a :: 0 <= a < n ==> unary(a) == unique(Single(a))
  }

  /** c passes the test and none of its non-empty proper sublists does. */
  ghost predicate MinimalUnique(unique: AttrList -> bool, c: AttrList) {
    0 < |c| && unique(c) && forall d: AttrList {:trigger SublistOf(d, c)} :: 0 < |d| && SublistOf(d, c) && d != c ==> !unique(d)
  }

  /** Every list of `level` attributes below n that fails the test is on the
      frontier. */
  ghost predicate FrontierComplete(unique: AttrList -> bool, f: seq<AttrList>, level: nat, n: nat) {
    forall c: AttrList {:trigger Below(c, n)} :: |c| == level && Below(c, n) && !unique(c) ==> c in f
  }

  /** Every recorded list passes the test. */
  ghost predicate AllPass(unique: AttrList -> bool, u: seq<AttrList>) {
    forall k :: 0 <= k < |u| ==> unique(u[k])
  }

  /** For a monotone test, the two parts whose join is a failing list fail
      too, so a complete frontier yields every failing list of the next size
      as a candidate and carries it to the next frontier. */
  lemma LevelFrontierComplete(unique: AttrList -> bool, s: State, level: nat, n: nat)
    requires Monotone(unique) && 1 <= level
    requires FrontierOk(s.frontier, level, n) && FrontierComplete(unique, s.frontier, level, n)
    ensures FrontierComplete(unique, Level(unique, s).frontier, level + 1, n)
  {
    var f := s.frontier;
    CandidatesExact(f, level, n);
    LevelOutcome(unique, s, level, n);
    forall c: AttrList | |c| == level + 1 && Below(c, n) && !unique(c)
      ensures c in Level(unique, s).frontier
    {
      JoinCandidate(unique, f, level, n, c);
    }
  }

  /** A list of level + 1 attributes whose two join parts fail the test is a
      candidate of a complete level-`level` frontier. */
  lemma JoinCandidate(unique: AttrList -> bool, f: seq<AttrList>, level: nat, n: nat, c: AttrList)
    requires Monotone(unique) && 1 <= level
    requires FrontierOk(f, level, n) && FrontierComplete(unique, f, level, n)
    requires |c| == level + 1 && Below(c, n)
    requires forall d: AttrList :: |d| == level && SublistOf(d, c) ==> !unique(d)
    ensures PrefixJoin(f, c)
  {
    var x, y := JoinParts(c);
    SublistBelow(x, c, n);
    SublistBelow(y, c, n);
    assert x in f && y in f;
    var i :| 0 <= i < |f| && f[i] == x;
    var j :| 0 <= j < |f| && f[j] == y;
    UnionCommutes(x, y);
    if i < j {
      assert SamePrefixAs(f[i], f[j]) && c == Union(f[i], f[j]);
    } else {
      assert SamePrefixAs(f[j], f[i]) && c == Union(f[j], f[i]);
    }
  }

  /** For a monotone test, a minimal unique list of level + 1 attributes is
      recorded at the level: its join parts fail, so it is a candidate, and
      no list recorded before it is contained in it. */
  lemma LevelRecordsMinimal(unique: AttrList -> bool, s: State, level: nat, n: nat, c: AttrList)
    requires Monotone(unique) && 1 <= level
    requires FrontierOk(s.frontier, level, n) && FrontierComplete(unique, s.frontier, level, n)
    requires UniquesOk(s.uniques, level, n) && AllPass(unique, s.uniques)
    requires |c| == level + 1 && Below(c, n) && MinimalUnique(unique, c)
    ensures c in Level(unique, s).uniques
  {
    JoinCandidate(unique, s.frontier, level, n, c);
    CandidatesExact(s.frontier, level, n);
    MinimalMeaning(c, s.uniques);
    assert IsMinimal(c, s.uniques) by {
      forall k | 0 <= k < |s.uniques|
        ensures !SupersetOf(c, s.uniques[k])
      {
        assert unique(s.uniques[k]) && 0 < |s.uniques[k]| < |c|;
      }
    }
    LevelOutcome(unique, s, level, n);
    var next := Level(unique, s).uniques;
    assert c in next[|s.uniques|..];
  }

  /** One level keeps every recorded list passing the test. */
  lemma LevelAllPass(unique: AttrList -> bool, s: State, level: nat, n: nat)
    requires FrontierOk(s.frontier, level, n) && AllPass(unique, s.uniques)
    ensures AllPass(unique, Level(unique, s).uniques)
  {
    LevelRecords(unique, s, level, n);
    var u := Level(unique, s).uniques;
    forall k | 0 <= k < |u|
      ensures unique(u[k])
    {
      if k < |s.uniques| {
        assert u[k] == s.uniques[k];
      }
    }
  }

  /** A list larger than the level whose sublists fail the test puts its
      first `level` attributes on a complete frontier. */
  lemma PrefixOnFrontier(unique: AttrList -> bool, f: seq<AttrList>, level: nat, n: nat, c: AttrList)
    requires 1 <= level && FrontierComplete(unique, f, level, n)
    requires level < |c| && Below(c, n) && MinimalUnique(unique, c)
    ensures |f| > 0
  {
    var p: AttrList := c[..level];
    assert SublistOf(p, c) by {
      forall i | 0 <= i < |p|
        ensures p[i] in c
      {
        assert p[i] == c[i];
      }
    }
    SublistBelow(p, c, n);
    assert p in f;
  }

  /** The invariant of the completeness proof at level `level`: the frontier
      holds every failing list of the level's size, and every recorded list
      passes the test. */
  ghost predicate CompleteAt(unique: AttrList -> bool, s: State, level: nat, n: nat) {
    && Monotone(unique) && 1 <= level
    && FrontierOk(s.frontier, level, n) && FrontierComplete(unique, s.frontier, level, n)
    && UniquesOk(s.uniques, level, n) && AllPass(unique, s.uniques)
  }

  /** One level of a non-empty frontier keeps the invariant, one level higher,
      and the loop continues from the level's result. */
  lemma LevelKeeps(unique: AttrList -> bool, n: nat, s: State, level: nat) returns (next: State)
    requires CompleteAt(unique, s, level, n) && |s.frontier| > 0
    ensures next == Level(unique, s) && CompleteAt(unique, next, level + 1, n)
    ensures Run(unique, n, s, level) == Run(unique, n, next, level + 1)
  {
    SizeBound(s.frontier[0], n);
    next := Level(unique, s);
    LevelFrontier(unique, s, level, n);
    LevelUniques(unique, s, level, n);
    LevelFrontierComplete(unique, s, level, n);
    LevelAllPass(unique, s, level, n);
  }

  /** A minimal unique list of level + 1 attributes, recorded at the level,
      stays recorded until the loop ends. */
  lemma RecordedAtLevel(unique: AttrList -> bool, n: nat, s: State, level: nat, c: AttrList)
    requires CompleteAt(unique, s, level, n) && |s.frontier| > 0
    requires |c| == level + 1 && Below(c, n) && MinimalUnique(unique, c)
    ensures c in Run(unique, n, s, level).uniques
  {
    var next := LevelKeeps(unique, n, s, level);
    LevelRecordsMinimal(unique, s, level, n, c);
    var k :| 0 <= k < |next.uniques| && next.uniques[k] == c;
    RunGrows(unique, n, next, level + 1);
    assert Run(unique, n, next, level + 1).uniques[k] == c;
  }

  /** For a monotone test, the level loop from a complete frontier records
      every minimal unique list larger than the starting level. */
  lemma {:induction false} RunComplete(unique: AttrList -> bool, n: nat, s: State, level: nat, c: AttrList)
    requires CompleteAt(unique, s, level, n)
    requires level < |c| && Below(c, n) && MinimalUnique(unique, c)
    ensures c in Run(unique, n, s, level).uniques
    decreases n + 1 - level
  {
    PrefixOnFrontier(unique, s.frontier, level, n, c);
    if |c| == level + 1 {
      RecordedAtLevel(unique, n, s, level, c);
    } else {
      SizeBound(c, n);
      var next := LevelKeeps(unique, n, s, level);
      RunComplete(unique, n, next, level + 1, c);
      assert c in Run(unique, n, next, level + 1).uniques;
    }
  }

  /** Completeness: for a monotone test that the unary test agrees with, the
      search finds every minimal unique list below the attribute count. */
  lemma SearchComplete(unary: nat -> bool, unique: AttrList -> bool, n: nat)
    requires Monotone(unique) && UnaryAgrees(unary, unique, n)
    ensures forall c: AttrList :: Below(c, n) && MinimalUnique(unique, c) ==> c in Search(unary, unique, n)
  {
    var s := UnaryPhase(unary, n);
    UnaryPhaseMeaning(unary, n);
    UnaryPhaseShape(unary, n);
    assert FrontierComplete(unique, s.frontier, 1, n) by {
      forall c: AttrList | |c| == 1 && Below(c, n) && !unique(c)
        ensures c in s.frontier
      {
        assert c == Single(c[0]);
      }
    }
    assert AllPass(unique, s.uniques) by {
      forall k | 0 <= k < |s.uniques|
        ensures unique(s.uniques[k])
      {
        assert s.uniques[k] == Single(s.uniques[k][0]);
      }
    }
    assert CompleteAt(unique, s, 1, n);
    var u := Search(unary, unique, n);
    forall c: AttrList | Below(c, n) && MinimalUnique(unique, c)
      ensures c in u
    {
      if |c| == 1 {
        assert c == Single(c[0]);
      } else {
        RunComplete(unique, n, s, 1, c);
      }
    }
  }

  /** A non-empty list that passes the test contains a minimal unique list. */
  lemma {:induction false} MinimalSublist(unique: AttrList -> bool, d: AttrList) returns (m: AttrList)
    requires 0 < |d| && unique(d)
    ensures SublistOf(m, d) && MinimalUnique(unique, m)
    decreases |d|
  {
    if MinimalUnique(unique, d) {
      m := d;
    } else {
      var e: AttrList :| 0 < |e| && SublistOf(e, d) && e != d && unique(e);
      SublistSize(e, d);
      if |e| == |d| {
        SameSizeSuperset(d, e);
      }
      m := MinimalSublist(unique, e);
      SublistTrans(m, e, d);
    }
  }

  /** Two different members of an antichain do not contain each other. */
  lemma AntichainApart(u: seq<AttrList>, x: AttrList, y: AttrList)
    requires Antichain(u) && x in u && y in u && x != y
    ensures !SublistOf(y, x)
  {
    var i :| 0 <= i < |u| && u[i] == x;
    var j :| 0 <= j < |u| && u[j] == y;
  }

  /** For a monotone test that the unary test agrees with, the search finds
      exactly the minimal unique lists below the attribute count. */
  lemma SearchExact(unary: nat -> bool, unique: AttrList -> bool, n: nat)
    requires Monotone(unique) && UnaryAgrees(unary, unique, n)
    ensures forall c: AttrList :: c in Search(unary, unique, n) <==> Below(c, n) && MinimalUnique(unique, c)
  {
    var u := Search(unary, unique, n);
    SearchComplete(unary, unique, n);
    forall c: AttrList | c in u
      ensures Below(c, n) && MinimalUnique(unique, c)
    {
      var k :| 0 <= k < |u| && u[k] == c;
      if |c| == 1 {
        assert c == Single(c[0]);
      }
      forall d: AttrList | 0 < |d| && SublistOf(d, c) && d != c
        ensures !unique(d)
      {
        if unique(d) {
          SublistSize(d, c);
          if |d| == |c| {
            SameSizeSuperset(c, d);
          }
          var m := MinimalSublist(unique, d);
          SublistTrans(m, d, c);
          SublistSize(m, d);
          SublistBelow(m, c, n);
          AntichainApart(u, c, m);
          assert false;
        }
      }
    }
  }
}
