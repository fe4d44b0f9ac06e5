# Data-integration algorithms in Dafny

This project models the six self-contained algorithms of the DataIntegration_Assignment
repository and proves what they compute:

- **PositionListIndex** (`position_list_index.dfy`) is the stripped partition of a relation's
  rows.
  - It groups rows by equal value and keeps only groups of two or more.
  - It builds an inverse row-to-cluster index, with -1 for rows in no cluster.
  - It refines one index by another (`intersect`).
- **UCCProfiler** is the level-wise search for minimal unique column combinations (UCCs):
  - `attribute_list.dfy` holds the assumed meaning of the unseen `AttributeList`;
  - `merge_columns.dfy` holds `mergeColumns`;
  - `ucc_search.dfy` holds the search as a state machine over levels;
  - `ucc_order.dfy` holds the final sort;
  - `ucc_profiler.dfy` instantiates the search with the profiler's uniqueness tests.
- **TransitiveClosure** (`transitive_closure.dfy`) works on the duplicate pairs of one relation.
  - It fills a symmetric adjacency matrix.
  - It runs Warshall's algorithm in place.
  - It collects both orientations of every connected pair.
- **Levenshtein** (`levenshtein.dfy`) covers two distances:
  - the Levenshtein distance;
  - the restricted Damerau–Levenshtein distance (optimal string alignment).
  Each is computed on strings with the full matrix and on token arrays with rolling lines.
  The similarity is `1 - d / max(len)`.
- **Jaccard** (`jaccard.dfy`) computes the similarity of two token arrays, under set semantics
  and under bag semantics.
- **INDProfiler** (`ind_profiler.dfy`) is the unary inclusion-dependency check.
  - It normalises values: `trim` followed by the quote-stripping `replaceAll`.
  - It builds one hashed value set per relation name and attribute name.
  - It compares every ordered pair of columns.
  - It throws when n-ary discovery is requested.

`sequences.dfy` holds sequence helpers.
`nullable.dfy` models Java references that may be null and the exceptions a call may throw.

Every operation is stated against an independent definition and connected to it by a lemma:

| operation | independent definition |
|---|---|
| index clusters | the partition of rows by equal value |
| inverse | membership in a cluster |
| refinement | "same cluster here and same id there" |
| UCC tests | "no two records agree on the projection" |
| UCC search | the minimal UCCs: UCCs with no non-empty proper sublist that is a UCC |
| Warshall | reachability along walks |
| rolling lines | the full table |
| map-based bag counting | multisets |
| IND report | containment of the hashed sets |

Java exceptions are results: `Nulls.Outcome` is either `Success` or `Thrown(failure)`. A Java `String[]` is `Nulls.StringArray`: the array and each element may be null.
A Java `double` quotient is a real number or `NaN` (`Jaccard.Double`).

Paths below are relative to the repository root.

## Model

| member | source | states |
|---|---|---|
| PositionListIndex.SelectMeaning | src/main/java/de/di/data_profiling/structures/PositionListIndex.java:34-35 | the rows collected for value v are exactly the rows of the input that carry v, in increasing order when the input is |
| PositionListIndex.KeysOfMeaning | src/main/java/de/di/data_profiling/structures/PositionListIndex.java:32-37 | the keys of the grouping map hold every row's value once and nothing else |
| PositionListIndex.RefineMeaning | src/main/java/de/di/data_profiling/structures/PositionListIndex.java:31-38 | every kept group is the group of one key, every key with more than one row yields its group, and different keys give different groups |
| PositionListIndex.RefineTogether | src/main/java/de/di/data_profiling/structures/PositionListIndex.java:32-37 | two different rows of the input end in one kept group iff they carry the same key |
| PositionListIndex.ClustersPartition | src/main/java/de/di/data_profiling/structures/PositionListIndex.java:31-38 | the clusters are a stripped partition of the rows: each cluster has more than one row and is increasing, no row is in two clusters, and two different rows share a cluster iff their values are equal |
| PositionListIndex.Inverted | src/main/java/de/di/data_profiling/structures/PositionListIndex.java:40-49 | the inverse has relationLength entries; an entry is -1 iff no cluster holds the row; otherwise it is the index of the last cluster holding the row |
| PositionListIndex.InvertedIsInverse | src/main/java/de/di/data_profiling/structures/PositionListIndex.java:40-49 | over disjoint clusters, inverted[r] == k iff row r is in cluster k, and every entry lies between -1 and the number of clusters minus one |
| PositionListIndex.FromValues | src/main/java/de/di/data_profiling/structures/PositionListIndex.java:19-23 | the constructor from values keeps the attribute list, and its relationLength is the number of values |
| PositionListIndex.FromValuesPartition | src/main/java/de/di/data_profiling/structures/PositionListIndex.java:19-23 | an index built from values is a stripped partition of those values with a consistent inverse |
| PositionListIndex.FromClusters | src/main/java/de/di/data_profiling/structures/PositionListIndex.java:25-29 | the constructor from clusters keeps the attributes, the clusters and the relation length, and gives a consistent index for stripped clusters |
| PositionListIndex.UniqueIffDistinct | src/main/java/de/di/data_profiling/structures/PositionListIndex.java:51-53 | for any partition of a column, isUnique holds iff all values of the column are pairwise different |
| PositionListIndex.FromValuesUnique | src/main/java/de/di/data_profiling/structures/PositionListIndex.java:51-53 | an index built from values is unique iff the values are pairwise different |
| PositionListIndex.SplitClusterShape | src/main/java/de/di/data_profiling/structures/PositionListIndex.java:78-91 | the parts of one cluster each have more than one row, are disjoint, lie inside that cluster, and are increasing when it is |
| PositionListIndex.SplitTogether | src/main/java/de/di/data_profiling/structures/PositionListIndex.java:78-91 | two different rows share a part of cluster c iff both are in c and carry the same id, other than -1, in the other index |
| PositionListIndex.IntersectExact | src/main/java/de/di/data_profiling/structures/PositionListIndex.java:73-91 | two different rows share a cluster of the intersection iff they share a cluster of this index and the same id, other than -1, in the other |
| PositionListIndex.IntersectNonTrivial | src/main/java/de/di/data_profiling/structures/PositionListIndex.java:86-91 | every cluster of the intersection has more than one row |
| PositionListIndex.IntersectDisjoint | src/main/java/de/di/data_profiling/structures/PositionListIndex.java:66-95 | the clusters of the intersection are disjoint when those of this index are |
| PositionListIndex.IntersectStripped | src/main/java/de/di/data_profiling/structures/PositionListIndex.java:66-95 | intersecting keeps a stripped cluster list stripped |
| PositionListIndex.Origin | src/main/java/de/di/data_profiling/structures/PositionListIndex.java:73-91 | every cluster of the intersection lies inside some cluster of this index |
| PositionListIndex.Intersect | src/main/java/de/di/data_profiling/structures/PositionListIndex.java:59-64 | intersect gives the union of both attribute lists and keeps this index's relationLength; each result cluster has more than one row and lies in a cluster of this index; a unique index stays unique; a consistent index stays consistent |
| PositionListIndex.IntersectMatchesCombinedValues | src/main/java/de/di/data_profiling/structures/PositionListIndex.java:59-95 | intersecting the index of column a with that of column b gives the partition of the value pairs (a[r], b[r]) |
| AttributeLists.Union | src/main/java/de/di/data_profiling/UCCProfiler.java:100-101 | (assumed meaning of the unseen union) the result contains exactly the attributes of both lists, sorted and without repeats |
| AttributeLists.UnionCommutes | src/main/java/de/di/data_profiling/UCCProfiler.java:100-101 | the candidate does not depend on the order of the two joined lists |
| AttributeLists.JoinExtends | src/main/java/de/di/data_profiling/UCCProfiler.java:100-101 | joining two different lists with a common prefix adds the larger last attribute to the other list, so the size grows by exactly one |
| AttributeLists.SameSizeSuperset | src/main/java/de/di/data_profiling/UCCProfiler.java:121-128 | a list that contains another of the same size equals it |
| MergeColumns.Field | src/main/java/de/di/data_profiling/UCCProfiler.java:160-166 | the appended value is the record's value at the index, or "N/A" when the index is out of range |
| MergeColumns.Project | src/main/java/de/di/data_profiling/UCCProfiler.java:158-166 | the projection holds one field per attribute, in attribute order |
| MergeColumns.Appended | src/main/java/de/di/data_profiling/UCCProfiler.java:156-167 | the buffer before the final deletion is empty iff there are no attributes, and otherwise ends with a comma |
| MergeColumns.AppendedIsJoin | src/main/java/de/di/data_profiling/UCCProfiler.java:156-171 | deleting the last character of the buffer leaves the projected fields joined by "," |
| MergeColumns.MergeValue | src/main/java/de/di/data_profiling/UCCProfiler.java:156-172 | a record's merged string is its projected fields joined by "," |
| MergeColumns.Merge | src/main/java/de/di/data_profiling/UCCProfiler.java:151-176 | mergeColumns returns one string per record, each the record's projected fields joined by "," |
| MergeColumns.SplitJoin | src/main/java/de/di/data_profiling/UCCProfiler.java:156-172 | splitting a join of comma-free fields at the commas recovers the fields |
| MergeColumns.JoinInjective | src/main/java/de/di/data_profiling/UCCProfiler.java:156-172 | two comma-free field lists of equal length with the same join are equal |
| MergeColumns.MergeExact | src/main/java/de/di/data_profiling/UCCProfiler.java:151-176 | for comma-free projections, two records have equal merged strings iff they have equal projections |
| MergeColumns.MergeCollision | src/main/java/de/di/data_profiling/UCCProfiler.java:161-172 | for all x, y and z, the records (x+","+y, z) and (x, y+","+z) have different projections but equal merged strings |
| UccOrder.CompareAttributes | src/main/java/de/di/data_profiling/UCCProfiler.java:73-79 | the attribute-by-attribute comparison of equal-size lists is zero iff the lists are equal |
| UccOrder.CompareAttributesLess | src/main/java/de/di/data_profiling/UCCProfiler.java:73-79 | the attribute-by-attribute comparison is negative iff the first list is lexicographically smaller |
| UccOrder.Compare | src/main/java/de/di/data_profiling/UCCProfiler.java:68-80 | the comparator is negative when the first list is shorter, positive when it is longer, and zero iff the lists are equal |
| UccOrder.CompareMeaning | src/main/java/de/di/data_profiling/UCCProfiler.java:68-80 | the comparator is negative iff the first list is shorter, or of equal size and lexicographically smaller |
| UccOrder.CompareAntisymmetric | src/main/java/de/di/data_profiling/UCCProfiler.java:68-80 | swapping the arguments negates the comparator |
| UccOrder.CompareTransitive | src/main/java/de/di/data_profiling/UCCProfiler.java:68-80 | the comparator is transitive, strictly so when one step is strict, so it is a valid sort order |
| UccOrder.Insert | src/main/java/de/di/data_profiling/UCCProfiler.java:67-81 | inserting into an ordered list gives an ordered list with exactly one more occurrence of the element |
| UccOrder.Sort | src/main/java/de/di/data_profiling/UCCProfiler.java:67-81 | the sorted list is ordered by size, then lexicographically, and is a permutation of the input |
| UccOrder.OrderedUnique | src/main/java/de/di/data_profiling/UCCProfiler.java:67-81 | two ordered permutations of a list without repeats are equal, so the sorted result does not depend on the discovery order |
| UccSearch.UnaryPhaseBound | src/main/java/de/di/data_profiling/UCCProfiler.java:28-38 | the unary phase records and keeps only single attributes below the attribute count |
| UccSearch.UnaryPhaseMembers | src/main/java/de/di/data_profiling/UCCProfiler.java:28-38 | attribute a is recorded iff its unary test holds, and enters the level-2 frontier iff it fails |
| UccSearch.UnaryPhaseDistinct | src/main/java/de/di/data_profiling/UCCProfiler.java:28-38 | the unary phase records no list twice and keeps no list twice |
| UccSearch.UnaryPhaseShape | src/main/java/de/di/data_profiling/UCCProfiler.java:28-38 | after the unary phase the frontier is a repeat-free list of one-attribute lists, and the recorded lists form an antichain |
| UccSearch.ValidCandidateMeaning | src/main/java/de/di/data_profiling/UCCProfiler.java:121-128 | isValidCandidate is false iff the candidate is a sublist of some frontier list |
| UccSearch.CandidatesAlwaysValid | src/main/java/de/di/data_profiling/UCCProfiler.java:100-107 | on a frontier of equal-size lists without repeats, every joined candidate passes isValidCandidate |
| UccSearch.GenerateCandidates | src/main/java/de/di/data_profiling/UCCProfiler.java:92-113 | the candidate collection holds no list twice |
| UccSearch.CandidatesMeaning | src/main/java/de/di/data_profiling/UCCProfiler.java:95-104 | every candidate is the union of frontier lists i < j with the same prefix, and every such union is a candidate |
| UccSearch.CandidatesShape | src/main/java/de/di/data_profiling/UCCProfiler.java:92-113 | the candidates of a level-k frontier are repeat-free lists of k+1 attributes below the attribute count |
| UccSearch.CandidatesExact | src/main/java/de/di/data_profiling/UCCProfiler.java:92-113 | a list is a candidate iff it is the prefix join of two frontier lists |
| UccSearch.MinimalMeaning | src/main/java/de/di/data_profiling/UCCProfiler.java:136-143 | isMinimal is false iff the candidate is a superset of some recorded UCC |
| UccSearch.NonUniquesMeaning | src/main/java/de/di/data_profiling/UCCProfiler.java:56-58 | the next frontier holds exactly the candidates whose test fails |
| UccSearch.RecordableMeaning | src/main/java/de/di/data_profiling/UCCProfiler.java:49-52 | a candidate is recorded iff its test holds and it is minimal with respect to the UCCs recorded before the level |
| UccSearch.ProcessFrontier | src/main/java/de/di/data_profiling/UCCProfiler.java:46-60 | the candidate loop appends exactly the non-unique candidates to the frontier |
| UccSearch.MinimalAppend | src/main/java/de/di/data_profiling/UCCProfiler.java:49-52 | recording a different UCC of the same size does not change whether a candidate is minimal |
| UccSearch.ProcessRecords | src/main/java/de/di/data_profiling/UCCProfiler.java:46-60 | the candidate loop appends exactly the recordable candidates, so UCCs recorded earlier in the same level never make a candidate non-minimal |
| UccSearch.LevelMeaning | src/main/java/de/di/data_profiling/UCCProfiler.java:42-64 | one level sets the frontier to the failing candidates and appends the unique minimal ones to the recorded UCCs |
| UccSearch.LevelOutcome | src/main/java/de/di/data_profiling/UCCProfiler.java:47-59 | each candidate goes to exactly one outcome: recorded, dropped as non-minimal, or kept for the next frontier |
| UccSearch.LevelFrontier | src/main/java/de/di/data_profiling/UCCProfiler.java:42-64 | a level-k frontier produces a well-formed level-(k+1) frontier |
| UccSearch.LevelRecords | src/main/java/de/di/data_profiling/UCCProfiler.java:49-52 | a level only appends UCCs, each of size k+1 and passing the test |
| UccSearch.AntichainExtend | src/main/java/de/di/data_profiling/UCCProfiler.java:49-52 | appending repeat-free, larger lists that contain no recorded list keeps the recorded lists an antichain |
| UccSearch.LevelUniques | src/main/java/de/di/data_profiling/UCCProfiler.java:42-64 | after a level no recorded UCC is a superset of another, and all have at most k+1 attributes |
| UccSearch.RunGrows | src/main/java/de/di/data_profiling/UCCProfiler.java:42-64 | the level loop ends with an empty frontier and only appends UCCs that pass the test and are larger than the starting level |
| UccSearch.RunInvariant | src/main/java/de/di/data_profiling/UCCProfiler.java:42-64 | the level loop keeps the recorded UCCs an antichain of lists below the attribute count |
| UccSearch.Search | src/main/java/de/di/data_profiling/UCCProfiler.java:22-64 | every found list is non-empty and below the attribute count; it is either a single attribute whose unary test holds or a larger list passing the test; attribute a is found alone iff its unary test holds; no found list contains another |
| UccSearch.PairCandidate | src/main/java/de/di/data_profiling/UCCProfiler.java:95-104 | two non-unique attributes a < b give the level-2 candidate [a, b] |
| UccSearch.PairMinimal | src/main/java/de/di/data_profiling/UCCProfiler.java:136-143 | [a, b] is minimal with respect to the unary UCCs when neither a nor b is unique alone |
| UccSearch.PairRecorded | src/main/java/de/di/data_profiling/UCCProfiler.java:46-52 | [a, b] is found when neither attribute is unique alone and the pair passes the test |
| UccSearch.JoinCandidate | src/main/java/de/di/data_profiling/UCCProfiler.java:95-104 | for a monotone test, a list of k+1 attributes whose sublists of size k fail is the join of two same-prefix lists of a complete level-k frontier |
| UccSearch.LevelFrontierComplete | src/main/java/de/di/data_profiling/UCCProfiler.java:42-64 | for a monotone test, if the level-k frontier holds every failing list of size k, the next frontier holds every failing list of size k+1 |
| UccSearch.LevelRecordsMinimal | src/main/java/de/di/data_profiling/UCCProfiler.java:46-52 | for a monotone test, a minimal unique list of size k+1 is a candidate at level k, passes isMinimal, and is recorded |
| UccSearch.RunComplete | src/main/java/de/di/data_profiling/UCCProfiler.java:40-64 | for a monotone test, the level loop from a complete frontier records every minimal unique list larger than the starting level |
| UccSearch.SearchComplete | src/main/java/de/di/data_profiling/UCCProfiler.java:22-64 | for a monotone test that the unary test agrees with, every minimal unique list below the attribute count is found |
| UccSearch.MinimalSublist | src/main/java/de/di/data_profiling/UCCProfiler.java:136-143 | every non-empty list that passes the test contains a minimal unique list |
| UccSearch.SearchExact | src/main/java/de/di/data_profiling/UCCProfiler.java:14-64 | for a monotone test that the unary test agrees with, a list is found iff it is below the attribute count and passes the test while none of its non-empty proper sublists does |
| UccProfiler.Column | src/main/java/de/di/data_profiling/UCCProfiler.java:30 | the column of attribute a holds one field per record |
| UccProfiler.Tuples | src/main/java/de/di/data_profiling/UCCProfiler.java:151-176 | the value tuples of a combination hold one projection per record |
| UccProfiler.ColumnUniqueExact | src/main/java/de/di/data_profiling/UCCProfiler.java:28-31 | the unary index is unique iff the single attribute is a UCC |
| UccProfiler.MergedUniqueSound | src/main/java/de/di/data_profiling/UCCProfiler.java:47-49 | a unique index over the merged strings implies a UCC, since distinct merged strings mean distinct tuples |
| UccProfiler.MergedUniqueExact | src/main/java/de/di/data_profiling/UCCProfiler.java:47-49 | when no projected value contains a comma, the merged-string test holds iff the combination is a UCC |
| UccProfiler.TupleUniqueExact | src/main/java/de/di/data_profiling/UCCProfiler.java:47-49 | the tuple test holds iff the combination is a UCC |
| UccProfiler.SearchFindsUccs | src/main/java/de/di/data_profiling/UCCProfiler.java:22-64 | with a sound test for larger combinations, everything the search finds is a UCC below the attribute count |
| UccProfiler.SearchSingles | src/main/java/de/di/data_profiling/UCCProfiler.java:28-38 | a single attribute is found iff it is a UCC |
| UccProfiler.SearchAntichain | src/main/java/de/di/data_profiling/UCCProfiler.java:49-55 | no found combination is a superset of another found combination |
| UccProfiler.SortMembers | src/main/java/de/di/data_profiling/UCCProfiler.java:67-81 | sorting neither adds nor removes a combination |
| UccProfiler.MergedFound | src/main/java/de/di/data_profiling/UCCProfiler.java:47-51 | every larger combination found has unique merged strings |
| UccProfiler.MergedTestSound | src/main/java/de/di/data_profiling/UCCProfiler.java:47-49 | the merged-string test passes only UCCs |
| UccProfiler.TupleTestSound | src/main/java/de/di/data_profiling/UCCProfiler.java:47-49 | the tuple test passes only UCCs |
| UccProfiler.UccMonotone | src/main/java/de/di/data_profiling/UCCProfiler.java:17-20 | a list containing a UCC is a UCC, so uniqueness is monotone as the level-wise search assumes |
| UccProfiler.ExactTestFindsMinimal | src/main/java/de/di/data_profiling/UCCProfiler.java:14-64 | with a test that holds exactly for UCCs, the search finds exactly the minimal UCCs below the attribute count |
| UccProfiler.TupleSearchExact | src/main/java/de/di/data_profiling/UCCProfiler.java:14-64 | with the tuple test, the search finds exactly the minimal UCCs below the attribute count |
| UccProfiler.MergedTestExact | src/main/java/de/di/data_profiling/UCCProfiler.java:151-176 | when no field contains a comma, the merged-string test holds iff the combination is a UCC |
| UccProfiler.MergedSearchExact | src/main/java/de/di/data_profiling/UCCProfiler.java:14-64 | when no field contains a comma, the search as written finds exactly the minimal UCCs below the attribute count |
| UccProfiler.Profile | src/main/java/de/di/data_profiling/UCCProfiler.java:14-85 | profile returns the found combinations as an ordered permutation; each is a non-empty UCC below the attribute count; each larger one has unique merged strings; a single attribute is returned iff it is a UCC; none contains another; when no field contains a comma, a list is returned iff it is a minimal UCC |
| UccProfiler.CorrectedProfile | src/main/java/de/di/data_profiling/UCCProfiler.java:14-85 | with the tuple test, the result is ordered and a list is returned iff it is a minimal UCC below the attribute count: a UCC none of whose non-empty proper sublists is a UCC |
| UccProfiler.CommaPairUnique | src/main/java/de/di/data_profiling/UCCProfiler.java:151-176 | on the three comma records, the attribute pair [0, 1] is a UCC |
| UccProfiler.MergedTestMissesUcc | src/main/java/de/di/data_profiling/UCCProfiler.java:151-176 | on the three comma records, [0, 1] is a UCC, yet two records merge to "a,b,c", so the merged test fails and profile omits [0, 1] |
| UccProfiler.CorrectedMembers | src/main/java/de/di/data_profiling/UCCProfiler.java:67-81 | the corrected result holds exactly the combinations the search found |
| UccProfiler.PairFound | src/main/java/de/di/data_profiling/UCCProfiler.java:40-64 | with the tuple test, a UCC pair of two non-unique attributes is returned |
| UccProfiler.TupleTestFindsUcc | src/main/java/de/di/data_profiling/UCCProfiler.java:47-49 | on the three comma records, the corrected profile returns [0, 1] |
| TransitiveClosure.WalkConcat | src/main/java/de/di/duplicate_detection/TransitiveClosure.java:41-49 | two walks that meet join into one walk from the first start to the second end |
| TransitiveClosure.ViaEdge | src/main/java/de/di/duplicate_detection/TransitiveClosure.java:33-38 | before the first round, the matrix relation (walks with no inner node) is exactly the edge relation |
| TransitiveClosure.ViaSplit | src/main/java/de/di/duplicate_detection/TransitiveClosure.java:41-49 | a walk through nodes below k+1 either avoids k or splits at k into two walks through nodes below k |
| TransitiveClosure.ViaStep | src/main/java/de/di/duplicate_detection/TransitiveClosure.java:41-49 | b is reachable from a through nodes below k+1 iff it is reachable through nodes below k, or through k |
| TransitiveClosure.ViaAll | src/main/java/de/di/duplicate_detection/TransitiveClosure.java:41-49 | within the relation, walks through nodes below n are all walks |
| TransitiveClosure.ConnectedSymmetric | src/main/java/de/di/duplicate_detection/TransitiveClosure.java:36-37 | a is connected to b iff b is connected to a |
| TransitiveClosure.ClosureSymmetric | src/main/java/de/di/duplicate_detection/TransitiveClosure.java:52-58 | the closure holds (a, b) iff it holds (b, a) |
| TransitiveClosure.ClosureTransitive | src/main/java/de/di/duplicate_detection/TransitiveClosure.java:12-16 | the closure holds (a, c) when it holds (a, b) and (b, c) and a differs from c |
| TransitiveClosure.ClosureContainsInput | src/main/java/de/di/duplicate_detection/TransitiveClosure.java:12-16 | every input pair of different records is in the closure in both orientations |
| TransitiveClosure.ClosureLeast | src/main/java/de/di/duplicate_detection/TransitiveClosure.java:12-16 | any transitive relation that contains the edges contains the closure, so nothing beyond inferable duplicates is added |
| TransitiveClosure.Fill | src/main/java/de/di/duplicate_detection/TransitiveClosure.java:30-38 | after filling, the n by n matrix holds (a, b) iff (a, b) or (b, a) is an input pair |
| TransitiveClosure.RoundRow | src/main/java/de/di/duplicate_detection/TransitiveClosure.java:43-47 | updating one row in place, entry j becomes its old value or (the row's entry k and row k's entry j) |
| TransitiveClosure.Round | src/main/java/de/di/duplicate_detection/TransitiveClosure.java:42-48 | round k, in place, sets m[a][b] to the old m[a][b] or (old m[a][k] and old m[k][b]) |
| TransitiveClosure.Warshall | src/main/java/de/di/duplicate_detection/TransitiveClosure.java:41-49 | after all rounds, m[a][b] holds iff b is connected to a |
| TransitiveClosure.Collect | src/main/java/de/di/duplicate_detection/TransitiveClosure.java:52-59 | the output holds (a, b) iff a differs from b, both are record indices, and the matrix holds the pair in its upper triangle |
| TransitiveClosure.Calculate | src/main/java/de/di/duplicate_detection/TransitiveClosure.java:20-62 | an input of at most one duplicate is returned unchanged; otherwise (a, b) is returned iff a and b are different, connected records |
| Levenshtein.MinOf | src/main/java/de/di/similarity_measures/Levenshtein.java:10-12 | min of no numbers is Integer.MAX_VALUE; otherwise it is one of the numbers and no larger than any |
| Levenshtein.ExtendMeaning | src/main/java/de/di/similarity_measures/Levenshtein.java:54-88 | a table row is filled left to right, each cell from the cell above, the cell to the left, the diagonal and, for transpositions, the cell two back |
| Levenshtein.DistBorders | src/main/java/de/di/similarity_measures/Levenshtein.java:46-52 | matrix[i][0] == i and matrix[0][j] == j |
| Levenshtein.DistCell | src/main/java/de/di/similarity_measures/Levenshtein.java:54-88 | an inner cell is the minimum of deletion, insertion and substitution (and transposition in the Damerau variant) |
| Levenshtein.DistOptions | src/main/java/de/di/similarity_measures/Levenshtein.java:54-88 | an inner cell is at most each edit option and equal to one of them |
| Levenshtein.MatchDiagonal | src/main/java/de/di/similarity_measures/Levenshtein.java:56-57 | on equal characters the cell equals the diagonal |
| Levenshtein.StringCell | src/main/java/de/di/similarity_measures/Levenshtein.java:54-88 | the string recurrence: equal characters copy the diagonal; otherwise 1 + min(up, left, diagonal), lowered to matrix[i-2][j-2] + 1 for an adjacent transposition in the Damerau variant |
| Levenshtein.TokenCell | src/main/java/de/di/similarity_measures/Levenshtein.java:126-131 | the token recurrence, min(up + 1, left + 1, diagonal + cost), with a transposition adding cost, gives the same table |
| Levenshtein.ShorterA | src/main/java/de/di/similarity_measures/Levenshtein.java:54-88 | dropping the last element of the first string lowers the distance by at most one |
| Levenshtein.ShorterB | src/main/java/de/di/similarity_measures/Levenshtein.java:54-88 | dropping the last element of the second string lowers the distance by at most one |
| Levenshtein.DistAtMostLonger | src/main/java/de/di/similarity_measures/Levenshtein.java:43-64 | the distance is at most the longer length |
| Levenshtein.DistAtLeastGap | src/main/java/de/di/similarity_measures/Levenshtein.java:43-64 | the distance is at least the difference of the lengths |
| Levenshtein.DistZero | src/main/java/de/di/similarity_measures/Levenshtein.java:43-93 | the distance is 0 iff the two prefixes are equal |
| Levenshtein.DistSymmetric | src/main/java/de/di/similarity_measures/Levenshtein.java:43-93 | swapping the arguments does not change the distance |
| Levenshtein.DamerauAtMostLevenshtein | src/main/java/de/di/similarity_measures/Levenshtein.java:85-87 | the transposition case can only lower the distance |
| Levenshtein.MatrixRow | src/main/java/de/di/similarity_measures/Levenshtein.java:55-61 | the inner loop fills row i with the table's values and leaves the other rows alone |
| Levenshtein.MatrixDistance | src/main/java/de/di/similarity_measures/Levenshtein.java:43-93 | the full-matrix computation returns the (Damerau-)Levenshtein distance |
| Levenshtein.FillLine | src/main/java/de/di/similarity_measures/Levenshtein.java:124-132 | the token inner loop fills the lower line with column j of the table, from the upper and the upper-upper lines |
| Levenshtein.LineDistance | src/main/java/de/di/similarity_measures/Levenshtein.java:114-151 | the rolling-line computation over tokens, in both variants, returns the full-table distance |
| Levenshtein.Similarity | src/main/java/de/di/similarity_measures/Levenshtein.java:31-64 | the similarity lies in [0, 1] |
| Levenshtein.SimilaritySymmetric | src/main/java/de/di/similarity_measures/Levenshtein.java:26-41 | the similarity is symmetric |
| Levenshtein.SimilarityOne | src/main/java/de/di/similarity_measures/Levenshtein.java:26-41 | the similarity is 1 iff the inputs are equal |
| Levenshtein.DamerauSimilarityAtLeast | src/main/java/de/di/similarity_measures/Levenshtein.java:35-40 | the Damerau similarity is at least the plain one |
| Levenshtein.Calculate | src/main/java/de/di/similarity_measures/Levenshtein.java:26-41 | over UTF-16 code units, as length() and charAt count them: a null argument gives 0; two empty strings give 1; otherwise the result is 1 - d / max(len); the result lies in [0, 1] |
| Levenshtein.SurrogatePairs | src/main/java/de/di/similarity_measures/Levenshtein.java:26-64 | U+1F600 and U+1F601 are surrogate pairs sharing their high unit, so their similarity over code units is 1/2, where a count by characters would give 0 |
| Levenshtein.CalculateTokens | src/main/java/de/di/similarity_measures/Levenshtein.java:105-153 | for token arrays, computed with rolling lines: a null array gives 0; a null token in strings1 throws NullPointerException iff strings2 has a token, since every token of strings1 is then the receiver of `equals`; otherwise the result is the similarity over tokens, where a null token of strings2 equals no string token; a returned value lies in [0, 1] |
| Levenshtein.TokenOutcomeSymmetric | src/main/java/de/di/similarity_measures/Levenshtein.java:105-153 | for arrays without null tokens, swapping the two arrays does not change the outcome |
| Levenshtein.NullTokenAsymmetry | src/main/java/de/di/similarity_measures/Levenshtein.java:127-143 | with a null token the method is not symmetric: ["a"] against [null] gives 0, while [null] against ["a"] throws NullPointerException |
| Jaccard.Quotient | src/main/java/de/di/similarity_measures/Jaccard.java:74 | dividing a count by a count no smaller is NaN iff the denominator is 0, and otherwise lies in [0, 1] |
| Jaccard.InclusionExclusion | src/main/java/de/di/similarity_measures/Jaccard.java:74 | the size of S1 plus the size of S2 minus the size of their intersection is the size of their union, so the set-mode denominator is the size of the union |
| Jaccard.SetSimilarityNaN | src/main/java/de/di/similarity_measures/Jaccard.java:56-74 | set mode gives NaN iff both arrays are empty |
| Jaccard.SetSimilarityOne | src/main/java/de/di/similarity_measures/Jaccard.java:56-74 | set mode gives 1 iff the token sets are equal and non-empty |
| Jaccard.SetSimilaritySymmetric | src/main/java/de/di/similarity_measures/Jaccard.java:56-74 | set mode is symmetric |
| Jaccard.SetSimilarityIgnoresRepeats | src/main/java/de/di/similarity_measures/Jaccard.java:59-66 | appending tokens that already occur does not change the set-mode result |
| Jaccard.BagSimilarityAtMostHalf | src/main/java/de/di/similarity_measures/Jaccard.java:99-116 | bag mode gives NaN iff both arrays are empty, and otherwise at most 1/2 |
| Jaccard.BagSimilarityHalf | src/main/java/de/di/similarity_measures/Jaccard.java:75-116 | bag mode gives exactly 1/2 iff the token bags are equal and non-empty |
| Jaccard.BagSimilaritySymmetric | src/main/java/de/di/similarity_measures/Jaccard.java:75-116 | bag mode is symmetric |
| Jaccard.BuildSet | src/main/java/de/di/similarity_measures/Jaccard.java:59-62 | the set holds exactly the tokens of the array |
| Jaccard.CountTokens | src/main/java/de/di/similarity_measures/Jaccard.java:80-90 | the map holds exactly the array's tokens, each with its number of occurrences |
| Jaccard.IntersectCounts | src/main/java/de/di/similarity_measures/Jaccard.java:93-97 | the intersection map holds the counts of the bag intersection (the smaller count of each shared token) |
| Jaccard.SumCounts | src/main/java/de/di/similarity_measures/Jaccard.java:99-112 | the sum of a count map's values is the size of its bag |
| Jaccard.Calculate | src/main/java/de/di/similarity_measures/Jaccard.java:44-122 | throws NullPointerException iff an array is null; otherwise the map and set computation equals the set-mode or bag-mode reference value, according to the flag, with a null token counted like any other token |
| Jaccard.NullTokenOrdinary | src/main/java/de/di/similarity_measures/Jaccard.java:59-90 | a null token is an ordinary member: [null] against [null] gives 1 in set mode and 1/2 in bag mode, and [null] against a string token gives 0 |
| Jaccard.CalculateStrings | src/main/java/de/di/similarity_measures/Jaccard.java:26-33 | a null string is tokenised as "", and the outcome is that of the two token arrays the tokenizer returns |
| IndProfiler.TrimStartMeaning | src/main/java/de/di/data_profiling/INDProfiler.java:72 | the leading part of trim drops exactly the run of characters up to U+0020 at the start |
| IndProfiler.TrimEndMeaning | src/main/java/de/di/data_profiling/INDProfiler.java:72 | the trailing part of trim drops exactly the run of characters up to U+0020 at the end |
| IndProfiler.TrimMeaning | src/main/java/de/di/data_profiling/INDProfiler.java:72 | trim returns the slice between a leading and a trailing run of characters up to U+0020, and a non-empty result neither starts nor ends with one |
| IndProfiler.StripQuotesMeaning | src/main/java/de/di/data_profiling/INDProfiler.java:72 | the quote strip drops the first character iff it is a quote, and the quote at the one position q >= 1 where `"$` matches, if there is one; every other character is kept in order |
| IndProfiler.ClosingQuoteUnique | src/main/java/de/di/data_profiling/INDProfiler.java:72 | `"$` matches at most one position |
| IndProfiler.StripKeeps | src/main/java/de/di/data_profiling/INDProfiler.java:72 | without an opening quote at the start or a closing quote at the end, the quote strip changes nothing |
| IndProfiler.StripSurrounded | src/main/java/de/di/data_profiling/INDProfiler.java:72 | a string of length two or more that begins and ends with a quote loses exactly those two quotes |
| IndProfiler.NormalizeUnquoted | src/main/java/de/di/data_profiling/INDProfiler.java:68-73 | a value whose trimmed form has no quote normalises to that trimmed form |
| IndProfiler.NormalizeQuoted | src/main/java/de/di/data_profiling/INDProfiler.java:68-73 | a value whose trimmed form is quoted at both ends normalises to the trimmed form without those quotes |
| IndProfiler.Normalize | src/main/java/de/di/data_profiling/INDProfiler.java:68-73 | a null value normalises to "", and any other value normalises to a string no longer than itself |
| IndProfiler.LastNamed | src/main/java/de/di/data_profiling/INDProfiler.java:21-23 | the relation whose value sets are kept for a name is the last relation with that name, or there is none |
| IndProfiler.LastAttribute | src/main/java/de/di/data_profiling/INDProfiler.java:26-35 | the column whose value set is kept for an attribute name is the last column with that name, or there is none |
| IndProfiler.AttributeSetsMeaning | src/main/java/de/di/data_profiling/INDProfiler.java:26-35 | a relation's map holds an attribute name iff a column carries it, with the hashed normalised values of the last such column |
| IndProfiler.HashPhaseMeaning | src/main/java/de/di/data_profiling/INDProfiler.java:20-37 | the hash phase throws IndexOutOfBounds iff some relation has more columns than attributes; otherwise its keys are the relation names, each mapped to the sets of the last relation with that name |
| IndProfiler.LookupLast | src/main/java/de/di/data_profiling/INDProfiler.java:20-51 | a later relation or column with the same name overwrites the earlier one: the set looked up for a column belongs to the last same-named column of the last same-named relation, or is null |
| IndProfiler.ColumnsOnce | src/main/java/de/di/data_profiling/INDProfiler.java:39-42 | the outer two loops visit every column of every relation exactly once |
| IndProfiler.ExaminedOnce | src/main/java/de/di/data_profiling/INDProfiler.java:39-58 | every ordered pair of columns is examined exactly once, except the skipped pair of a column with itself, which is never examined |
| IndProfiler.ExaminedValid | src/main/java/de/di/data_profiling/INDProfiler.java:39-50 | every examined pair consists of columns that exist |
| IndProfiler.ReportMeaning | src/main/java/de/di/data_profiling/INDProfiler.java:43-55 | the comparison loop throws NullPointerException iff some examined pair has a missing set; otherwise it reports (A, B) iff the pair is examined and A's set is contained in B's |
| IndProfiler.ProfileNoSelfPair | src/main/java/de/di/data_profiling/INDProfiler.java:48 | no reported dependency relates a column to itself |
| IndProfiler.ProfileReports | src/main/java/de/di/data_profiling/INDProfiler.java:39-59 | when profile succeeds, (A, B) is reported iff both columns exist, they are not the same column, both sets are present, and A's set is contained in B's |
| IndProfiler.ProfileNary | src/main/java/de/di/data_profiling/INDProfiler.java:61-63 | with discoverNary set, profile always throws, and throws UnsupportedOperation whenever the run without it succeeds |
| IndProfiler.LookupDistinct | src/main/java/de/di/data_profiling/INDProfiler.java:20-51 | with distinct relation names, distinct attribute names and matching column counts, every column's set is its own hashed normalised values |
| IndProfiler.ProfileDistinct | src/main/java/de/di/data_profiling/INDProfiler.java:17-66 | with distinct names, profile(relations, false) succeeds and reports (A, B) iff they are different columns and A's hashed value set is contained in B's |

## Left out

- Console output: `System.out.println` in UCCProfiler is not modelled.
- Hash iteration order: the order of `HashMap`, `HashSet` and `Set<Duplicate>` iteration is unspecified. The model fixes one deterministic order:
  - clusters come out in the first-occurrence order of their value;
  - candidates come out in pair order;
  - the pairs of the closure are given as a set.

  No contract promises an order that the source leaves open. UccOrder.OrderedUnique shows that the final sort makes the UCC result independent of discovery order.
- Unseen classes: `AttributeList`, `UCC`, `Relation`, `Duplicate`, `IND` and `Tokenizer` are not part of this model.
  - `AttributeList` is a strictly increasing `seq<nat>`. Its `union`, `samePrefixAs`, `sublistOf` and `supersetOf` are given an assumed meaning in AttributeLists.
  - A relation is its attribute names plus its records or columns.
  - A duplicate is its pair of record indices.
  - An IND is a pair of (relation position, column index).
  - The tokenizer is a function parameter of Jaccard.CalculateStrings; it may return a null array or null tokens, which Jaccard.Calculate handles as the source does.
- `String.hashCode` is an uninterpreted function parameter `hash` of the IND model.
- Java `double` arithmetic is modelled as exact real division. Rounding is not modelled, and neither are the NaN and infinity rules beyond the 0/0 case of Jaccard.
- Java `int` overflow is not modelled: counts, lengths and distances are unbounded integers.
- TransitiveClosure.Calculate: requires every index of every input pair to be a record index. Out-of-range indices make the source throw `ArrayIndexOutOfBoundsException`.
  - The record count `n` is a parameter. The source reads it from the relation of the first duplicate.
  - Duplicates are compared by their index pair, not by the unseen `Duplicate.equals`.
- PositionListIndex.FromClusters: requires every row of every cluster to lie below relationLength. The source's `calculateInverted` throws `ArrayIndexOutOfBoundsException` on a larger row (PositionListIndex.java:45); the model has no error result for the constructor. Intersect, its one caller in the model, meets the requirement.
- PositionListIndex.Intersect: requires every row of this index to be a row of the other index. Otherwise the source reads past the other index's inverse and throws. None of the six modelled classes calls `intersect`.
- MergeColumns.Field: UCC records hold no null field, because a record is a `seq<string>`. In the source a null field is appended to the merged string as the text "null" (UCCProfiler.java:161), so it merges like the string "null"; the unary index keys null apart from "null" (PositionListIndex.java:33-34). Neither behaviour is modelled for the UCC search. The IND model does carry null values.
- Strings other than Levenshtein.Calculate's are sequences of Unicode characters, not UTF-16 code units. The other algorithms only compare, hash or trim strings, and for well-formed text that agrees with Java. Strings holding a lone surrogate cannot be expressed.
- The unused `tempClusters` map in `intersect` is not modelled.
- IndProfiler: relation identity (`relation == otherRelation`) is modelled by an `id` field. Two list positions holding the same relation object carry the same `id`.
  - The regular expression of `replaceAll` is modelled directly as a scan, StripFrom, not through a regex engine.
  - A closing quote follows Java's `$`: at the very end, or before one final line terminator, where a final "\r\n" counts as one terminator.
- Levenshtein.Similarity and Jaccard's reference similarities are exact specifications, and the Calculate methods are proved equal to them. `Levenshtein.Similarity` is ghost because its distance table is a specification.
- Jaccard: "building the intersection does not modify S1" holds trivially in a value-based model, because sets are immutable values. The set-mode computation keeps using S1 after the intersection and is proved equal to the reference value.

## Findings

| source | as written | input that shows it | evidently intended | confidence | as-written member | corrected member |
|---|---|---|---|---|---|---|
| src/main/java/de/di/data_profiling/UCCProfiler.java:151-176 | `mergeColumns` joins the projected values with "," and tests uniqueness on the joined strings, so tuples whose values contain a comma can merge to the same string | records ("a,b", "c"), ("a", "b,c"), ("a,b", "b,c"): neither attribute is unique alone and the pair [0, 1] is a UCC, but the first two records both merge to "a,b,c", so [0, 1] is not reported | a combination is a UCC iff no two records agree on all its values (the tuple test) | not executed | UccProfiler.MergedTestMissesUcc | UccProfiler.CorrectedProfile |
