/** The string encoding the UCC search uses to test a multi-column
    combination: the projected values of one record joined by commas. */
module MergeColumns {

  /** One record of a relation: its field values in attribute order. */
  type Record = seq<string>

  /** The placeholder appended for an attribute index past the record's end. */
  const Placeholder: string := "N/A"

  /** The value a record contributes for attribute a. */
  function Field(record: Record, a: nat): (f: string)
    ensures a < |record| ==> f == record[a]
    ensures a >= |record| ==> f == Placeholder
  {
    if a < |record| then record[a] else Placeholder
  }

  /** The projection of a record onto the attribute list: one field per attribute. */
  function Project(record: Record, attrs: seq<nat>): (t: seq<string>)
    ensures |t| == |attrs|
    ensures forall k :: 0 <= k < |attrs| ==> t[k] == Field(record, attrs[k])
  {
    seq(|attrs|, k requires 0 <= k < |attrs| => Field(record, attrs[k]))
  }

  /** Reference encoding: the fields separated by single commas. */
  function Join(fields: seq<string>): (s: string)
    ensures |fields| == 1 ==> s == fields[0]
  {
    if |fields| == 0 then ""
    else if |fields| == 1 then fields[0]
    else Join(fields[..|fields| - 1]) + "," + fields[|fields| - 1]
  }

  /** The content of the string builder after the inner loop: every field
      followed by a comma. */
  function Appended(record: Record, attrs: seq<nat>): (b: string)
    ensures |attrs| == 0 <==> |b| == 0
    ensures |attrs| > 0 ==> b[|b| - 1] == ','
  {
    if |attrs| == 0 then ""
    else Appended(record, attrs[..|attrs| - 1]) + Field(record, attrs[|attrs| - 1]) + ","
  }

  /** The merged value of one record: the builder's content with its last
      character deleted when it is not empty. */
  function MergeValue(record: Record, attrs: seq<nat>): (m: string)
    ensures m == Join(Project(record, attrs))
  {
    var b := Appended(record, attrs);
    AppendedIsJoin(record, attrs);
    if |b| > 0 then b[..|b| - 1] else b
  }

  /** The builder holds the joined projection followed by one comma. */
  lemma {:induction false} AppendedIsJoin(record: Record, attrs: seq<nat>)
    ensures |attrs| > 0 ==> Appended(record, attrs) == Join(Project(record, attrs)) + ","
  {
    if |attrs| > 1 {
      var init := attrs[..|attrs| - 1];
      AppendedIsJoin(record, init);
      assert Project(record, attrs)[..|attrs| - 1] == Project(record, init);
    }
  }

  /** mergeColumns: one merged value per record, in record order. */
  function Merge(records: seq<Record>, attrs: seq<nat>): (merged: seq<string>)
    ensures |merged| == |records|
    ensures forall i :: 0 <= i < |records| ==> merged[i] == Join(Project(records[i], attrs))
  {
    seq(|records|, i requires 0 <= i < |records| => MergeValue(records[i], attrs))
  }

  /** No field contains the separator. */
  predicate CommaFree(fields: seq<string>) {
    forall k :: 0 <= k < |fields| ==> ',' !in fields[k]
  }

  /** Splits s at its last comma: the text before it and the text after it
      (the empty prefix and s itself when s holds no comma). */
  function SplitLast(s: string): (parts: (string, string))
    ensures ',' !in parts.1
  {
    if |s| == 0 then ("", "")
    else if s[|s| - 1] == ',' then (s[..|s| - 1], "")
    else
      var (x, y) := SplitLast(s[..|s| - 1]);
      (x, y + [s[|s| - 1]])
  }

  /** Decoding: splits s into k fields at its last k - 1 commas. */
  function Split(s: string, k: nat): (fields: seq<string>)
    ensures |fields| == k
    decreases k
  {
    if k == 0 then []
    else if k == 1 then [s]
    else
      var (x, y) := SplitLast(s);
      Split(x, k - 1) + [y]
  }

  /** SplitLast undoes appending a comma and a comma-free field. */
  lemma {:induction false} SplitLastAppend(x: string, p: string)
    requires ',' !in p
    ensures SplitLast(x + "," + p) == (x, p)
  {
    var s := x + "," + p;
    if |p| == 0 {
      assert s[..|s| - 1] == x;
    } else {
      var init := p[..|p| - 1];
      assert s[..|s| - 1] == x + "," + init;
      assert s[|s| - 1] == p[|p| - 1];
      assert p[|p| - 1] in p;
      SplitLastAppend(x, init);
      assert init + [p[|p| - 1]] == p;
    }
  }

  /** Round trip: splitting the merged value of comma-free fields into as
      many parts as there are fields gives the fields back. */
  lemma {:induction false} SplitJoin(fields: seq<string>)
    requires CommaFree(fields)
    ensures Split(Join(fields), |fields|) == fields
  {
    if |fields| > 1 {
      var init := fields[..|fields| - 1];
      assert CommaFree(init) by {
        assert forall k :: 0 <= k < |init| ==> init[k] == fields[k];
      }
      SplitLastAppend(Join(init), fields[|fields| - 1]);
      SplitJoin(init);
      assert init + [fields[|fields| - 1]] == fields;
    }
  }

  /** With comma-free values the merged encoding is injective. */
  lemma JoinInjective(a: seq<string>, b: seq<string>)
    requires CommaFree(a) && CommaFree(b) && |a| == |b|
    requires Join(a) == Join(b)
    ensures a == b
  {
    SplitJoin(a);
    SplitJoin(b);
  }

  /** For comma-free records the converse holds as well: merged values are
      equal exactly when the projections are. */
  lemma MergeExact(r1: Record, r2: Record, attrs: seq<nat>)
    requires CommaFree(Project(r1, attrs)) && CommaFree(Project(r2, attrs))
    ensures MergeValue(r1, attrs) == MergeValue(r2, attrs) <==> Project(r1, attrs) == Project(r2, attrs)
  {
    if MergeValue(r1, attrs) == MergeValue(r2, attrs) {
      JoinInjective(Project(r1, attrs), Project(r2, attrs));
    }
  }

  /** Two fields are joined by one comma. */
  lemma JoinTwo(x: string, y: string)
    ensures Join([x, y]) == x + "," + y
  {
    assert [x, y][..1] == [x];
  }

  /** The projection of a record onto its first two attributes. */
  lemma ProjectFirstTwo(record: Record)
    requires |record| >= 2
    ensures Project(record, [0, 1]) == [record[0], record[1]]
  {
  }

  /** The merged value of a record's first two attributes. */
  lemma MergeTwo(record: Record)
    requires |record| >= 2
    ensures MergeValue(record, [0, 1]) == record[0] + "," + record[1]
  {
    ProjectFirstTwo(record);
    JoinTwo(record[0], record[1]);
  }

  /** Values that contain the separator can collide: moving text across a
      comma inside a value gives a different pair of values with the same
      merged string. */
  lemma MergeCollision(x: string, y: string, z: string)
    ensures Project([x + "," + y, z], [0, 1]) != Project([x, y + "," + z], [0, 1])
    ensures MergeValue([x + "," + y, z], [0, 1]) == MergeValue([x, y + "," + z], [0, 1])
  {
    MergeTwo([x + "," + y, z]);
    MergeTwo([x, y + "," + z]);
    ProjectFirstTwo([x + "," + y, z]);
    ProjectFirstTwo([x, y + "," + z]);
    assert |x + "," + y| != |x|;
    assert (x + "," + y) + "," + z == x + "," + (y + "," + z);
  }
}
