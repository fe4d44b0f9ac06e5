/** Unary inclusion-dependency discovery: every column's normalised values
    are hashed into a set, and an ordered pair of distinct columns is
    reported when the dependent column's set is contained in the referenced
    column's set.  The hash function (String.hashCode) is a parameter. */
module IndProfiler {
  import opened Nulls

  /** A relation: `id` stands for the object's identity (Java reference
      equality), `columns[c]` holds the values of attribute `attributes[c]`. */
  datatype Relation = Relation(id: nat, name: string, attributes: seq<string>, columns: seq<seq<Nullable<string>>>)

  /** A column, by the position of its relation in the input list and its
      index in that relation. */
  datatype Col = Col(rel: nat, col: nat)

  /** An inclusion dependency: the values of `dependent` are included in
      those of `referenced`. */
  datatype Ind = Ind(dependent: Col, referenced: Col)

  /** Hashed value sets by relation name, then attribute name. */
  type Sets = map<string, map<string, set<int>>>

  // ----- normalisation -------------------------------------------------------

  /** String.trim without its leading part: drops leading characters up to
      U+0020. */
  function TrimStart(s: string): (r: string)
    ensures |r| <= |s|
  {
    if |s| > 0 && s[0] <= ' ' then TrimStart(s[1..]) else s
  }

  /** String.trim without its trailing part. */
  function TrimEnd(s: string): (r: string)
    ensures |r| <= |s|
  {
    if |s| > 0 && s[|s| - 1] <= ' ' then TrimEnd(s[..|s| - 1]) else s
  }

  /** String.trim: drops leading and trailing characters up to U+0020. */
  function Trim(s: string): string {
    TrimEnd(TrimStart(s))
  }

  lemma {:induction false} TrimStartMeaning(s: string)
    ensures |TrimStart(s)| <= |s| && TrimStart(s) == s[|s| - |TrimStart(s)|..]
    ensures forall k :: 0 <= k < |s| - |TrimStart(s)| ==> s[k] <= ' '
    ensures |TrimStart(s)| > 0 ==> TrimStart(s)[0] > ' '
  {
    if |s| > 0 && s[0] <= ' ' {
      TrimStartMeaning(s[1..]);
    }
  }

  lemma {:induction false} TrimEndMeaning(s: string)
    ensures |TrimEnd(s)| <= |s| && TrimEnd(s) == s[..|TrimEnd(s)|]
    ensures forall k :: |TrimEnd(s)| <= k < |s| ==> s[k] <= ' '
    ensures |TrimEnd(s)| > 0 ==> TrimEnd(s)[|TrimEnd(s)| - 1] > ' '
  {
    if |s| > 0 && s[|s| - 1] <= ' ' {
      TrimEndMeaning(s[..|s| - 1]);
    }
  }

  /** Trim returns the part of s between a run of leading and a run of
      trailing characters up to U+0020, and that part neither starts nor
      ends with such a character. */
  lemma TrimMeaning(s: string)
    ensures var i := |s| - |TrimStart(s)|;
      i + |Trim(s)| <= |s| && s[i..i + |Trim(s)|] == Trim(s)
      && (forall k :: 0 <= k < i ==> s[k] <= ' ') && (forall k :: i + |Trim(s)| <= k < |s| ==> s[k] <= ' ')
    ensures |Trim(s)| > 0 ==> Trim(s)[0] > ' ' && Trim(s)[|Trim(s)| - 1] > ' '
  {
    TrimStartMeaning(s);
    var u := TrimStart(s);
    TrimEndMeaning(u);
    var t := TrimEnd(u);
    var i := |s| - |u|;
    assert s[i..i + |t|] == t;
    forall k | i + |t| <= k < |s|
      ensures s[k] <= ' '
    {
      assert s[k] == u[k - i];
    }
    if |t| > 0 {
      assert t[0] == u[0];
    }
  }

  /** The line terminators of java.util.regex. */
  predicate LineTerminator(c: char) {
    c == '\n' || c == '\r' || c == '\U{0085}' || c == '\U{2028}' || c == '\U{2029}'
  }

  /** Whether `$` matches at position p (no MULTILINE flag): at the end of
      the input, before a final line terminator, or before a final "\r\n". */
  predicate AtEnd(s: string, p: nat)
    requires p <= |s|
  {
    p == |s|
    || (p == |s| - 1 && LineTerminator(s[p]) && !(s[p] == '\n' && p > 0 && s[p - 1] == '\r'))
    || (p == |s| - 2 && s[p] == '\r' && s[p + 1] == '\n')
  }

  /** Whether the alternative `"$` matches the quote at position p. */
  predicate ClosingQuote(s: string, p: nat)
    requires p < |s|
  {
    s[p] == '"' && AtEnd(s, p + 1)
  }

  /** replaceAll("^\"|\"$", "") from position p on: a quote matched by one of
      the two alternatives is dropped, every other character is kept. */
  function StripFrom(s: string, p: nat): (r: string)
    requires p <= |s|
    ensures |r| <= |s| - p
    decreases |s| - p
  {
    if p == |s| then ""
    else if p == 0 && s[0] == '"' then StripFrom(s, 1)
    else if ClosingQuote(s, p) then StripFrom(s, p + 1)
    else [s[p]] + StripFrom(s, p + 1)
  }

  /** replaceAll("^\"|\"$", ""). */
  function StripQuotes(s: string): string {
    StripFrom(s, 0)
  }

  /** normalizeValue: null becomes "", otherwise trim and strip the quotes;
      normalising never lengthens a value. */
  function Normalize(value: Nullable<string>): (r: string)
    ensures value.Null? ==> r == ""
    ensures value.Value? ==> |r| <= |value.get|
  {
    if value.Null? then "" else StripQuotes(Trim(value.get))
  }

  /** Without a closing quote from p on, the rest is kept as it is. */
  lemma {:induction false} StripKeeps(s: string, p: nat)
    requires 1 <= p <= |s| || (p == 0 && (|s| == 0 || s[0] != '"'))
    requires forall q :: p <= q < |s| ==> !ClosingQuote(s, q)
    ensures StripFrom(s, p) == s[p..]
    decreases |s| - p
  {
    if p < |s| {
      StripKeeps(s, p + 1);
    }
  }

  /** A string that starts and ends with a quote loses exactly those two. */
  lemma StripSurrounded(s: string)
    requires |s| >= 2 && s[0] == '"' && s[|s| - 1] == '"'
    ensures StripQuotes(s) == s[1..|s| - 1]
  {
    var t := s[..|s| - 1];
    assert forall q :: 1 <= q < |s| - 1 ==> !ClosingQuote(s, q);
    StripUpTo(s, 1);
  }

  /** Helper for StripSurrounded: copies up to the final quote, drops it. */
  lemma {:induction false} StripUpTo(s: string, p: nat)
    requires 1 <= p <= |s| - 1 && s[|s| - 1] == '"'
    requires forall q :: p <= q < |s| - 1 ==> !ClosingQuote(s, q)
    ensures StripFrom(s, p) == s[p..|s| - 1]
    decreases |s| - p
  {
    if p < |s| - 1 {
      StripUpTo(s, p + 1);
    } else {
      assert ClosingQuote(s, p);
    }
  }

  /** `"$` matches at most one position: a quote at the very end, or one
      followed only by a final line terminator or "\r\n". */
  lemma ClosingQuoteUnique(s: string, p: nat, q: nat)
    requires p < |s| && q < |s|
    requires ClosingQuote(s, p) && ClosingQuote(s, q)
    ensures p == q
  {
  }

  /** Helper for StripQuotesMeaning: from p on, everything is copied except
      the closing quote at q. */
  lemma {:induction false} StripAround(s: string, p: nat, q: nat)
    requires p <= q < |s| && (1 <= p || s[0] != '"')
    requires ClosingQuote(s, q)
    ensures StripFrom(s, p) == s[p..q] + s[q + 1..]
    decreases q - p
  {
    if p < q {
      if ClosingQuote(s, p) {
        ClosingQuoteUnique(s, p, q);
      }
      StripAround(s, p + 1, q);
      assert s[p..q] == [s[p]] + s[p + 1..q];
    } else {
      forall k | q + 1 <= k < |s|
        ensures !ClosingQuote(s, k)
      {
        if ClosingQuote(s, k) {
          ClosingQuoteUnique(s, q, k);
        }
      }
      StripKeeps(s, q + 1);
    }
  }

  /** replaceAll("^\"|\"$", "") drops the first character exactly when it
      is a quote, and the quote at the one position q >= 1 where `"$`
      matches, if there is one; every other character is kept in order. */
  lemma StripQuotesMeaning(s: string)
    ensures var start := if |s| > 0 && s[0] == '"' then 1 else 0;
      (forall q :: 1 <= q < |s| && ClosingQuote(s, q) ==> StripQuotes(s) == s[start..q] + s[q + 1..])
      && ((forall q :: 1 <= q < |s| ==> !ClosingQuote(s, q)) ==> StripQuotes(s) == s[start..])
  {
    var start := if |s| > 0 && s[0] == '"' then 1 else 0;
    if |s| > 0 && s[0] == '"' {
      assert StripQuotes(s) == StripFrom(s, 1);
    }
    forall q | 1 <= q < |s| && ClosingQuote(s, q)
      ensures StripQuotes(s) == s[start..q] + s[q + 1..]
    {
      StripAround(s, start, q);
    }
    if forall q :: 1 <= q < |s| ==> !ClosingQuote(s, q) {
      if start == 1 {
        StripKeeps(s, 1);
      } else {
        StripKeeps(s, 0);
      }
    }
  }

  /** A value without any quote is only trimmed. */
  lemma NormalizeUnquoted(value: string)
    requires forall k :: 0 <= k < |Trim(value)| ==> Trim(value)[k] != '"'
    ensures Normalize(Value(value)) == Trim(value)
  {
    StripKeeps(Trim(value), 0);
  }

  /** A trimmed value in quotes loses the two quotes. */
  lemma NormalizeQuoted(value: string)
    requires |Trim(value)| >= 2 && Trim(value)[0] == '"' && Trim(value)[|Trim(value)| - 1] == '"'
    ensures Normalize(Value(value)) == Trim(value)[1..|Trim(value)| - 1]
  {
    StripSurrounded(Trim(value));
  }

  // ----- the hash phase --------------------------------------------------------

  /** The hashed normalised values of one column. */
  function ColumnSet(hash: string -> int, column: seq<Nullable<string>>): set<int> {
    set v | v in column :: hash(Normalize(v))
  }

  /** The attribute map of one relation after its first k columns: a later
      column with the same attribute name replaces an earlier one. */
  function AttributeSets(hash: string -> int, r: Relation, k: nat): map<string, set<int>>
    requires k <= |r.columns| && k <= |r.attributes|
  {
    if k == 0 then map[]
    else AttributeSets(hash, r, k - 1)[r.attributes[k - 1] := ColumnSet(hash, r.columns[k - 1])]
  }

  /** The relations whose columns all have an attribute name. */
  predicate Fits(relations: seq<Relation>, n: nat)
    requires n <= |relations|
  {
    forall k :: 0 <= k < n ==> |relations[k].columns| <= |relations[k].attributes|
  }

  /** The first loop of profile over the first n relations: each relation
      puts a fresh attribute map under its name, replacing the map of an
      earlier relation with the same name; a column without an attribute
      name throws. */
  function HashPhase(hash: string -> int, relations: seq<Relation>, n: nat): Outcome<Sets>
    requires n <= |relations|
  {
    if n == 0 then Success(map[])
    else
      match HashPhase(hash, relations, n - 1)
      case Thrown(f) => Thrown(f)
      case Success(sets) =>
        var r := relations[n - 1];
        if |r.columns| > |r.attributes| then Thrown(IndexOutOfBounds)
        else Success(sets[r.name := AttributeSets(hash, r, |r.columns|)])
  }

  /** The position of the last of the first n relations with this name, or -1. */
  function LastNamed(relations: seq<Relation>, n: nat, name: string): (r: int)
    requires n <= |relations|
    ensures -1 <= r < n
    ensures r >= 0 ==> relations[r].name == name && forall k :: r < k < n ==> relations[k].name != name
    ensures r == -1 ==> forall k :: 0 <= k < n ==> relations[k].name != name
  {
    if n == 0 then -1
    else if relations[n - 1].name == name then n - 1
    else LastNamed(relations, n - 1, name)
  }

  /** The last of the first k attribute positions with this name, or -1. */
  function LastAttribute(attributes: seq<string>, k: nat, attribute: string): (r: int)
    requires k <= |attributes|
    ensures -1 <= r < k
    ensures r >= 0 ==> attributes[r] == attribute && forall c :: r < c < k ==> attributes[c] != attribute
    ensures r == -1 ==> forall c :: 0 <= c < k ==> attributes[c] != attribute
  {
    if k == 0 then -1
    else if attributes[k - 1] == attribute then k - 1
    else LastAttribute(attributes, k - 1, attribute)
  }

  /** An attribute map holds the set of the last column with each name. */
  lemma {:induction false} AttributeSetsMeaning(hash: string -> int, r: Relation, k: nat)
    requires k <= |r.columns| && k <= |r.attributes|
    ensures forall a :: a in AttributeSets(hash, r, k) <==> LastAttribute(r.attributes, k, a) >= 0
    ensures forall a :: a in AttributeSets(hash, r, k) ==>
      AttributeSets(hash, r, k)[a] == ColumnSet(hash, r.columns[LastAttribute(r.attributes, k, a)])
  {
    if k > 0 {
      AttributeSetsMeaning(hash, r, k - 1);
    }
  }

  /** The hash phase succeeds exactly when every column has an attribute
      name, and then holds, under each name, the map of the last relation
      with that name. */
  lemma {:induction false} HashPhaseMeaning(hash: string -> int, relations: seq<Relation>, n: nat)
    requires n <= |relations|
    ensures HashPhase(hash, relations, n).Success? <==> Fits(relations, n)
    ensures HashPhase(hash, relations, n).Thrown? ==> HashPhase(hash, relations, n).failure == IndexOutOfBounds
    ensures HashPhase(hash, relations, n).Success? ==>
      var sets := HashPhase(hash, relations, n).value;
      forall name :: (name in sets <==> LastNamed(relations, n, name) >= 0)
        && (name in sets ==> var r := relations[LastNamed(relations, n, name)];
                             sets[name] == AttributeSets(hash, r, |r.columns|))
  {
    if n > 0 {
      HashPhaseMeaning(hash, relations, n - 1);
    }
  }

  /** columnHashes.get(name).get(attribute), null when missing. */
  function Lookup(sets: Sets, name: string, attribute: string): Nullable<set<int>> {
    if name in sets && attribute in sets[name] then Value(sets[name][attribute]) else Null
  }

  // ----- the pair phase --------------------------------------------------------

  /** A column of some relation in the list. */
  predicate ValidCol(relations: seq<Relation>, x: Col) {
    x.rel < |relations| && x.col < |relations[x.rel].attributes|
  }

  /** The skipped pair: the same relation object and the same column index. */
  predicate Trivial(relations: seq<Relation>, x: Col, y: Col) {
    x.rel < |relations| && y.rel < |relations| && relations[x.rel].id == relations[y.rel].id && x.col == y.col
  }

  /** The first n columns of relation i, in index order. */
  function Block(i: nat, n: nat): seq<Col> {
    if n == 0 then [] else Block(i, n - 1) + [Col(i, n - 1)]
  }

  /** The columns of relations i, i + 1, ..., in loop order. */
  function ColumnsFrom(relations: seq<Relation>, i: nat): seq<Col>
    decreases |relations| - i
  {
    if i >= |relations| then [] else Block(i, |relations[i].attributes|) + ColumnsFrom(relations, i + 1)
  }

  /** All columns in the order of the two outer loops. */
  function Columns(relations: seq<Relation>): seq<Col> {
    ColumnsFrom(relations, 0)
  }

  /** The inner two loops for column x: x with every column of cols from m
      on, skipping the trivial pair. */
  function Partners(relations: seq<Relation>, x: Col, cols: seq<Col>, m: nat): seq<(Col, Col)>
    requires m <= |cols|
    decreases |cols| - m
  {
    if m == |cols| then []
    else (if Trivial(relations, x, cols[m]) then [] else [(x, cols[m])]) + Partners(relations, x, cols, m + 1)
  }

  /** The four loops from the k-th column of cols on. */
  function PairsFrom(relations: seq<Relation>, cols: seq<Col>, k: nat): seq<(Col, Col)>
    requires k <= |cols|
    decreases |cols| - k
  {
    if k == |cols| then [] else Partners(relations, cols[k], cols, 0) + PairsFrom(relations, cols, k + 1)
  }

  /** Every ordered pair the four loops compare, in loop order. */
  function Examined(relations: seq<Relation>): seq<(Col, Col)> {
    PairsFrom(relations, Columns(relations), 0)
  }

  /** The count of one element in a concatenation, summed over its two parts. */
  lemma HeadCount<T>(head: seq<T>, rest: seq<T>, e: T)
    ensures multiset(head + rest)[e] == multiset(head)[e] + multiset(rest)[e]
  {
    assert multiset(head + rest) == multiset(head) + multiset(rest);
  }

  lemma {:induction false} BlockCount(i: nat, n: nat, x: Col)
    ensures multiset(Block(i, n))[x] == if x.rel == i && x.col < n then 1 else 0
  {
    if n > 0 {
      BlockCount(i, n - 1, x);
      HeadCount(Block(i, n - 1), [Col(i, n - 1)], x);
    }
  }

  lemma {:induction false} ColumnsFromCount(relations: seq<Relation>, i: nat, x: Col)
    ensures multiset(ColumnsFrom(relations, i))[x] == if i <= x.rel && ValidCol(relations, x) then 1 else 0
    decreases |relations| - i
  {
    if i < |relations| {
      var block := Block(i, |relations[i].attributes|);
      BlockCount(i, |relations[i].attributes|, x);
      ColumnsFromCount(relations, i + 1, x);
      assert ColumnsFrom(relations, i) == block + ColumnsFrom(relations, i + 1);
      HeadCount(block, ColumnsFrom(relations, i + 1), x);
      if x.rel == i {
        assert multiset(block)[x] == if ValidCol(relations, x) then 1 else 0;
      } else {
        assert multiset(block)[x] == 0;
      }
    }
  }

  /** Every column of every relation occurs exactly once in Columns. */
  lemma ColumnsOnce(relations: seq<Relation>, x: Col)
    ensures multiset(Columns(relations))[x] == if ValidCol(relations, x) then 1 else 0
  {
    ColumnsFromCount(relations, 0, x);
  }

  /** Counting in a suffix: its first element, then the rest. */
  lemma SliceCount<T>(s: seq<T>, m: nat, e: T)
    requires m < |s|
    ensures multiset(s[m..])[e] == (if s[m] == e then 1 else 0) + multiset(s[m + 1..])[e]
  {
    assert s[m..] == [s[m]] + s[m + 1..];
    HeadCount([s[m]], s[m + 1..], e);
  }

  lemma {:induction false} PartnersCount(relations: seq<Relation>, x: Col, cols: seq<Col>, m: nat, u: Col, v: Col)
    requires m <= |cols|
    ensures multiset(Partners(relations, x, cols, m))[(u, v)] ==
      if u == x && !Trivial(relations, u, v) then multiset(cols[m..])[v] else 0
    decreases |cols| - m
  {
    if m < |cols| {
      PartnersCount(relations, x, cols, m + 1, u, v);
      var head: seq<(Col, Col)> := if Trivial(relations, x, cols[m]) then [] else [(x, cols[m])];
      var rest := Partners(relations, x, cols, m + 1);
      assert Partners(relations, x, cols, m) == head + rest;
      HeadCount(head, rest, (u, v));
      SliceCount(cols, m, v);
      if u == x && v == cols[m] && !Trivial(relations, x, cols[m]) {
        assert multiset(head)[(u, v)] == 1;
      } else {
        assert multiset(head)[(u, v)] == 0;
      }
    }
  }

  lemma {:induction false} PairsCount(relations: seq<Relation>, cols: seq<Col>, k: nat, u: Col, v: Col)
    requires k <= |cols|
    requires forall w :: multiset(cols)[w] <= 1
    ensures multiset(PairsFrom(relations, cols, k))[(u, v)] ==
      if !Trivial(relations, u, v) && v in cols then multiset(cols[k..])[u] else 0
    decreases |cols| - k
  {
    if k < |cols| {
      PartnersCount(relations, cols[k], cols, 0, u, v);
      PairsCount(relations, cols, k + 1, u, v);
      var head := Partners(relations, cols[k], cols, 0);
      var rest := PairsFrom(relations, cols, k + 1);
      assert PairsFrom(relations, cols, k) == head + rest;
      HeadCount(head, rest, (u, v));
      assert cols[0..] == cols;
      SliceCount(cols, k, u);
      assert v in cols <==> multiset(cols)[v] > 0;
      assert multiset(cols)[v] <= 1;
    }
  }

  /** Every ordered pair of columns except the trivial one is examined
      exactly once. */
  lemma ExaminedOnce(relations: seq<Relation>, x: Col, y: Col)
    ensures multiset(Examined(relations))[(x, y)] ==
      if ValidCol(relations, x) && ValidCol(relations, y) && !Trivial(relations, x, y) then 1 else 0
  {
    var cols := Columns(relations);
    forall w {
      ColumnsOnce(relations, w);
    }
    PairsCount(relations, cols, 0, x, y);
    assert cols[0..] == cols;
    assert y in cols <==> multiset(cols)[y] > 0;
  }

  /** The innermost body for the examined pairs: looks up both sets (a
      missing one throws on use) and reports the pair when the referenced set
      contains the dependent one. */
  function Report(relations: seq<Relation>, sets: Sets, pairs: seq<(Col, Col)>): Outcome<seq<Ind>>
    requires forall p :: p in pairs ==> ValidCol(relations, p.0) && ValidCol(relations, p.1)
  {
    if |pairs| == 0 then Success([])
    else
      assert pairs[0] in pairs;
      assert ValidCol(relations, pairs[0].0) && ValidCol(relations, pairs[0].1);
      var x, y := pairs[0].0, pairs[0].1;
      var base := Lookup(sets, relations[x.rel].name, relations[x.rel].attributes[x.col]);
      var compare := Lookup(sets, relations[y.rel].name, relations[y.rel].attributes[y.col]);
      if base.Null? || compare.Null? then Thrown(NullPointer)
      else
        match Report(relations, sets, pairs[1..])
        case Thrown(f) => Thrown(f)
        case Success(rest) => Success((if base.get <= compare.get then [Ind(x, y)] else []) + rest)
  }

  /** The set looked up for a column, null when missing. */
  function SetOf(relations: seq<Relation>, sets: Sets, x: Col): Nullable<set<int>>
    requires ValidCol(relations, x)
  {
    Lookup(sets, relations[x.rel].name, relations[x.rel].attributes[x.col])
  }

  /** Report throws exactly when some examined column has no set, and
      otherwise reports exactly the examined pairs whose sets are included. */
  lemma {:induction false} ReportMeaning(relations: seq<Relation>, sets: Sets, pairs: seq<(Col, Col)>)
    requires forall p :: p in pairs ==> ValidCol(relations, p.0) && ValidCol(relations, p.1)
    ensures Report(relations, sets, pairs).Thrown? <==>
      exists p :: p in pairs && (SetOf(relations, sets, p.0).Null? || SetOf(relations, sets, p.1).Null?)
    ensures Report(relations, sets, pairs).Thrown? ==> Report(relations, sets, pairs).failure == NullPointer
    ensures Report(relations, sets, pairs).Success? ==> forall x, y ::
      Ind(x, y) in Report(relations, sets, pairs).value <==>
        (x, y) in pairs && SetOf(relations, sets, x).get <= SetOf(relations, sets, y).get
  {
    if |pairs| > 0 {
      ReportMeaning(relations, sets, pairs[1..]);
      assert pairs == [pairs[0]] + pairs[1..];
      assert forall p :: p in pairs <==> p == pairs[0] || p in pairs[1..];
    }
  }

  // ----- profile ---------------------------------------------------------------

  /** Every examined pair is a pair of columns of the list. */
  lemma ExaminedValid(relations: seq<Relation>)
    ensures forall p :: p in Examined(relations) ==> ValidCol(relations, p.0) && ValidCol(relations, p.1)
  {
    forall p | p in Examined(relations)
      ensures ValidCol(relations, p.0) && ValidCol(relations, p.1)
    {
      ExaminedOnce(relations, p.0, p.1);
    }
  }

  /** profile: the hash phase, then every examined pair, then the n-ary
      check, which throws even after the unary dependencies are found. */
  function Profile(hash: string -> int, relations: seq<Relation>, discoverNary: bool): Outcome<seq<Ind>> {
    match HashPhase(hash, relations, |relations|)
    case Thrown(f) => Thrown(f)
    case Success(sets) =>
      ExaminedValid(relations);
      match Report(relations, sets, Examined(relations))
      case Thrown(f) => Thrown(f)
      case Success(inds) => if discoverNary then Thrown(UnsupportedOperation) else Success(inds)
  }

  /** No column is ever paired with itself. */
  lemma ProfileNoSelfPair(hash: string -> int, relations: seq<Relation>, discoverNary: bool)
    ensures Profile(hash, relations, discoverNary).Success? ==>
      forall ind :: ind in Profile(hash, relations, discoverNary).value ==>
        !Trivial(relations, ind.dependent, ind.referenced) && ind.dependent != ind.referenced
  {
    var outcome := HashPhase(hash, relations, |relations|);
    if outcome.Success? {
      ExaminedValid(relations);
      var sets := outcome.value;
      ReportMeaning(relations, sets, Examined(relations));
      forall ind | Profile(hash, relations, discoverNary).Success? && ind in Profile(hash, relations, discoverNary).value
        ensures !Trivial(relations, ind.dependent, ind.referenced)
      {
        assert Ind(ind.dependent, ind.referenced) == ind;
        ExaminedOnce(relations, ind.dependent, ind.referenced);
      }
    }
  }

  /** A pair is reported exactly when both are columns of the list, the pair
      is not trivial, and the dependent set is contained in the referenced
      one. */
  lemma ProfileReports(hash: string -> int, relations: seq<Relation>, discoverNary: bool, x: Col, y: Col)
    requires Profile(hash, relations, discoverNary).Success?
    ensures HashPhase(hash, relations, |relations|).Success?
    ensures var sets := HashPhase(hash, relations, |relations|).value;
      Ind(x, y) in Profile(hash, relations, discoverNary).value <==>
        ValidCol(relations, x) && ValidCol(relations, y) && !Trivial(relations, x, y)
        && SetOf(relations, sets, x).Value? && SetOf(relations, sets, y).Value?
        && SetOf(relations, sets, x).get <= SetOf(relations, sets, y).get
  {
    ExaminedValid(relations);
    var sets := HashPhase(hash, relations, |relations|).value;
    ReportMeaning(relations, sets, Examined(relations));
    ExaminedOnce(relations, x, y);
  }

  /** With n-ary discovery requested, profile never returns a list; it
      throws UnsupportedOperationException unless an earlier lookup failed. */
  lemma ProfileNary(hash: string -> int, relations: seq<Relation>)
    ensures Profile(hash, relations, true).Thrown?
    ensures Profile(hash, relations, false).Success? ==> Profile(hash, relations, true) == Thrown(UnsupportedOperation)
  {
  }

  /** The relations the profiler is meant for: one column per attribute,
      distinct relation names, and distinct attribute names per relation. */
  predicate Distinct(relations: seq<Relation>) {
    (forall k :: 0 <= k < |relations| ==> |relations[k].columns| == |relations[k].attributes|)
    && (forall k, l :: 0 <= k < l < |relations| ==> relations[k].name != relations[l].name)
    && (forall k, c, d :: 0 <= k < |relations| && 0 <= c < d < |relations[k].attributes| ==>
          relations[k].attributes[c] != relations[k].attributes[d])
  }

  /** For such relations every column gets its own value set. */
  lemma LookupDistinct(hash: string -> int, relations: seq<Relation>, x: Col)
    requires Distinct(relations) && ValidCol(relations, x)
    ensures HashPhase(hash, relations, |relations|).Success?
    ensures SetOf(relations, HashPhase(hash, relations, |relations|).value, x)
      == Value(ColumnSet(hash, relations[x.rel].columns[x.col]))
  {
    HashPhaseMeaning(hash, relations, |relations|);
    var r := relations[x.rel];
    var l := LastNamed(relations, |relations|, r.name);
    assert l == x.rel;
    AttributeSetsMeaning(hash, r, |r.columns|);
    assert LastAttribute(r.attributes, |r.columns|, r.attributes[x.col]) == x.col;
  }

  /** For such relations profile reports exactly the non-trivial pairs whose
      hashed value sets are included, unless n-ary discovery is requested. */
  lemma ProfileDistinct(hash: string -> int, relations: seq<Relation>, x: Col, y: Col)
    requires Distinct(relations)
    ensures Profile(hash, relations, false).Success?
    ensures Ind(x, y) in Profile(hash, relations, false).value <==>
      ValidCol(relations, x) && ValidCol(relations, y) && !Trivial(relations, x, y)
      && ColumnSet(hash, relations[x.rel].columns[x.col]) <= ColumnSet(hash, relations[y.rel].columns[y.col])
  {
    HashPhaseMeaning(hash, relations, |relations|);
    var sets := HashPhase(hash, relations, |relations|).value;
    ExaminedValid(relations);
    ReportMeaning(relations, sets, Examined(relations));
    forall p | p in Examined(relations)
      ensures SetOf(relations, sets, p.0).Value? && SetOf(relations, sets, p.1).Value?
    {
      LookupDistinct(hash, relations, p.0);
      LookupDistinct(hash, relations, p.1);
    }
    ProfileReports(hash, relations, false, x, y);
    if ValidCol(relations, x) && ValidCol(relations, y) {
      LookupDistinct(hash, relations, x);
      LookupDistinct(hash, relations, y);
    }
  }

  /** A later relation with the same name replaces the sets of an earlier
      one: every column of a name is looked up in its last relation. */
  lemma LookupLast(hash: string -> int, relations: seq<Relation>, x: Col)
    requires Fits(relations, |relations|) && ValidCol(relations, x)
    ensures HashPhase(hash, relations, |relations|).Success?
    ensures var r := relations[LastNamed(relations, |relations|, relations[x.rel].name)];
      var c := LastAttribute(r.attributes, |r.columns|, relations[x.rel].attributes[x.col]);
      SetOf(relations, HashPhase(hash, relations, |relations|).value, x)
        == if c >= 0 then Value(ColumnSet(hash, r.columns[c])) else Null
  {
    HashPhaseMeaning(hash, relations, |relations|);
    var r := relations[LastNamed(relations, |relations|, relations[x.rel].name)];
    AttributeSetsMeaning(hash, r, |r.columns|);
  }
}
