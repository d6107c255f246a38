/** Counting the schema positions of a JSON Schema, once each. */
module SchemaCount {
  import opened Json

  datatype Kind = VALUE | ARRAY | MAP | DEPENDENCIES

  const SCHEMA_VALUE_KEYWORDS: seq<string> := [
    "not", "if", "then", "else", "items", "additionalItems", "contains", "propertyNames",
    "additionalProperties", "unevaluatedItems", "unevaluatedProperties", "contentSchema"]
  const SCHEMA_ARRAY_KEYWORDS: seq<string> := ["allOf", "anyOf", "oneOf", "prefixItems"]
  const SCHEMA_MAP_KEYWORDS: seq<string> := [
    "$defs", "definitions", "properties", "patternProperties", "dependentSchemas"]

  /** All keywords in the order in which the program looks at them. */
  function Name(n: nat): string
    requires n < 22
  {
    if n < 12 then SCHEMA_VALUE_KEYWORDS[n]
    else if n < 16 then SCHEMA_ARRAY_KEYWORDS[n - 12]
    else if n < 21 then SCHEMA_MAP_KEYWORDS[n - 16]
    else "dependencies"
  }

  function KindOf(n: nat): Kind {
    if n < 12 then VALUE else if n < 16 then ARRAY else if n < 21 then MAP else DEPENDENCIES
  }

  predicate IsSchema(j: Json) {
    j.Obj? || (j.Leaf? && j.atom.Bool?)
  }

  // ---------------------------------------------------------------- positions, as paths

  datatype Step = Key(key: string) | Index(i: nat)
  type Path = seq<Step>

  /** The reference definition: `p` leads to a schema position of `j` under the keyword tables. */
  ghost predicate IsPosition(j: Json, p: Path)
    decreases |p|, 2
  {
    && (j.Obj? || j == Leaf(Bool(true)) || j == Leaf(Bool(false)))
    && (p == [] || (p[0].Key? && Get(j, p[0].key).Some? && Below(Get(j, p[0].key).value, p[0].key, p)))
  }

  /** The part of the path from `keyword` on, whose value is `c`. */
  ghost predicate Below(c: Json, keyword: string, p: Path)
    requires p != []
    decreases |p|, 1
  {
    || (keyword in SCHEMA_VALUE_KEYWORDS && !(keyword == "items" && c.Arr?) && IsPosition(c, p[1..]))
    || (keyword == "items" && c.Arr? && ItemBelow(c.items, p))
    || (keyword in SCHEMA_ARRAY_KEYWORDS && c.Arr? && ItemBelow(c.items, p))
    || (keyword in SCHEMA_MAP_KEYWORDS && c.Obj? && FieldBelow(c, p, true))
    || (keyword == "dependencies" && c.Obj? && FieldBelow(c, p, false))
  }

  ghost predicate ItemBelow(items: seq<Json>, p: Path)
    requires p != []
    decreases |p|, 0
  {
    |p| > 1 && p[1].Index? && p[1].i < |items| && IsPosition(items[p[1].i], p[2..])
  }

  ghost predicate FieldBelow(c: Json, p: Path, arrays: bool)
    requires p != [] && c.Obj?
    decreases |p|, 0
  {
    && |p| > 1 && p[1].Key?
    && exists i :: 0 <= i < |c.keys| && i < |c.values| && c.keys[i] == p[1].key
                   && (arrays || !c.values[i].Arr?) && IsPosition(c.values[i], p[2..])
  }

  // ---------------------------------------------------------------- the positions one level down

  datatype Edge = Edge(step: Path, sub: Json)

  function ItemEdges(keyword: string, items: seq<Json>): seq<Edge> {
    seq(|items|, i requires 0 <= i < |items| => Edge([Key(keyword), Index(i)], items[i]))
  }

  function FieldEdges(keyword: string, c: Json): seq<Edge> {
    if !c.Obj? || |c.keys| != |c.values| then []
    else seq(|c.keys|, i requires 0 <= i < |c.keys| => Edge([Key(keyword), Key(c.keys[i])], c.values[i]))
  }

  function KeywordEdges(c: Json, n: nat): seq<Edge>
    requires n < 22
  {
    match KindOf(n)
    case VALUE =>
      if Name(n) == "items" && c.Arr? then ItemEdges(Name(n), c.items) else [Edge([Key(Name(n))], c)]
    case ARRAY => if c.Arr? then ItemEdges(Name(n), c.items) else []
    case MAP => FieldEdges(Name(n), c)
    case DEPENDENCIES => FieldEdges(Name(n), c)
  }

  function EdgesOf(j: Json, n: nat): seq<Edge>
    requires n < 22
  {
    if Get(j, Name(n)).None? then [] else KeywordEdges(Get(j, Name(n)).value, n)
  }

  function EdgesUpTo(j: Json, n: nat): seq<Edge>
    requires n <= 22
  {
    if n == 0 then [] else EdgesUpTo(j, n - 1) + EdgesOf(j, n - 1)
  }

  // ---------------------------------------------------------------- every edge goes down

  ghost predicate Down(es: seq<Edge>, j: Json) {
    forall i :: 0 <= i < |es| ==> es[i].sub < j
  }

  lemma KeywordEdgesDown(j: Json, n: nat)
    requires n < 22
    ensures Down(EdgesOf(j, n), j)
  {
    hide Name;
  }

  lemma {:induction false} EdgesDown(j: Json, n: nat)
    requires n <= 22
    ensures Down(EdgesUpTo(j, n), j)
  {
    if n > 0 {
      EdgesDown(j, n - 1);
      KeywordEdgesDown(j, n - 1);
    }
  }

  // ---------------------------------------------------------------- the count

  /** The number of schema positions, summed edge by edge. */
  function PositionCount(j: Json): nat
    decreases j
  {
    if !IsSchema(j) then 0
    else if j.Leaf? then 1
    else
      EdgesDown(j, 22);
      1 + Total(EdgesUpTo(j, 22), j)
  }

  function Total(es: seq<Edge>, j: Json): nat
    requires Down(es, j)
    decreases j, |es|
  {
    if es == [] then 0
    else Total(es[..|es| - 1], j) + PositionCount(es[|es| - 1].sub)
  }

  lemma {:induction false} TotalConcat(a: seq<Edge>, b: seq<Edge>, j: Json)
    requires Down(a, j) && Down(b, j)
    ensures Down(a + b, j) && Total(a + b, j) == Total(a, j) + Total(b, j)
    decreases |b|
  {
    if b == [] {
      assert a + b == a;
    } else {
      TotalConcat(a, b[..|b| - 1], j);
      assert (a + b)[..|a + b| - 1] == a + b[..|b| - 1];
    }
  }

  lemma {:induction false} CountSnoc(es: seq<Edge>, e: Edge, j: Json)
    requires Down(es, j) && e.sub < j
    ensures Down(es + [e], j) && Total(es + [e], j) == Total(es, j) + PositionCount(e.sub)
  {
    assert (es + [e])[..|es|] == es;
  }

  /** `countJsonSchemaPositions` as written, with its loops over the keyword tables. */
  method CountJsonSchemaPositions(schema: Json) returns (count: nat)
    ensures count == PositionCount(schema)
    decreases schema
  {
    if schema.Leaf? && schema.atom.Bool? { return 1; }
    if !schema.Obj? { return 0; }
    EdgesDown(schema, 22);
    StartOfCount(schema);
    hide Name, KeywordEdges, PositionCount, EdgesUpTo, Total, Down;
    count := 1;
    for n := 0 to 22
      invariant Down(EdgesUpTo(schema, n), schema) && count == 1 + Total(EdgesUpTo(schema, n), schema)
    {
      NextKeyword(schema, n);
      var candidate := Get(schema, Name(n));
      if candidate.Some? {
        var found := CountKeyword(candidate.value, n, schema);
        count := count + found;
      }
    }
  }

  lemma StartOfCount(j: Json)
    requires j.Obj?
    ensures Down(EdgesUpTo(j, 0), j) && Total(EdgesUpTo(j, 0), j) == 0
    ensures Down(EdgesUpTo(j, 22), j) && PositionCount(j) == 1 + Total(EdgesUpTo(j, 22), j)
  {
    EdgesDown(j, 22);
  }

  lemma NextKeyword(j: Json, n: nat)
    requires n < 22 && Down(EdgesUpTo(j, n), j)
    ensures Down(EdgesOf(j, n), j) && Down(EdgesUpTo(j, n + 1), j)
    ensures Total(EdgesUpTo(j, n + 1), j) == Total(EdgesUpTo(j, n), j) + Total(EdgesOf(j, n), j)
    ensures Get(j, Name(n)).None? ==> Total(EdgesOf(j, n), j) == 0
  {
    hide Name;
    KeywordEdgesDown(j, n);
    TotalConcat(EdgesUpTo(j, n), EdgesOf(j, n), j);
  }

  /** The positions below one keyword: the bodies of the four loops of the program. */
  method CountKeyword(candidate: Json, n: nat, ghost schema: Json) returns (count: nat)
    requires n < 22 && candidate < schema && Down(KeywordEdges(candidate, n), schema)
    ensures count == Total(KeywordEdges(candidate, n), schema)
    decreases schema, 1
  {
    ghost var es := KeywordEdges(candidate, n);
    NoEdges(schema);
    hide Total, PositionCount, IsSchema;
    if KindOf(n) == ARRAY || (Name(n) == "items" && candidate.Arr?) {
      if !candidate.Arr? { return 0; }
      KindOfItems(n);
      count := CountEach(candidate.items, false, es, schema);
    } else if KindOf(n) == VALUE {
      SingleEdge(es[0], schema);
      count := CountJsonSchemaPositions(candidate);
    } else {
      if !candidate.Obj? || |candidate.keys| != |candidate.values| { return 0; }
      count := CountEach(candidate.values, KindOf(n) == DEPENDENCIES, es, schema);
    }
  }

  lemma NoEdges(j: Json)
    ensures Down([], j) && Total([], j) == 0
  {
  }

  lemma SingleEdge(e: Edge, j: Json)
    requires e.sub < j
    ensures Down([e], j) && Total([e], j) == PositionCount(e.sub)
  {
    NoEdges(j);
    CountSnoc([], e, j);
    assert [] + [e] == [e];
  }

  lemma KindOfItems(n: nat)
    requires n < 22
    ensures Name(n) == "items" <==> n == 4
    ensures KindOf(4) == VALUE
  {
    if n != 4 {
      NameIsUnique(n, 4);
    }
  }

  /** One loop: `countSchema` on each candidate, or on each that is no array. */
  method CountEach(candidates: seq<Json>, skipArrays: bool, ghost es: seq<Edge>, ghost schema: Json)
    returns (count: nat)
    requires Down(es, schema) && |es| == |candidates| && forall i :: 0 <= i < |es| ==> es[i].sub == candidates[i]
    ensures count == Total(es, schema)
    decreases schema, 0
  {
    count := 0;
    for i := 0 to |candidates|
      invariant count == Total(es[..i], schema)
    {
      assert es[..i + 1] == es[..i] + [es[i]];
      CountSnoc(es[..i], es[i], schema);
      if !(skipArrays && candidates[i].Arr?) {
        var found := CountJsonSchemaPositions(candidates[i]);
        count := count + found;
      }
    }
    assert es[..|candidates|] == es;
  }

  // ---------------------------------------------------------------- counting is a cardinality

  /** All schema positions of `j`. */
  function Positions(j: Json): set<Path>
    decreases j
  {
    if !IsSchema(j) then {}
    else if j.Leaf? then {[]}
    else
      EdgesDown(j, 22);
      {[]} + Gather(EdgesUpTo(j, 22), j)
  }

  function Gather(es: seq<Edge>, j: Json): set<Path>
    requires Down(es, j)
    decreases j, |es|
  {
    if es == [] then {}
    else
      var e := es[|es| - 1];
      Gather(es[..|es| - 1], j) + Prefixed(e.step, Positions(e.sub))
  }

  function Prefixed(step: Path, ps: set<Path>): set<Path> {
    set p | p in ps :: step + p
  }

  lemma PrefixedMembers(step: Path, ps: set<Path>, p: Path)
    ensures p in Prefixed(step, ps) <==> step <= p && p[|step|..] in ps
  {
    if step <= p && p[|step|..] in ps {
      assert p == step + p[|step|..];
    }
    if p in Prefixed(step, ps) {
      var q :| q in ps && p == step + q;
      assert p[|step|..] == q;
    }
  }

  lemma {:induction false} PrefixedSize(step: Path, ps: set<Path>)
    ensures |Prefixed(step, ps)| == |ps|
  {
    if ps == {} {
      assert Prefixed(step, ps) == {};
    } else {
      var q :| q in ps;
      PrefixedSize(step, ps - {q});
      forall p ensures p in Prefixed(step, ps) <==> p in Prefixed(step, ps - {q}) + {step + q} {
        PrefixedMembers(step, ps, p);
        PrefixedMembers(step, ps - {q}, p);
        assert (step + q)[|step|..] == q;
        assert step <= p && p[|step|..] == q ==> p == step + q;
      }
      PrefixedMembers(step, ps - {q}, step + q);
      assert (step + q)[|step|..] == q;
      assert Prefixed(step, ps) == Prefixed(step, ps - {q}) + {step + q};
    }
  }

  predicate Through(e: Edge, p: Path) {
    e.step <= p && p[|e.step|..] in Positions(e.sub)
  }

  lemma {:induction false} GatherMembers(es: seq<Edge>, j: Json, p: Path)
    requires Down(es, j)
    ensures p in Gather(es, j) <==> exists i :: 0 <= i < |es| && Through(es[i], p)
    decreases |es|
  {
    if es != [] {
      var n := |es| - 1;
      GatherMembers(es[..n], j, p);
      PrefixedMembers(es[n].step, Positions(es[n].sub), p);
      assert Through(es[n], p) <==> p in Prefixed(es[n].step, Positions(es[n].sub));
      hide Positions, Through, Prefixed;
      assert forall i :: 0 <= i < n ==> es[..n][i] == es[i];
      assert p in Gather(es, j) <==> p in Gather(es[..n], j) || Through(es[n], p);
    }
  }

  /** No step of the list leads through another one's target. */
  ghost predicate PrefixFree(es: seq<Edge>) {
    forall i, k :: 0 <= i < |es| && 0 <= k < |es| && i != k ==> !(es[i].step <= es[k].step)
  }

  ghost predicate AllWellFormed(es: seq<Edge>) {
    forall i :: 0 <= i < |es| ==> WellFormed(es[i].sub) && es[i].step != []
  }

  /** A number that tells the keyword names apart. */
  function Tag(s: string): int {
    if |s| < 2 then |s| else |s| * 1_000_000 + s[0] as int * 1_000 + s[1] as int
  }

  const TAGS: seq<int> := [
    3_110_111, 2_105_102, 4_116_104, 4_101_108, 5_105_116, 15_097_100,
    8_099_111, 13_112_114, 20_097_100, 16_117_110, 21_117_110, 13_099_111,
    5_097_108, 5_097_110, 5_111_110, 11_112_114, 5_036_100, 11_100_101,
    10_112_114, 17_112_097, 16_100_101, 12_100_101
  ]

  lemma NameHasTag(n: nat)
    requires n < 22
    ensures Tag(Name(n)) == TAGS[n]
  {
  }

  lemma NamesAreDistinct(m: nat, n: nat)
    requires m < n < 22
    ensures Name(m) != Name(n)
  {
    hide Name, Tag;
    NameHasTag(m);
    NameHasTag(n);
  }

  lemma NameIsUnique(m: nat, n: nat)
    requires m < 22 && n < 22 && m != n
    ensures Name(m) != Name(n)
  {
    if m < n { NamesAreDistinct(m, n); } else { NamesAreDistinct(n, m); }
  }

  /** The numbering agrees with the tables: which table a name is in decides its kind. */
  lemma KindIsTable(n: nat)
    requires n < 22
    ensures Name(n) in SCHEMA_VALUE_KEYWORDS <==> KindOf(n) == VALUE
    ensures Name(n) in SCHEMA_ARRAY_KEYWORDS <==> KindOf(n) == ARRAY
    ensures Name(n) in SCHEMA_MAP_KEYWORDS <==> KindOf(n) == MAP
    ensures Name(n) == "dependencies" <==> KindOf(n) == DEPENDENCIES
  {
    forall m: nat | m < 22 && m != n ensures Name(m) != Name(n) {
      NameIsUnique(m, n);
    }
    TableNames();
    hide Name;
    assert n < 12 ==> SCHEMA_VALUE_KEYWORDS[n] == Name(n);
    assert 12 <= n < 16 ==> SCHEMA_ARRAY_KEYWORDS[n - 12] == Name(n);
    assert 16 <= n < 21 ==> SCHEMA_MAP_KEYWORDS[n - 16] == Name(n);
  }

  lemma TableNames()
    ensures |SCHEMA_VALUE_KEYWORDS| == 12 && |SCHEMA_ARRAY_KEYWORDS| == 4 && |SCHEMA_MAP_KEYWORDS| == 5
    ensures forall i :: 0 <= i < 12 ==> SCHEMA_VALUE_KEYWORDS[i] == Name(i)
    ensures forall i :: 0 <= i < 4 ==> SCHEMA_ARRAY_KEYWORDS[i] == Name(12 + i)
    ensures forall i :: 0 <= i < 5 ==> SCHEMA_MAP_KEYWORDS[i] == Name(16 + i)
    ensures Name(21) == "dependencies"
  {
  }

  predicate Keyword(name: string) {
    || name in SCHEMA_VALUE_KEYWORDS || name in SCHEMA_ARRAY_KEYWORDS || name in SCHEMA_MAP_KEYWORDS
    || name == "dependencies"
  }

  lemma KeywordHasNumber(name: string) returns (n: nat)
    requires Keyword(name)
    ensures n < 22 && Name(n) == name
  {
    TableNames();
    hide Name;
    if name in SCHEMA_VALUE_KEYWORDS {
      var i :| 0 <= i < |SCHEMA_VALUE_KEYWORDS| && SCHEMA_VALUE_KEYWORDS[i] == name;
      n := i;
    } else if name in SCHEMA_ARRAY_KEYWORDS {
      var i :| 0 <= i < |SCHEMA_ARRAY_KEYWORDS| && SCHEMA_ARRAY_KEYWORDS[i] == name;
      n := 12 + i;
    } else if name in SCHEMA_MAP_KEYWORDS {
      var i :| 0 <= i < |SCHEMA_MAP_KEYWORDS| && SCHEMA_MAP_KEYWORDS[i] == name;
      n := 16 + i;
    } else {
      n := 21;
    }
  }

  /** Edges below one keyword that differ in their second step. */
  ghost predicate Fan(es: seq<Edge>, name: string) {
    && (forall i :: 0 <= i < |es| ==> |es[i].step| == 2 && es[i].step[0] == Key(name) && WellFormed(es[i].sub))
    && (forall i, k :: 0 <= i < |es| && 0 <= k < |es| && i != k ==> es[i].step[1] != es[k].step[1])
  }

  lemma FanShape(es: seq<Edge>, name: string)
    requires Fan(es, name)
    ensures Apart(es, name)
  {
    hide WellFormed;
    forall i, k | 0 <= i < |es| && 0 <= k < |es| && i != k ensures !(es[i].step <= es[k].step) {
      assert es[i].step[1] != es[k].step[1];
    }
  }

  lemma ItemEdgesFan(name: string, c: Json)
    requires c.Arr? && WellFormed(c)
    ensures Fan(ItemEdges(name, c.items), name)
  {
  }

  lemma FieldEdgesFan(name: string, c: Json)
    requires WellFormed(c)
    ensures Fan(FieldEdges(name, c), name)
  {
  }

  ghost predicate Apart(es: seq<Edge>, name: string) {
    PrefixFree(es) && AllWellFormed(es) && forall i :: 0 <= i < |es| ==> es[i].step[0] == Key(name)
  }

  lemma KeywordEdgesShape(c: Json, n: nat)
    requires n < 22 && WellFormed(c)
    ensures Apart(KeywordEdges(c, n), Name(n))
  {
    FieldEdgesFan(Name(n), c);
    FanShape(FieldEdges(Name(n), c), Name(n));
    if c.Arr? {
      ItemEdgesFan(Name(n), c);
      FanShape(ItemEdges(Name(n), c.items), Name(n));
    }
    SingleShape([Key(Name(n))], c, Name(n));
    hide Name, Fan, PrefixFree, AllWellFormed, WellFormed;
    assert Apart([], Name(n)) by { NoneShape(Name(n)); }
    hide Apart, ItemEdges, FieldEdges;
    assert Apart(KeywordEdges(c, n), Name(n));
  }

  lemma SingleShape(step: Path, sub: Json, name: string)
    requires step == [Key(name)] && WellFormed(sub)
    ensures Apart([Edge(step, sub)], name)
  {
  }

  lemma NoneShape(name: string)
    ensures Apart([], name)
  {
  }

  lemma EdgesOfShape(j: Json, n: nat)
    requires n < 22 && WellFormed(j)
    ensures Apart(EdgesOf(j, n), Name(n))
  {
    hide Name, Apart, KeywordEdges;
    NoneShape(Name(n));
    if Get(j, Name(n)).Some? {
      KeywordEdgesShape(Get(j, Name(n)).value, n);
    }
    assert Apart(EdgesOf(j, n), Name(n));
  }

  lemma StepsApart(a: Path, b: Path)
    requires a != [] && b != [] && a[0] != b[0]
    ensures !(a <= b)
  {
  }

  lemma {:induction false} EdgesShape(j: Json, n: nat)
    requires n <= 22 && WellFormed(j)
    ensures PrefixFree(EdgesUpTo(j, n)) && AllWellFormed(EdgesUpTo(j, n))
    ensures forall i :: 0 <= i < |EdgesUpTo(j, n)| ==>
              exists m: nat :: m < n && EdgesUpTo(j, n)[i].step[0] == Key(Name(m))
  {
    if n > 0 {
      var before, more := EdgesUpTo(j, n - 1), EdgesOf(j, n - 1);
      EdgesShape(j, n - 1);
      EdgesOfShape(j, n - 1);
      forall m: nat | m < n - 1 ensures Name(m) != Name(n - 1) {
        NamesAreDistinct(m, n - 1);
      }
      hide Name, EdgesOf, WellFormed;
      var es := before + more;
      forall i, k | 0 <= i < |es| && 0 <= k < |es| && i != k ensures !(es[i].step <= es[k].step) {
        if (i < |before|) != (k < |before|) {
          StepsApart(es[i].step, es[k].step);
        }
      }
    }
  }

  lemma {:induction false} TotalIsCardinality(es: seq<Edge>, j: Json)
    requires Down(es, j) && PrefixFree(es) && AllWellFormed(es)
    ensures Total(es, j) == |Gather(es, j)| && [] !in Gather(es, j)
    decreases j, |es|
  {
    GatherMembers(es, j, []);
    if es != [] {
      var n := |es| - 1;
      TotalIsCardinality(es[..n], j);
      CountIsCardinality(es[n].sub);
      PrefixedSize(es[n].step, Positions(es[n].sub));
      LastIsSeparate(es, j);
      hide Positions, Prefixed, PositionCount, PrefixFree, AllWellFormed, WellFormed;
      assert Gather(es, j) == Gather(es[..n], j) + Prefixed(es[n].step, Positions(es[n].sub));
    }
  }

  lemma LastIsSeparate(es: seq<Edge>, j: Json)
    requires es != [] && Down(es, j) && PrefixFree(es)
    ensures Gather(es[..|es| - 1], j) !! Prefixed(es[|es| - 1].step, Positions(es[|es| - 1].sub))
  {
    var n := |es| - 1;
    var init, e := es[..n], es[n];
    hide Positions, Gather, Prefixed;
    forall p | p in Gather(init, j) ensures p !in Prefixed(e.step, Positions(e.sub)) {
      GatherMembers(init, j, p);
      PrefixedMembers(e.step, Positions(e.sub), p);
      var i :| 0 <= i < n && Through(init[i], p);
      if e.step <= p {
        PrefixesCompare(es[i].step, e.step, p);
      }
    }
  }

  lemma PrefixesCompare(a: Path, b: Path, p: Path)
    requires a <= p && b <= p
    ensures a <= b || b <= a
  {
    assert a == p[..|a|] && b == p[..|b|];
  }

  /** The count is the number of distinct paths, each position counted once. */
  lemma {:induction false} CountIsCardinality(j: Json)
    requires WellFormed(j)
    ensures PositionCount(j) == |Positions(j)|
    decreases j
  {
    if j.Obj? {
      EdgesDown(j, 22);
      EdgesShape(j, 22);
      TotalIsCardinality(EdgesUpTo(j, 22), j);
    }
  }

  // ---------------------------------------------------------------- the set is the reference definition

  ghost predicate ThroughSome(es: seq<Edge>, p: Path) {
    exists i :: 0 <= i < |es| && Through(es[i], p)
  }

  ghost predicate ThroughKeywords(j: Json, n: nat, p: Path)
    requires n <= 22
  {
    n > 0 && (ThroughKeywords(j, n - 1, p) || ThroughSome(EdgesOf(j, n - 1), p))
  }

  lemma {:induction false} ThroughUpTo(j: Json, n: nat, p: Path)
    requires n <= 22
    ensures ThroughSome(EdgesUpTo(j, n), p) <==> ThroughKeywords(j, n, p)
  {
    hide Through;
    if n > 0 {
      ThroughUpTo(j, n - 1, p);
      hide ThroughSome, EdgesOf;
      ThroughConcat(EdgesUpTo(j, n - 1), EdgesOf(j, n - 1), p);
    }
  }

  lemma {:induction false} ThroughOneKeyword(j: Json, n: nat, p: Path)
    requires n <= 22
    ensures ThroughKeywords(j, n, p) <==> exists m: nat :: m < n && ThroughSome(EdgesOf(j, m), p)
  {
    hide ThroughSome, EdgesOf;
    if n > 0 {
      ThroughOneKeyword(j, n - 1, p);
    }
  }

  lemma ThroughConcat(a: seq<Edge>, b: seq<Edge>, p: Path)
    ensures ThroughSome(a + b, p) <==> ThroughSome(a, p) || ThroughSome(b, p)
  {
    hide Through;
    assert forall i :: 0 <= i < |a| ==> (a + b)[i] == a[i];
    assert forall i :: 0 <= i < |b| ==> (a + b)[|a| + i] == b[i];
  }

  lemma TwoStep(e: Edge, p: Path)
    requires |e.step| == 2 && p != []
    ensures Through(e, p) <==> |p| > 1 && p[0] == e.step[0] && p[1] == e.step[1] && p[2..] in Positions(e.sub)
  {
    hide Positions;
  }

  lemma ThroughItems(n: nat, items: seq<Json>, p: Path)
    requires n < 22 && p != [] && forall i :: 0 <= i < |items| ==> WellFormed(items[i])
    ensures ThroughSome(ItemEdges(Name(n), items), p) <==> p[0] == Key(Name(n)) && ItemBelow(items, p)
    decreases |p|, 0
  {
    var es := ItemEdges(Name(n), items);
    hide Name;
    forall i | 0 <= i < |items|
      ensures Through(es[i], p) <==>
                |p| > 1 && p[0] == es[i].step[0] && p[1] == Index(i) && IsPosition(items[i], p[2..])
    {
      TwoStep(es[i], p);
      if |p| > 1 { PositionsAreExact(items[i], p[2..]); }
    }
    hide Through, IsPosition;
    if p[0] == Key(Name(n)) && ItemBelow(items, p) {
      assert Through(es[p[1].i], p);
    }
  }

  lemma ThroughFields(n: nat, c: Json, p: Path, arrays: bool)
    requires n < 22 && p != [] && c.Obj? && WellFormed(c)
    ensures ThroughSome(FieldEdges(Name(n), c), p) <==> p[0] == Key(Name(n)) && FieldBelow(c, p, arrays)
    decreases |p|, 0
  {
    var es := FieldEdges(Name(n), c);
    hide Name;
    forall i | 0 <= i < |c.values|
      ensures Through(es[i], p) <==>
                |p| > 1 && p[0] == Key(Name(n)) && p[1] == Key(c.keys[i])
                && (arrays || !c.values[i].Arr?) && IsPosition(c.values[i], p[2..])
    {
      TwoStep(es[i], p);
      if |p| > 1 { PositionsAreExact(c.values[i], p[2..]); }
    }
    hide Through, IsPosition, WellFormed;
  }

  lemma ThroughSub(n: nat, c: Json, p: Path)
    requires n < 22 && p != [] && WellFormed(c)
    ensures ThroughSome([Edge([Key(Name(n))], c)], p) <==> p[0] == Key(Name(n)) && IsPosition(c, p[1..])
    decreases |p|, 0
  {
    hide Name;
    PositionsAreExact(c, p[1..]);
    var es := [Edge([Key(Name(n))], c)];
    assert Through(es[0], p) <==> p[0] == Key(Name(n)) && p[1..] in Positions(c) by { hide Positions; }
    hide Through, Positions, IsPosition, WellFormed;
    assert ThroughSome(es, p) <==> Through(es[0], p);
  }

  lemma ThroughKeywordEdges(c: Json, n: nat, p: Path)
    requires n < 22 && p != [] && WellFormed(c)
    ensures ThroughSome(KeywordEdges(c, n), p) <==> p[0] == Key(Name(n)) && Below(c, Name(n), p)
    decreases |p|, 1
  {
    NoneThrough(p);
    ThroughSub(n, c, p);
    if c.Arr? { ThroughItems(n, c.items, p); }
    if c.Obj? { ThroughFields(n, c, p, true); ThroughFields(n, c, p, false); }
    KindIsTable(n);
    KindOfItems(n);
    hide Name, KindOf, ThroughSome, ItemBelow, FieldBelow, IsPosition, WellFormed, ItemEdges;
    assert !c.Obj? ==> FieldEdges(Name(n), c) == [];
    hide FieldEdges;
    assert ThroughSome(KeywordEdges(c, n), p) <==> p[0] == Key(Name(n)) && Below(c, Name(n), p);
  }

  lemma NoneThrough(p: Path)
    ensures !ThroughSome([], p)
  {
  }

  lemma ThroughKeyword(j: Json, n: nat, p: Path)
    requires n < 22 && p != [] && WellFormed(j)
    ensures ThroughSome(EdgesOf(j, n), p) <==>
              p[0] == Key(Name(n)) && Get(j, Name(n)).Some? && Below(Get(j, Name(n)).value, Name(n), p)
    decreases |p|, 2
  {
    hide Name, Below, KeywordEdges;
    NoneThrough(p);
    if Get(j, Name(n)).Some? {
      ThroughKeywordEdges(Get(j, Name(n)).value, n, p);
    }
    hide Get, ThroughSome, WellFormed;
    assert ThroughSome(EdgesOf(j, n), p) <==>
             p[0] == Key(Name(n)) && Get(j, Name(n)).Some? && Below(Get(j, Name(n)).value, Name(n), p);
  }

  /** The set that is counted is exactly the set of schema positions of the keyword tables. */
  lemma {:induction false} PositionsAreExact(j: Json, p: Path)
    requires WellFormed(j)
    ensures p in Positions(j) <==> IsPosition(j, p)
    decreases |p|, 3
  {
    if j.Obj? && p != [] {
      EdgesDown(j, 22);
      var es := EdgesUpTo(j, 22);
      GatherMembers(es, j, p);
      assert p in Positions(j) <==> p in Gather(es, j);
      assert p in Positions(j) <==> ThroughSome(es, p);
      ThroughUpTo(j, 22, p);
      ThroughOneKeyword(j, 22, p);
      forall n: nat | n < 22
        ensures ThroughSome(EdgesOf(j, n), p) <==>
                  p[0] == Key(Name(n)) && Get(j, Name(n)).Some? && Below(Get(j, Name(n)).value, Name(n), p)
      {
        ThroughKeyword(j, n, p);
      }
      hide Name, EdgesOf, ThroughSome, Below, Positions, WellFormed;
      if p[0].Key? && Get(j, p[0].key).Some? && Below(Get(j, p[0].key).value, p[0].key, p) {
        BelowIsKeyword(Get(j, p[0].key).value, p[0].key, p);
        var n := KeywordHasNumber(p[0].key);
      }
      assert p in Positions(j) <==> IsPosition(j, p);
    }
  }

  lemma BelowIsKeyword(c: Json, keyword: string, p: Path)
    requires p != [] && Below(c, keyword, p)
    ensures Keyword(keyword)
  {
    assert SCHEMA_VALUE_KEYWORDS[4] == "items";
    hide IsPosition, ItemBelow, FieldBelow;
  }

  // ---------------------------------------------------------------- the positions, table by table

  /** A value keyword holds one schema. */
  lemma ValueKeyword(j: Json, name: string, q: Path)
    requires WellFormed(j) && j.Obj? && name in SCHEMA_VALUE_KEYWORDS && Get(j, name).Some?
    requires !(name == "items" && Get(j, name).value.Arr?)
    ensures [Key(name)] + q in Positions(j) <==> q in Positions(Get(j, name).value)
  {
    var c, p := Get(j, name).value, [Key(name)] + q;
    OneTable(name);
    PositionsAreExact(j, p);
    PositionsAreExact(c, q);
    assert p[1..] == q;
    hide Positions, WellFormed, IsPosition;
    assert Below(c, name, p) <==> IsPosition(c, q);
    assert IsPosition(j, p) <==> Below(c, name, p) by { assert p[0] == Key(name); IsPositionBelow(j, p); }
  }

  lemma IsPositionBelow(j: Json, p: Path)
    requires j.Obj? && p != [] && p[0].Key?
    ensures IsPosition(j, p) <==> Get(j, p[0].key).Some? && Below(Get(j, p[0].key).value, p[0].key, p)
  {
    hide Below;
  }

  /** The tables do not overlap, and only `items` is in two minds. */
  lemma OneTable(name: string)
    requires Keyword(name)
    ensures name in SCHEMA_VALUE_KEYWORDS ==>
              name !in SCHEMA_ARRAY_KEYWORDS && name !in SCHEMA_MAP_KEYWORDS && name != "dependencies"
    ensures name in SCHEMA_ARRAY_KEYWORDS ==> name !in SCHEMA_MAP_KEYWORDS && name != "dependencies"
    ensures name in SCHEMA_MAP_KEYWORDS ==> name != "dependencies"
    ensures name == "items" ==> name in SCHEMA_VALUE_KEYWORDS
  {
    var n := KeywordHasNumber(name);
    KindIsTable(n);
    KindOfItems(n);
  }

  /** An array keyword, and `items` with an array, hold one schema per element. */
  lemma ArrayKeyword(j: Json, name: string, i: nat, q: Path)
    requires WellFormed(j) && j.Obj? && (name in SCHEMA_ARRAY_KEYWORDS || name == "items")
    requires Get(j, name).Some? && Get(j, name).value.Arr?
    ensures [Key(name), Index(i)] + q in Positions(j) <==>
              i < |Get(j, name).value.items| && q in Positions(Get(j, name).value.items[i])
  {
    var c, p := Get(j, name).value, [Key(name), Index(i)] + q;
    assert SCHEMA_VALUE_KEYWORDS[4] == "items";
    OneTable(name);
    PositionsAreExact(j, p);
    assert WellFormed(c);
    if i < |c.items| { PositionsAreExact(c.items[i], q); }
    assert p[2..] == q && p[1] == Index(i);
    IsPositionBelow(j, p);
    hide Positions, WellFormed, IsPosition;
    assert Below(c, name, p) <==> ItemBelow(c.items, p);
  }

  /** A map keyword holds one schema per field, and so does `dependencies` where the field is no array. */
  lemma MapKeyword(j: Json, name: string, k: string, q: Path)
    requires WellFormed(j) && j.Obj? && (name in SCHEMA_MAP_KEYWORDS || name == "dependencies")
    requires Get(j, name).Some? && Get(j, name).value.Obj?
    ensures var field := Get(Get(j, name).value, k);
            [Key(name), Key(k)] + q in Positions(j) <==>
              field.Some? && !(name == "dependencies" && field.value.Arr?) && q in Positions(field.value)
  {
    var c, p := Get(j, name).value, [Key(name), Key(k)] + q;
    OneTable(name);
    PositionsAreExact(j, p);
    assert WellFormed(c);
    FieldIsGot(c, k);
    if Get(c, k).Some? {
      assert WellFormed(Get(c, k).value);
      PositionsAreExact(Get(c, k).value, q);
    }
    assert p[2..] == q && p[1] == Key(k);
    IsPositionBelow(j, p);
    hide Positions, WellFormed, IsPosition, Get;
    assert Below(c, name, p) <==> FieldBelow(c, p, name in SCHEMA_MAP_KEYWORDS);
  }

  lemma FieldIsGot(c: Json, k: string)
    requires WellFormed(c) && c.Obj?
    ensures forall i :: 0 <= i < |c.keys| ==>
              (c.keys[i] == k <==>
                 Get(c, k).Some? && c.values[i] == Get(c, k).value && Find(c.keys, k) == i)
    ensures Get(c, k).Some? ==> 0 <= Find(c.keys, k) < |c.keys| && c.keys[Find(c.keys, k)] == k
                                && c.values[Find(c.keys, k)] == Get(c, k).value
  {
  }

  /** No other name, and no other kind of value, holds a schema. */
  lemma NoOtherPositions(j: Json, p: Path)
    requires WellFormed(j) && p != [] && p in Positions(j)
    ensures j.Obj? && p[0].Key? && Keyword(p[0].key) && Get(j, p[0].key).Some?
    ensures p[0].key in SCHEMA_ARRAY_KEYWORDS ==> Get(j, p[0].key).value.Arr? && |p| > 1 && p[1].Index?
    ensures p[0].key in SCHEMA_MAP_KEYWORDS || p[0].key == "dependencies" ==>
              Get(j, p[0].key).value.Obj? && |p| > 1 && p[1].Key?
    ensures p[0].key == "items" && Get(j, p[0].key).value.Arr? ==> |p| > 1 && p[1].Index?
  {
    PositionsAreExact(j, p);
    assert j.Obj?;
    IsPositionBelow(j, p);
    BelowIsKeyword(Get(j, p[0].key).value, p[0].key, p);
    OneTable(p[0].key);
    hide Positions, IsPosition, WellFormed;
  }
}
