/** The bounded walk over a JSON value in the heap, and the checks built on it. */
module JsonWalk {
  import opened Sequences
  import opened Json

  datatype Code =
    | DEPTH | KEYS | CYCLIC_VALUE
    | INVALID_REF | EXTERNAL_REF | INVALID_SCHEMA
    | BYTES | SUBSCHEMAS

  const REF_KEYWORDS: seq<string> := ["$ref", "$dynamicRef"]

  // ---------------------------------------------------------------- reference checks of a schema object

  /** The fault of one reference keyword; `texts` has the text of each field that is a string. */
  function KeywordFault(keyword: string, keys: seq<string>, texts: seq<Option<string>>): Option<Code> {
    var i := Find(keys, keyword);
    if i < 0 || i >= |texts| then None
    else if texts[i].None? then Some(INVALID_REF)
    else if texts[i].value == [] || texts[i].value[0] != '#' then Some(EXTERNAL_REF)
    else None
  }

  function RefFault(keys: seq<string>, texts: seq<Option<string>>): Option<Code> {
    var first := KeywordFault(REF_KEYWORDS[0], keys, texts);
    if first.Some? then first else KeywordFault(REF_KEYWORDS[1], keys, texts)
  }

  function ValTexts(vs: seq<Val>): seq<Option<string>> {
    seq(|vs|, i requires 0 <= i < |vs| => if vs[i].Atomic? && vs[i].atom.Str? then Some(vs[i].atom.text) else None)
  }

  function Texts(js: seq<Json>): seq<Option<string>> {
    seq(|js|, i requires 0 <= i < |js| => if js[i].Leaf? && js[i].atom.Str? then Some(js[i].atom.text) else None)
  }

  /** Every object of the tree has only document-local string references. */
  predicate LocalRefs(j: Json)
    decreases j, 1
  {
    match j
    case Leaf(_) => true
    case Arr(items) => LocalRefsAll(items)
    case Obj(keys, values) => RefFault(keys, Texts(values)).None? && LocalRefsAll(values)
  }

  predicate LocalRefsAll(js: seq<Json>)
    decreases js, 0
  {
    js == [] || (LocalRefsAll(js[..|js| - 1]) && LocalRefs(js[|js| - 1]))
  }

  lemma {:induction false} LocalRefsPrefix(js: seq<Json>, n: nat)
    requires n <= |js| && LocalRefsAll(js)
    ensures LocalRefsAll(js[..n])
    decreases |js|
  {
    if n < |js| {
      LocalRefsPrefix(js[..|js| - 1], n);
      assert js[..|js| - 1][..n] == js[..n];
    } else {
      assert js[..n] == js;
    }
  }

  /** A document-local reference: a string that starts with `#`. */
  ghost predicate LocalRef(j: Json) {
    exists rest: string :: j == Leaf(Str(['#'] + rest))
  }

  /** The reference keywords of one object are local. */
  ghost predicate RefsAreLocal(j: Json) {
    && (Get(j, "$ref").Some? ==> LocalRef(Get(j, "$ref").value))
    && (Get(j, "$dynamicRef").Some? ==> LocalRef(Get(j, "$dynamicRef").value))
  }

  /** The faults of one reference keyword: no string, or a string that does not start with `#`. */
  lemma KeywordFaultMeans(keyword: string, j: Json)
    requires j.Obj?
    ensures KeywordFault(keyword, j.keys, Texts(j.values)) ==
              if Get(j, keyword).None? || LocalRef(Get(j, keyword).value) then None
              else if Get(j, keyword).value.Leaf? && Get(j, keyword).value.atom.Str? then Some(EXTERNAL_REF)
              else Some(INVALID_REF)
  {
    if Get(j, keyword).Some? {
      LocalRefMeans(Get(j, keyword).value);
    }
    hide LocalRef;
  }

  lemma LocalRefMeans(j: Json)
    ensures LocalRef(j) <==> j.Leaf? && j.atom.Str? && j.atom.text != [] && j.atom.text[0] == '#'
  {
    if j.Leaf? && j.atom.Str? && j.atom.text != [] && j.atom.text[0] == '#' {
      assert j.atom.text == ['#'] + j.atom.text[1..];
    }
  }

  lemma RefFaultMeans(j: Json)
    requires j.Obj?
    ensures RefFault(j.keys, Texts(j.values)).None? <==> RefsAreLocal(j)
  {
    KeywordFaultMeans("$ref", j);
    KeywordFaultMeans("$dynamicRef", j);
    hide KeywordFault, LocalRef, Get;
  }

  /** References are local throughout exactly when those of every object inside are. */
  lemma {:induction false} LocalRefsMeans(j: Json)
    ensures LocalRefs(j) <==> forall part :: Inside(part, j) && part.Obj? ==> RefsAreLocal(part)
    decreases j, 1
  {
    if j.Obj? {
      RefFaultMeans(j);
    }
    if !j.Leaf? {
      LocalRefsAllMeans(if j.Arr? then j.items else j.values, j);
    }
    hide RefFault, RefsAreLocal, Texts;
    InsideParts(j);
    hide Inside;
    assert LocalRefs(j) <==> forall part :: Inside(part, j) && part.Obj? ==> RefsAreLocal(part);
  }

  ghost predicate InsideSome(part: Json, js: seq<Json>) {
    exists i :: 0 <= i < |js| && Inside(part, js[i])
  }

  lemma InsideParts(j: Json)
    ensures forall part :: Inside(part, j) <==>
              part == j || (j.Arr? && InsideSome(part, j.items)) || (j.Obj? && InsideSome(part, j.values))
  {
  }

  lemma {:induction false} LocalRefsAllMeans(js: seq<Json>, whole: Json)
    requires forall i :: 0 <= i < |js| ==> js[i] < whole
    ensures LocalRefsAll(js) <==> forall part :: InsideSome(part, js) && part.Obj? ==> RefsAreLocal(part)
    decreases whole, 0, |js|
  {
    if js != [] {
      var n := |js| - 1;
      LocalRefsAllMeans(js[..n], whole);
      LocalRefsMeans(js[n]);
      InsideSnoc(js);
      hide RefsAreLocal, Inside, InsideSome, LocalRefs;
      assert LocalRefsAll(js) <==> LocalRefsAll(js[..n]) && LocalRefs(js[n]);
    }
  }

  lemma InsideSnoc(js: seq<Json>)
    requires js != []
    ensures forall part :: InsideSome(part, js) <==> InsideSome(part, js[..|js| - 1]) || Inside(part, js[|js| - 1])
  {
    hide Inside;
    var n := |js| - 1;
    assert forall i :: 0 <= i < n ==> js[..n][i] == js[i];
    forall part ensures InsideSome(part, js) <==> InsideSome(part, js[..n]) || Inside(part, js[n]) {
      if i :| 0 <= i < |js| && Inside(part, js[i]) {
        assert i < n ==> Inside(part, js[..n][i]);
      }
    }
  }

  lemma TextsUnfold(h: Heap, vs: seq<Val>, d: nat)
    requires UnfoldAll(h, vs, d).Some?
    ensures ValTexts(vs) == Texts(UnfoldAll(h, vs, d).value)
  {
    UnfoldAllAt(h, vs, d);
    var js := UnfoldAll(h, vs, d).value;
    forall i | 0 <= i < |vs| ensures ValTexts(vs)[i] == Texts(js)[i] {
      assert Unfold(h, vs[i], d) == Some(js[i]);
    }
  }

  // ---------------------------------------------------------------- what a walk accepts

  /** The value stands for a tree of nesting at most `d`, with at most `budget` keys, and with local
      references if they are checked. */
  predicate Accepted(h: Heap, v: Val, d: nat, budget: int, checkRefs: bool) {
    var j := Unfold(h, v, d);
    j.Some? && KeyCount(j.value) <= budget && (checkRefs ==> LocalRefs(j.value))
  }

  predicate AcceptedAll(h: Heap, vs: seq<Val>, d: nat, budget: int, checkRefs: bool) {
    var js := UnfoldAll(h, vs, d);
    js.Some? && KeyCountAll(js.value) <= budget && (checkRefs ==> LocalRefsAll(js.value))
  }

  function KeysOfAll(h: Heap, vs: seq<Val>, d: nat): nat
    requires UnfoldAll(h, vs, d).Some?
  {
    KeyCountAll(UnfoldAll(h, vs, d).value)
  }

  function KeysOf(h: Heap, v: Val, d: nat): nat
    requires Unfold(h, v, d).Some?
  {
    KeyCount(Unfold(h, v, d).value)
  }

  /** One more child: the prefix accepted so far and the child within what is left of the budget. */
  lemma AcceptedSnoc(h: Heap, vs: seq<Val>, d: nat, n: nat, budget: int, checkRefs: bool)
    requires n < |vs| && AcceptedAll(h, vs[..n], d, budget, checkRefs)
    ensures AcceptedAll(h, vs[..n + 1], d, budget, checkRefs)
       <==> Accepted(h, vs[n], d, budget - KeysOfAll(h, vs[..n], d), checkRefs)
    ensures Unfold(h, vs[n], d).Some? ==> UnfoldAll(h, vs[..n + 1], d).Some?
    ensures Unfold(h, vs[n], d).Some? ==>
              KeysOfAll(h, vs[..n + 1], d) == KeysOfAll(h, vs[..n], d) + KeysOf(h, vs[n], d)
  {
    UnfoldSnoc(h, vs, d, n);
    if Unfold(h, vs[n], d).Some? {
      MeasuresSnoc(UnfoldAll(h, vs[..n], d).value, Unfold(h, vs[n], d).value);
    }
    hide UnfoldAll, Unfold, KeyCountAll, KeyCount, LocalRefsAll, LocalRefs;
    assert AcceptedAll(h, vs[..n + 1], d, budget, checkRefs)
      <==> Accepted(h, vs[n], d, budget - KeysOfAll(h, vs[..n], d), checkRefs);
  }

  lemma UnfoldSnoc(h: Heap, vs: seq<Val>, d: nat, n: nat)
    requires n < |vs|
    ensures var init, last := UnfoldAll(h, vs[..n], d), Unfold(h, vs[n], d);
            UnfoldAll(h, vs[..n + 1], d) ==
              if init.None? || last.None? then None else Some(init.value + [last.value])
  {
    var next := vs[..n + 1];
    assert next[..|next| - 1] == vs[..n] && next[|next| - 1] == vs[n];
    hide Unfold;
  }

  lemma MeasuresSnoc(js: seq<Json>, j: Json)
    ensures KeyCountAll(js + [j]) == KeyCountAll(js) + KeyCount(j)
    ensures LocalRefsAll(js + [j]) <==> LocalRefsAll(js) && LocalRefs(j)
  {
    var all := js + [j];
    assert all[..|all| - 1] == js && all[|all| - 1] == j;
    hide KeyCount, LocalRefs;
  }

  lemma AcceptedPrefix(h: Heap, vs: seq<Val>, d: nat, n: nat, budget: int, checkRefs: bool)
    requires n <= |vs| && AcceptedAll(h, vs, d, budget, checkRefs)
    ensures AcceptedAll(h, vs[..n], d, budget, checkRefs)
  {
    UnfoldPrefix(h, vs, d, n);
    var js := UnfoldAll(h, vs, d).value;
    PrefixIsSmaller(js, n);
    if checkRefs { LocalRefsPrefix(js, n); }
  }

  /** A container is accepted exactly when its own keys and references and its children are. */
  lemma AcceptedContainer(h: Heap, r: nat, d: nat, budget: int, checkRefs: bool)
    requires Closed(h) && r in h && d > 0
    ensures var own := if h[r].ObjectCell? then |h[r].keys| else 0;
            var refs := h[r].ObjectCell? && checkRefs ==> RefFault(h[r].keys, ValTexts(h[r].fields)).None?;
            && (Accepted(h, Ref(r), d, budget, checkRefs) <==>
                  refs && AcceptedAll(h, Vals(h[r]), d - 1, budget - own, checkRefs))
            && (Unfold(h, Ref(r), d).Some? <==> UnfoldAll(h, Vals(h[r]), d - 1).Some?)
            && (Unfold(h, Ref(r), d).Some? ==> KeysOf(h, Ref(r), d) == own + KeysOfAll(h, Vals(h[r]), d - 1))
  {
    if h[r].ObjectCell? && UnfoldAll(h, Vals(h[r]), d - 1).Some? {
      TextsUnfold(h, h[r].fields, d - 1);
    }
  }

  // ---------------------------------------------------------------- the walk as written

  /** `path` is the chain of containers from the root to the parent of `v`. */
  ghost predicate Leads(h: Heap, path: seq<nat>, v: Val) {
    && IsPath(h, path)
    && (path != [] && v.Ref? ==> HasChild(h, path[|path| - 1], v.id))
  }

  lemma BackEdgeIsCycle(h: Heap, path: seq<nat>, v: Val)
    requires Closed(h) && v.Ref? && v.id in h && Leads(h, path, v) && v.id in path
    ensures forall d: nat :: Unfold(h, v, d).None?
  {
    var i :| 0 <= i < |path| && path[i] == v.id;
    LeadsFurther(h, path, v);
    var p := path + [v.id];
    SubPath(h, p, i, |p|);
    forall d: nat ensures Unfold(h, v, d).None? {
      CycleNeverUnfolds(h, p[i..|p|], d);
    }
  }

  lemma LeadsFurther(h: Heap, path: seq<nat>, v: Val)
    requires v.Ref? && v.id in h && Leads(h, path, v)
    ensures IsPath(h, path + [v.id])
    ensures forall i :: 0 <= i < |Vals(h[v.id])| ==> Leads(h, path + [v.id], Vals(h[v.id])[i])
  {
    var p := path + [v.id];
    forall n | 0 <= n < |p| - 1 ensures HasChild(h, p[n], p[n + 1]) {
      if n < |path| - 1 {
        assert HasChild(h, path[n], path[n + 1]);
      }
    }
    forall i | 0 <= i < |Vals(h[v.id])| ensures Leads(h, p, Vals(h[v.id])[i]) {
      if Vals(h[v.id])[i].Ref? {
        assert HasChild(h, v.id, Vals(h[v.id])[i].id);
      }
    }
  }

  lemma ChildNeverUnfolds(h: Heap, r: nat, i: nat)
    requires r in h && i < |Vals(h[r])| && forall d: nat :: Unfold(h, Vals(h[r])[i], d).None?
    ensures forall d: nat :: Unfold(h, Ref(r), d).None?
  {
    forall d: nat ensures Unfold(h, Ref(r), d).None? {
      if d > 0 {
        assert Unfold(h, Vals(h[r])[i], d - 1).None?;
        UnfoldAllAt(h, Vals(h[r]), d - 1);
      }
    }
  }

  lemma NothingWithinLess(h: Heap, vs: seq<Val>, d: nat, budget: int, checkRefs: bool)
    requires budget < 0
    ensures !AcceptedAll(h, vs, d, budget, checkRefs)
  {
  }

  lemma NeverAccepted(h: Heap, v: Val, d: nat, budget: int, checkRefs: bool)
    requires Unfold(h, v, d).None?
    ensures !Accepted(h, v, d, budget, checkRefs)
  {
  }

  class Walker {
    const heap: Heap
    const maxDepth: nat
    const maxKeys: int
    const checkRefs: bool
    var ancestors: set<nat>
    var keys: nat

    constructor (heap: Heap, maxDepth: nat, maxKeys: int, checkRefs: bool)
      ensures this.heap == heap && this.maxDepth == maxDepth && this.maxKeys == maxKeys && this.checkRefs == checkRefs
      ensures ancestors == {} && keys == 0
    {
      this.heap, this.maxDepth, this.maxKeys, this.checkRefs := heap, maxDepth, maxKeys, checkRefs;
      ancestors, keys := {}, 0;
    }

    /** What `visit` does with the object itself: its keys are counted and its references checked. */
    method CheckObject(cell: Cell) returns (error: Option<Code>)
      requires keys <= maxKeys
      modifies this`keys
      ensures var own := if cell.ObjectCell? then |cell.keys| else 0;
              var refs := cell.ObjectCell? && checkRefs ==> RefFault(cell.keys, ValTexts(cell.fields)).None?;
              && keys == old(keys) + own
              && (error == Some(KEYS) <==> keys > maxKeys)
              && (error.None? <==> keys <= maxKeys && refs)
      ensures error.Some? ==> error.value in [KEYS, INVALID_REF, EXTERNAL_REF]
    {
      if cell.ObjectCell? {
        keys := keys + |cell.keys|;
        if keys > maxKeys {
          return Some(KEYS);
        }
        if checkRefs {
          var fault := RefFault(cell.keys, ValTexts(cell.fields));
          if fault.Some? {
            return fault;
          }
        }
      }
      error := None;
    }

    /** `visit`: the recursion ends on every finite heap, cyclic or shared, because nesting is bounded.
        While it runs, `ancestors` is the set of containers on the current path. */
    method Visit(v: Val, depth: nat, ghost path: seq<nat>) returns (error: Option<Code>)
      requires Closed(heap) && Within(heap, v) && 1 <= depth <= maxDepth + 1 && keys <= maxKeys
      requires Leads(heap, path, v) && (forall r :: r in ancestors <==> r in path)
      modifies this
      ensures error.None? <==>
                Accepted(heap, v, maxDepth + 1 - depth, maxKeys - old(keys), checkRefs)
      ensures error.None? ==>
                ancestors == old(ancestors) && keys == old(keys) + KeysOf(heap, v, maxDepth + 1 - depth)
      ensures error == Some(CYCLIC_VALUE) ==> forall d: nat :: Unfold(heap, v, d).None?
      ensures error == Some(DEPTH) ==> Unfold(heap, v, maxDepth + 1 - depth).None?
      decreases maxDepth + 1 - depth, 2
    {
      if v.Atomic? {
        return None;
      }
      if depth > maxDepth {
        return Some(DEPTH);
      }
      hide Leads, Closed, Accepted, KeysOf, Unfold;
      if v.id in ancestors {
        BackEdgeIsCycle(heap, path, v);
        NeverAccepted(heap, v, maxDepth + 1 - depth, maxKeys - keys, checkRefs);
        return Some(CYCLIC_VALUE);
      }
      error := VisitContainer(v.id, depth, path);
    }

    /** The part of `visit` for a container that is no ancestor, at a depth within the bound. */
    method VisitContainer(current: nat, depth: nat, ghost path: seq<nat>) returns (error: Option<Code>)
      requires Closed(heap) && current in heap && 1 <= depth <= maxDepth && keys <= maxKeys
      requires Leads(heap, path, Ref(current)) && (forall r :: r in ancestors <==> r in path) && current !in ancestors
      modifies this
      ensures error.None? <==>
                Accepted(heap, Ref(current), maxDepth + 1 - depth, maxKeys - old(keys), checkRefs)
      ensures error.None? ==>
                && ancestors == old(ancestors)
                && keys == old(keys) + KeysOf(heap, Ref(current), maxDepth + 1 - depth)
      ensures error == Some(CYCLIC_VALUE) ==> forall d: nat :: Unfold(heap, Ref(current), d).None?
      ensures error == Some(DEPTH) ==> Unfold(heap, Ref(current), maxDepth + 1 - depth).None?
      decreases maxDepth + 1 - depth, 1
    {
      hide Leads, Closed, RefFault, ValTexts, AcceptedAll, KeysOf, KeysOfAll, Unfold, UnfoldAll;
      ghost var d := maxDepth - depth;
      LeadsFurther(heap, path, Ref(current));
      AcceptedContainer(heap, current, d + 1, maxKeys - keys, checkRefs);
      ancestors := ancestors + {current};
      error := CheckObject(heap[current]);
      if error.Some? {
        if error == Some(KEYS) {
          NothingWithinLess(heap, Vals(heap[current]), d, maxKeys - keys, checkRefs);
        }
        assert !Accepted(heap, Ref(current), d + 1, maxKeys - old(keys), checkRefs);
        return;
      }
      error := VisitAll(current, depth, path);
      if error.None? {
        ancestors := ancestors - {current};
        assert ancestors == old(ancestors);
      }
      assert error.None? <==> Accepted(heap, Ref(current), d + 1, maxKeys - old(keys), checkRefs);
    }

    /** The loop over the children of the container `current`. */
    method VisitAll(current: nat, depth: nat, ghost path: seq<nat>) returns (error: Option<Code>)
      requires Closed(heap) && current in heap && 1 <= depth <= maxDepth && keys <= maxKeys
      requires Leads(heap, path, Ref(current)) && (forall r :: r in ancestors <==> r in path + [current])
      modifies this
      ensures error.None? <==>
                AcceptedAll(heap, Vals(heap[current]), maxDepth - depth, maxKeys - old(keys), checkRefs)
      ensures error.None? ==>
                && ancestors == old(ancestors)
                && keys == old(keys) + KeysOfAll(heap, Vals(heap[current]), maxDepth - depth)
      ensures error == Some(CYCLIC_VALUE) ==> forall d: nat :: Unfold(heap, Ref(current), d).None?
      ensures error == Some(DEPTH) ==> UnfoldAll(heap, Vals(heap[current]), maxDepth - depth).None?
      decreases maxDepth + 1 - depth, 0
    {
      var vs := Vals(heap[current]);
      ghost var d := maxDepth - depth;
      ghost var budget := maxKeys - keys;
      LeadsFurther(heap, path, Ref(current));
      for i := 0 to |vs|
        invariant AcceptedAll(heap, vs[..i], d, budget, checkRefs)
        invariant ancestors == old(ancestors) && keys == old(keys) + KeysOfAll(heap, vs[..i], d)
      {
        AcceptedSnoc(heap, vs, d, i, budget, checkRefs);
        error := Visit(vs[i], depth + 1, path + [current]);
        if error.Some? {
          if AcceptedAll(heap, vs, d, budget, checkRefs) {
            AcceptedPrefix(heap, vs, d, i + 1, budget, checkRefs);
          }
          if error == Some(CYCLIC_VALUE) {
            ChildNeverUnfolds(heap, current, i);
          }
          if error == Some(DEPTH) {
            UnfoldAllAt(heap, vs, d);
          }
          return;
        }
      }
      assert vs[..|vs|] == vs;
      error := None;
    }
  }

  /** `walkJsonValue`: it returns normally exactly when the value stands for a finite tree (so nothing
      reachable is cyclic) within the bounds, and then it has counted the keys of that tree. */
  method WalkJsonValue(heap: Heap, v: Val, maxDepth: nat, maxKeys: nat, checkRefs: bool)
    returns (error: Option<Code>, keys: nat)
    requires Closed(heap) && Within(heap, v)
    ensures error.None? <==>
              exists j :: Represents(heap, v, j) && Depth(j) <= maxDepth && KeyCount(j) <= maxKeys
                          && (checkRefs ==> LocalRefs(j))
    ensures error.None? ==> exists j :: Represents(heap, v, j) && Depth(j) <= maxDepth && KeyCount(j) == keys
    ensures error.None? ==> Acyclic(heap, v)
    ensures error == Some(CYCLIC_VALUE) ==> !Acyclic(heap, v)
    ensures error == Some(DEPTH) ==> forall j :: Represents(heap, v, j) ==> Depth(j) > maxDepth
  {
    var walker := new Walker(heap, maxDepth, maxKeys, checkRefs);
    error := walker.Visit(v, 1, []);
    keys := walker.keys;
    hide Acyclic, Represents, Accepted;
    WalkOutcome(heap, v, maxDepth, maxKeys, checkRefs);
    RepresentedIffAcyclic(heap, v);
    if error == Some(CYCLIC_VALUE) {
      NeverUnfolds(heap, v);
    }
  }

  lemma NeverUnfolds(h: Heap, v: Val)
    requires forall d: nat :: Unfold(h, v, d).None?
    ensures forall j :: !Represents(h, v, j)
  {
  }

  lemma WalkOutcome(h: Heap, v: Val, maxDepth: nat, maxKeys: nat, checkRefs: bool)
    ensures Accepted(h, v, maxDepth, maxKeys, checkRefs) <==>
              exists j :: Represents(h, v, j) && Depth(j) <= maxDepth && KeyCount(j) <= maxKeys
                          && (checkRefs ==> LocalRefs(j))
    ensures Unfold(h, v, maxDepth).Some? ==>
              var j := Unfold(h, v, maxDepth).value;
              Represents(h, v, j) && Depth(j) <= maxDepth && KeyCount(j) == KeysOf(h, v, maxDepth)
    ensures Unfold(h, v, maxDepth).None? ==> forall j :: Represents(h, v, j) ==> Depth(j) > maxDepth
    ensures Accepted(h, v, maxDepth, maxKeys, checkRefs) ==> Unfold(h, v, maxDepth).Some?
  {
    forall j ensures Unfold(h, v, maxDepth) == Some(j) <==> Represents(h, v, j) && Depth(j) <= maxDepth {
      UnfoldsToRepresented(h, v, maxDepth, j);
    }
  }
}
