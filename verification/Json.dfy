/** JSON values, and JSON as it lies in a program's heap, where it can be shared and cyclic. */
module Json {
  import opened Sequences

  datatype Atom = Null | Bool(b: bool) | Num(text: string) | Str(text: string)

  /** A value as a tree; an object lists its own keys in order, each with its value. */
  datatype Json =
    | Leaf(atom: Atom)
    | Arr(items: seq<Json>)
    | Obj(keys: seq<string>, values: seq<Json>)

  /** Container nesting. */
  function Depth(j: Json): nat
    decreases j, 1
  {
    match j
    case Leaf(_) => 0
    case Arr(items) => 1 + DepthAll(items)
    case Obj(_, values) => 1 + DepthAll(values)
  }

  function DepthAll(js: seq<Json>): (d: nat)
    decreases js, 0
  {
    if js == [] then 0
    else
      var rest, last := DepthAll(js[..|js| - 1]), Depth(js[|js| - 1]);
      if last > rest then last else rest
  }

  /** The object keys of the whole tree. */
  function KeyCount(j: Json): nat
    decreases j, 1
  {
    match j
    case Leaf(_) => 0
    case Arr(items) => KeyCountAll(items)
    case Obj(keys, values) => |keys| + KeyCountAll(values)
  }

  function KeyCountAll(js: seq<Json>): nat
    decreases js, 0
  {
    if js == [] then 0 else KeyCountAll(js[..|js| - 1]) + KeyCount(js[|js| - 1])
  }

  /** The length of the serialized text; `quoted` is the length of a string literal, in bytes. */
  function Bytes(j: Json, quoted: string -> nat): nat
    decreases j, 1
  {
    match j
    case Leaf(Null) => 4
    case Leaf(Bool(b)) => if b then 4 else 5
    case Leaf(Num(text)) => |text|
    case Leaf(Str(text)) => quoted(text)
    case Arr(items) => 2 + Commas(|items|) + BytesAll(items, quoted)
    case Obj(keys, values) => 2 + Commas(|keys|) + KeyBytes(keys, quoted) + BytesAll(values, quoted)
  }

  function BytesAll(js: seq<Json>, quoted: string -> nat): nat
    decreases js, 0
  {
    if js == [] then 0 else BytesAll(js[..|js| - 1], quoted) + Bytes(js[|js| - 1], quoted)
  }

  function KeyBytes(keys: seq<string>, quoted: string -> nat): nat {
    if keys == [] then 0 else KeyBytes(keys[..|keys| - 1], quoted) + quoted(keys[|keys| - 1]) + 1
  }

  function Commas(n: nat): nat { if n == 0 then 0 else n - 1 }

  // ---------------------------------------------------------------- the serialized text

  /** `JSON.stringify`, in bytes; `quote` gives a string literal, and a number is its own text. */
  function Stringified(j: Json, quote: string -> string): string
    decreases j, 1
  {
    match j
    case Leaf(Null) => "null"
    case Leaf(Bool(b)) => if b then "true" else "false"
    case Leaf(Num(text)) => text
    case Leaf(Str(text)) => quote(text)
    case Arr(items) => "[" + Intercalate(Elements(items, quote), ',') + "]"
    case Obj(keys, values) => "{" + Intercalate(Members(keys, values, quote), ',') + "}"
  }

  function Elements(js: seq<Json>, quote: string -> string): (r: seq<string>)
    ensures |r| == |js|
    decreases js, 0
  {
    if js == [] then [] else Elements(js[..|js| - 1], quote) + [Stringified(js[|js| - 1], quote)]
  }

  function Members(keys: seq<string>, js: seq<Json>, quote: string -> string): (r: seq<string>)
    ensures |r| == if |keys| == |js| then |js| else 0
    decreases js, 0
  {
    if js == [] || |keys| != |js| then []
    else
      var n := |js| - 1;
      Members(keys[..n], js[..n], quote) + [quote(keys[n]) + ":" + Stringified(js[n], quote)]
  }

  lemma JoinSnocLength(parts: seq<string>, part: string)
    ensures |Intercalate(parts + [part], ',')|
         == |Intercalate(parts, ',')| + |part| + if parts == [] then 0 else 1
  {
    JoinExtendLast(parts, [], part, ',');
    assert [] + part == part;
    if parts == [] {
      assert parts + [[]] == [[]];
    } else {
      JoinOpenPart(parts, ',');
    }
  }

  /** The byte count is the length of the text. */
  lemma {:induction false} BytesIsLength(j: Json, quote: string -> string)
    requires WellFormed(j)
    ensures Bytes(j, s => |quote(s)|) == |Stringified(j, quote)|
    decreases j, 1
  {
    match j
    case Leaf(_) =>
    case Arr(items) => ElementBytes(items, quote);
    case Obj(keys, values) => MemberBytes(keys, values, quote);
  }

  lemma {:induction false} ElementBytes(js: seq<Json>, quote: string -> string)
    requires forall i :: 0 <= i < |js| ==> WellFormed(js[i])
    ensures |Intercalate(Elements(js, quote), ',')| == BytesAll(js, s => |quote(s)|) + Commas(|js|)
    decreases js, 0
  {
    if js != [] {
      var n := |js| - 1;
      ElementBytes(js[..n], quote);
      BytesIsLength(js[n], quote);
      JoinSnocLength(Elements(js[..n], quote), Stringified(js[n], quote));
      hide Intercalate, Stringified, WellFormed;
    }
  }

  lemma {:induction false} MemberBytes(keys: seq<string>, js: seq<Json>, quote: string -> string)
    requires |keys| == |js| && forall i :: 0 <= i < |js| ==> WellFormed(js[i])
    ensures |Intercalate(Members(keys, js, quote), ',')|
         == KeyBytes(keys, s => |quote(s)|) + BytesAll(js, s => |quote(s)|) + Commas(|keys|)
    decreases js, 0
  {
    if js != [] {
      var n := |js| - 1;
      MemberBytes(keys[..n], js[..n], quote);
      BytesIsLength(js[n], quote);
      JoinSnocLength(Members(keys[..n], js[..n], quote), quote(keys[n]) + ":" + Stringified(js[n], quote));
      hide Intercalate, Stringified, WellFormed;
    }
  }

  // ---------------------------------------------------------------- fields

  /** The position of a key, or -1. */
  function Find(keys: seq<string>, key: string): (i: int)
    ensures -1 <= i < |keys|
    ensures i >= 0 ==> keys[i] == key
    ensures i < 0 ==> key !in keys
  {
    if keys == [] then -1
    else if keys[0] == key then 0
    else
      var i := Find(keys[1..], key);
      if i < 0 then -1 else i + 1
  }

  /** `object[key]`, undefined being `None`. */
  function Get(j: Json, key: string): (r: Option<Json>)
    ensures r.Some? ==> r.value < j
  {
    if !j.Obj? then None
    else
      var i := Find(j.keys, key);
      if 0 <= i < |j.values| then Some(j.values[i]) else None
  }

  /** An object as JSON text or a program's object can be: distinct keys, each with one value. */
  ghost predicate Shaped(j: Json) {
    j.Obj? && |j.keys| == |j.values| && NoRepeats(j.keys)
  }

  /** Every object in the tree is shaped. */
  ghost predicate WellFormed(j: Json) {
    match j
    case Leaf(_) => true
    case Arr(items) => forall i :: 0 <= i < |items| ==> WellFormed(items[i])
    case Obj(_, values) => Shaped(j) && forall i :: 0 <= i < |values| ==> WellFormed(values[i])
  }

  /** Sub-values: `part` is `whole` or lies somewhere inside it. */
  ghost predicate Inside(part: Json, whole: Json)
    decreases whole
  {
    || part == whole
    || (whole.Arr? && exists i :: 0 <= i < |whole.items| && Inside(part, whole.items[i]))
    || (whole.Obj? && exists i :: 0 <= i < |whole.values| && Inside(part, whole.values[i]))
  }

  lemma {:induction false} ElementIsSmaller(js: seq<Json>, i: nat, quoted: string -> nat)
    requires i < |js|
    ensures Depth(js[i]) <= DepthAll(js)
    ensures KeyCount(js[i]) <= KeyCountAll(js)
    ensures Bytes(js[i], quoted) <= BytesAll(js, quoted)
    decreases |js|
  {
    if i < |js| - 1 {
      ElementIsSmaller(js[..|js| - 1], i, quoted);
    }
  }

  /** None of the three measures grows when passing to a sub-value. */
  lemma {:induction false} InsideIsSmaller(part: Json, whole: Json, quoted: string -> nat)
    requires Inside(part, whole)
    ensures Depth(part) <= Depth(whole)
    ensures KeyCount(part) <= KeyCount(whole)
    ensures Bytes(part, quoted) <= Bytes(whole, quoted)
    decreases whole
  {
    if part != whole {
      if whole.Arr? {
        var i :| 0 <= i < |whole.items| && Inside(part, whole.items[i]);
        ElementIsSmaller(whole.items, i, quoted);
        InsideIsSmaller(part, whole.items[i], quoted);
      } else {
        var i :| 0 <= i < |whole.values| && Inside(part, whole.values[i]);
        ElementIsSmaller(whole.values, i, quoted);
        InsideIsSmaller(part, whole.values[i], quoted);
      }
    }
  }

  lemma GetIsInside(j: Json, key: string)
    requires Get(j, key).Some?
    ensures Inside(Get(j, key).value, j)
  {
    var i := Find(j.keys, key);
    assert Inside(j.values[i], j.values[i]);
  }

  lemma {:induction false} InsideIsTransitive(a: Json, b: Json, c: Json)
    requires Inside(a, b) && Inside(b, c)
    ensures Inside(a, c)
    decreases c
  {
    if b != c {
      if c.Arr? {
        var i :| 0 <= i < |c.items| && Inside(b, c.items[i]);
        InsideIsTransitive(a, b, c.items[i]);
      } else {
        var i :| 0 <= i < |c.values| && Inside(b, c.values[i]);
        InsideIsTransitive(a, b, c.values[i]);
      }
    }
  }

  // ---------------------------------------------------------------- JSON in a heap

  datatype Val = Atomic(atom: Atom) | Ref(id: nat)
  datatype Cell = ArrayCell(items: seq<Val>) | ObjectCell(keys: seq<string>, fields: seq<Val>)
  type Heap = map<nat, Cell>

  function Vals(c: Cell): seq<Val> {
    if c.ArrayCell? then c.items else c.fields
  }

  ghost predicate Within(h: Heap, v: Val) {
    v.Ref? ==> v.id in h
  }

  /** No dangling references, and as many fields as keys. */
  ghost predicate Closed(h: Heap) {
    forall r :: r in h ==>
      && (h[r].ObjectCell? ==> |h[r].keys| == |h[r].fields|)
      && forall i :: 0 <= i < |Vals(h[r])| ==> Within(h, Vals(h[r])[i])
  }

  /** The tree a heap value unfolds to, if its nesting is at most `d`. */
  function Unfold(h: Heap, v: Val, d: nat): Option<Json>
    decreases d, 0
  {
    if v.Atomic? then Some(Leaf(v.atom))
    else if d == 0 || v.id !in h then None
    else
      var js := UnfoldAll(h, Vals(h[v.id]), d - 1);
      if js.None? then None
      else if h[v.id].ArrayCell? then Some(Arr(js.value))
      else Some(Obj(h[v.id].keys, js.value))
  }

  function UnfoldAll(h: Heap, vs: seq<Val>, d: nat): (js: Option<seq<Json>>)
    ensures js.Some? ==> |js.value| == |vs|
    decreases d, |vs| + 1
  {
    if vs == [] then Some([])
    else
      var rest := UnfoldAll(h, vs[..|vs| - 1], d);
      var last := Unfold(h, vs[|vs| - 1], d);
      if rest.None? || last.None? then None else Some(rest.value + [last.value])
  }

  lemma {:induction false} UnfoldAllAt(h: Heap, vs: seq<Val>, d: nat)
    ensures UnfoldAll(h, vs, d).Some? <==> forall i :: 0 <= i < |vs| ==> Unfold(h, vs[i], d).Some?
    ensures UnfoldAll(h, vs, d).Some? ==>
              forall i :: 0 <= i < |vs| ==> Unfold(h, vs[i], d) == Some(UnfoldAll(h, vs, d).value[i])
    decreases |vs|
  {
    if vs != [] {
      UnfoldAllAt(h, vs[..|vs| - 1], d);
      assert forall i :: 0 <= i < |vs| - 1 ==> vs[..|vs| - 1][i] == vs[i];
    }
  }

  lemma {:induction false} UnfoldPrefix(h: Heap, vs: seq<Val>, d: nat, n: nat)
    requires n <= |vs| && UnfoldAll(h, vs, d).Some?
    ensures UnfoldAll(h, vs[..n], d) == Some(UnfoldAll(h, vs, d).value[..n])
    decreases |vs|
  {
    if n == |vs| {
      var js := UnfoldAll(h, vs, d).value;
      assert vs[..n] == vs && js[..n] == js;
    } else {
      UnfoldPrefix(h, vs[..|vs| - 1], d, n);
      assert vs[..|vs| - 1][..n] == vs[..n];
      var js := UnfoldAll(h, vs, d).value;
      assert js[..|js| - 1] == UnfoldAll(h, vs[..|vs| - 1], d).value;
      assert js[..|js| - 1][..n] == js[..n];
    }
  }

  lemma {:induction false} PrefixIsSmaller(js: seq<Json>, n: nat)
    requires n <= |js|
    ensures KeyCountAll(js[..n]) <= KeyCountAll(js)
    decreases |js|
  {
    if n < |js| {
      PrefixIsSmaller(js[..|js| - 1], n);
      assert js[..|js| - 1][..n] == js[..n];
    } else {
      assert js[..n] == js;
    }
  }

  /** The bound only decides whether there is a tree, not which: it is there from its own depth on. */
  lemma {:induction false} UnfoldByDepth(h: Heap, v: Val, d: nat, d': nat)
    requires Unfold(h, v, d).Some?
    ensures Depth(Unfold(h, v, d).value) <= d
    ensures d' >= Depth(Unfold(h, v, d).value) ==> Unfold(h, v, d') == Unfold(h, v, d)
    decreases d, 0
  {
    if v.Ref? {
      UnfoldAllByDepth(h, Vals(h[v.id]), d - 1, if d' == 0 then 0 else d' - 1);
    }
  }

  lemma {:induction false} UnfoldAllByDepth(h: Heap, vs: seq<Val>, d: nat, d': nat)
    requires UnfoldAll(h, vs, d).Some?
    ensures DepthAll(UnfoldAll(h, vs, d).value) <= d
    ensures d' >= DepthAll(UnfoldAll(h, vs, d).value) ==> UnfoldAll(h, vs, d') == UnfoldAll(h, vs, d)
    decreases d, |vs| + 1
  {
    if vs != [] {
      UnfoldAllByDepth(h, vs[..|vs| - 1], d, d');
      UnfoldByDepth(h, vs[|vs| - 1], d, d');
      var js := UnfoldAll(h, vs, d).value;
      assert js[..|js| - 1] == UnfoldAll(h, vs[..|vs| - 1], d).value;
    }
  }

  /** The heap value stands for the finite tree `j`. */
  ghost predicate Represents(h: Heap, v: Val, j: Json) {
    Unfold(h, v, Depth(j)) == Some(j)
  }

  lemma UnfoldsToRepresented(h: Heap, v: Val, d: nat, j: Json)
    ensures Unfold(h, v, d) == Some(j) <==> Represents(h, v, j) && Depth(j) <= d
  {
    if Unfold(h, v, d) == Some(j) {
      UnfoldByDepth(h, v, d, Depth(j));
    }
    if Represents(h, v, j) && Depth(j) <= d {
      UnfoldByDepth(h, v, Depth(j), d);
    }
  }

  /** No object has the same key twice. */
  ghost predicate DistinctKeys(h: Heap) {
    forall r :: r in h && h[r].ObjectCell? ==> NoRepeats(h[r].keys)
  }

  lemma {:induction false} RepresentedIsWellFormed(h: Heap, v: Val, d: nat)
    requires Closed(h) && DistinctKeys(h) && Unfold(h, v, d).Some?
    ensures WellFormed(Unfold(h, v, d).value)
    decreases d
  {
    if v.Ref? {
      var vs := Vals(h[v.id]);
      var js := UnfoldAll(h, vs, d - 1).value;
      UnfoldAllAt(h, vs, d - 1);
      forall i | 0 <= i < |vs| ensures WellFormed(js[i]) {
        RepresentedIsWellFormed(h, vs[i], d - 1);
      }
    }
  }

  // ---------------------------------------------------------------- cycles

  ghost predicate HasChild(h: Heap, r: nat, c: nat) {
    r in h && exists i :: 0 <= i < |Vals(h[r])| && Vals(h[r])[i] == Ref(c)
  }

  /** A downward path of containers. */
  ghost predicate IsPath(h: Heap, p: seq<nat>) {
    && (forall i :: 0 <= i < |p| ==> p[i] in h)
    && (forall i :: 0 <= i < |p| - 1 ==> HasChild(h, p[i], p[i + 1]))
  }

  ghost predicate Acyclic(h: Heap, v: Val) {
    forall p :: IsPath(h, p) && p != [] && v == Ref(p[0]) ==> NoRepeats(p)
  }

  lemma SubPath(h: Heap, p: seq<nat>, i: nat, k: nat)
    requires IsPath(h, p) && i <= k <= |p|
    ensures IsPath(h, p[i..k])
  {
    var q := p[i..k];
    forall n | 0 <= n < |q| - 1 ensures HasChild(h, q[n], q[n + 1]) {
      assert HasChild(h, p[i + n], p[i + n + 1]);
    }
  }

  lemma PathGrows(h: Heap, p: seq<nat>, c: nat)
    requires IsPath(h, p) && p != [] && c in h && HasChild(h, p[|p| - 1], c)
    ensures IsPath(h, p + [c])
  {
    hide HasChild;
    var q := p + [c];
    forall k | 0 <= k < |q| - 1 ensures HasChild(h, q[k], q[k + 1]) {
      assert k < |p| - 1 ==> HasChild(h, p[k], p[k + 1]);
    }
  }

  lemma {:induction false} PathConsumesDepth(h: Heap, p: seq<nat>, d: nat)
    requires IsPath(h, p) && p != [] && Unfold(h, Ref(p[0]), d).Some?
    ensures d >= |p| && Unfold(h, Ref(p[|p| - 1]), d - (|p| - 1)).Some?
    decreases |p|
  {
    if |p| > 1 {
      var vs := Vals(h[p[0]]);
      UnfoldAllAt(h, vs, d - 1);
      assert HasChild(h, p[0], p[1]);
      SubPath(h, p, 1, |p|);
      PathConsumesDepth(h, p[1..], d - 1);
    }
  }

  ghost predicate PathFrom(h: Heap, v: Val, p: seq<nat>) {
    IsPath(h, p) && p != [] && v == Ref(p[0])
  }

  /** Nesting is the length of the longest path of containers. */
  lemma NestingIsLongestPath(h: Heap, v: Val, j: Json)
    requires Represents(h, v, j)
    ensures forall p :: PathFrom(h, v, p) ==> |p| <= Depth(j)
    ensures v.Ref? ==> exists p :: PathFrom(h, v, p) && |p| == Depth(j)
    ensures v.Atomic? ==> Depth(j) == 0
  {
    forall p | PathFrom(h, v, p) ensures |p| <= Depth(j) {
      PathConsumesDepth(h, p, Depth(j));
    }
    if v.Ref? {
      var p := DeepestPath(h, v, Depth(j), j);
    }
  }

  lemma {:induction false} DeepestPath(h: Heap, v: Val, d: nat, j: Json) returns (p: seq<nat>)
    requires v.Ref? && Unfold(h, v, d) == Some(j)
    ensures PathFrom(h, v, p) && |p| == Depth(j)
    decreases d
  {
    var vs := Vals(h[v.id]);
    var js := UnfoldAll(h, vs, d - 1).value;
    UnfoldAllAt(h, vs, d - 1);
    assert Depth(j) == 1 + DepthAll(js);
    p := [v.id];
    if DepthAll(js) > 0 {
      var i := DeepestElement(js);
      assert vs[i].Ref?;
      var q := DeepestPath(h, vs[i], d - 1, js[i]);
      p := [v.id] + q;
      assert HasChild(h, v.id, vs[i].id);
      PathFromParent(h, v.id, q);
    }
  }

  lemma {:induction false} DeepestElement(js: seq<Json>) returns (i: nat)
    requires js != []
    ensures i < |js| && Depth(js[i]) == DepthAll(js)
    decreases |js|
  {
    var n := |js| - 1;
    i := n;
    if n > 0 && DepthAll(js[..n]) > Depth(js[n]) {
      i := DeepestElement(js[..n]);
    }
  }

  lemma PathFromParent(h: Heap, r: nat, q: seq<nat>)
    requires IsPath(h, q) && q != [] && HasChild(h, r, q[0])
    ensures IsPath(h, [r] + q)
  {
    var p := [r] + q;
    forall n | 0 <= n < |p| - 1 ensures HasChild(h, p[n], p[n + 1]) {
      assert n > 0 ==> HasChild(h, q[n - 1], q[n]);
    }
  }

  /** What lies on a cycle unfolds to no finite tree. */
  lemma {:induction false} CycleNeverUnfolds(h: Heap, p: seq<nat>, d: nat)
    requires IsPath(h, p) && |p| > 1 && p[0] == p[|p| - 1]
    ensures Unfold(h, Ref(p[0]), d).None?
    decreases d
  {
    if Unfold(h, Ref(p[0]), d).Some? {
      PathConsumesDepth(h, p, d);
      CycleNeverUnfolds(h, p, d - (|p| - 1));
    }
  }

  lemma {:induction false} DistinctFits(p: seq<nat>, s: set<nat>)
    requires NoRepeats(p) && forall i :: 0 <= i < |p| ==> p[i] in s
    ensures |p| <= |s|
  {
    if p != [] {
      forall i | 0 <= i < |p| - 1 ensures p[i] in s - {p[|p| - 1]} {
        assert p[i] != p[|p| - 1];
      }
      DistinctFits(p[..|p| - 1], s - {p[|p| - 1]});
    }
  }

  /** Below the end of an acyclic path there is only as much nesting as the heap has further cells. */
  lemma {:induction false} AcyclicUnfolds(h: Heap, root: nat, p: seq<nat>)
    requires Closed(h) && Acyclic(h, Ref(root)) && IsPath(h, p) && p != [] && p[0] == root
    ensures |p| <= |h| && Unfold(h, Ref(p[|p| - 1]), |h| - |p| + 1).Some?
    decreases |h| - |p|
  {
    assert NoRepeats(p);
    DistinctFits(p, h.Keys);
    var vs := Vals(h[p[|p| - 1]]);
    forall i | 0 <= i < |vs| ensures Unfold(h, vs[i], |h| - |p|).Some? {
      if vs[i].Ref? {
        assert Within(h, vs[i]);
        assert HasChild(h, p[|p| - 1], vs[i].id);
        var q := p + [vs[i].id];
        PathGrows(h, p, vs[i].id);
        assert NoRepeats(q);
        DistinctFits(q, h.Keys);
        AcyclicUnfolds(h, root, q);
      }
    }
    UnfoldAllAt(h, vs, |h| - |p|);
  }

  /** In a finite heap a value stands for a finite tree exactly when no path from it repeats a container. */
  lemma RepresentedIffAcyclic(h: Heap, v: Val)
    requires Closed(h) && Within(h, v)
    ensures (exists j :: Represents(h, v, j)) <==> Acyclic(h, v)
  {
    if Acyclic(h, v) {
      if v.Ref? {
        AcyclicUnfolds(h, v.id, [v.id]);
        UnfoldsToRepresented(h, v, |h|, Unfold(h, v, |h|).value);
      } else {
        assert Represents(h, v, Leaf(v.atom));
      }
    }
    if j :| Represents(h, v, j) {
      forall p | IsPath(h, p) && p != [] && v == Ref(p[0]) ensures NoRepeats(p) {
        RepeatNeverUnfolds(h, p, Depth(j));
      }
    }
  }

  lemma RepeatNeverUnfolds(h: Heap, p: seq<nat>, d: nat)
    requires IsPath(h, p) && p != [] && Unfold(h, Ref(p[0]), d).Some?
    ensures NoRepeats(p)
  {
    hide Unfold, HasChild;
    if i, k :| 0 <= i < k < |p| && p[i] == p[k] {
      SubPath(h, p, 0, i + 1);
      SubPath(h, p, i, k + 1);
      PathConsumesDepth(h, p[0..i + 1], d);
      CycleNeverUnfolds(h, p[i..k + 1], d - i);
    }
  }
}
