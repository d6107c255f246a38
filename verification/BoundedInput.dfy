/** The bounded checks of the MCP server: request bodies, the arguments of the tool calls in them,
    and JSON Schemas. The wall-clock limit is not part of them here. */
module BoundedInput {
  import opened Sequences
  import opened Json
  import opened JsonWalk
  import opened SchemaCount

  datatype Bounds = Bounds(
    maxInputBytes: nat, maxInputDepth: nat, maxInputKeys: nat,
    maxSchemaBytes: nat, maxSchemaDepth: nat, maxSchemaKeys: nat, maxSubschemas: nat)

  // ---------------------------------------------------------------- inputs

  predicate InputFits(j: Json, b: Bounds, quoted: string -> nat) {
    Depth(j) <= b.maxInputDepth && KeyCount(j) <= b.maxInputKeys && Bytes(j, quoted) <= b.maxInputBytes
  }

  /** `parseBoundedMcpInput`: passes exactly the heap values that stand for a tree within all three bounds. */
  method ParseBoundedMcpInput(heap: Heap, input: Val, b: Bounds, quoted: string -> nat) returns (error: Option<Code>)
    requires Closed(heap) && Within(heap, input)
    ensures error.None? <==>
              exists j :: Represents(heap, input, j) && Depth(j) <= b.maxInputDepth
                          && KeyCount(j) <= b.maxInputKeys && Bytes(j, quoted) <= b.maxInputBytes
    ensures error == Some(CYCLIC_VALUE) ==> !Acyclic(heap, input)
  {
    var keys;
    error, keys := WalkJsonValue(heap, input, b.maxInputDepth, b.maxInputKeys, false);
    if error.Some? { return; }
    RepresentedOnce(heap, input, b.maxInputDepth);
    var j := Unfold(heap, input, b.maxInputDepth).value;
    hide Represents, Acyclic;
    if Bytes(j, quoted) > b.maxInputBytes {
      return Some(BYTES);
    }
  }

  /** A heap value stands for at most one tree; the walk has found it when there is one that is flat enough. */
  lemma RepresentedOnce(h: Heap, v: Val, d: nat)
    ensures forall j, k :: Represents(h, v, j) && Represents(h, v, k) ==> j == k
    ensures forall j :: Represents(h, v, j) && Depth(j) <= d ==> Unfold(h, v, d) == Some(j)
    ensures Unfold(h, v, d).Some? ==> Represents(h, v, Unfold(h, v, d).value)
  {
    forall j, k | Represents(h, v, j) && Represents(h, v, k) ensures j == k {
      var m := if Depth(j) > Depth(k) then Depth(j) else Depth(k);
      UnfoldsToRepresented(h, v, m, j);
      UnfoldsToRepresented(h, v, m, k);
    }
    forall j | Represents(h, v, j) && Depth(j) <= d ensures Unfold(h, v, d) == Some(j) {
      UnfoldsToRepresented(h, v, d, j);
    }
    if Unfold(h, v, d).Some? {
      UnfoldsToRepresented(h, v, d, Unfold(h, v, d).value);
    }
  }

  // ---------------------------------------------------------------- schemas

  /** The bound is on the number of schema positions, each counted once. */
  predicate SchemaFits(j: Json, b: Bounds, quoted: string -> nat) {
    && IsSchema(j) && LocalRefs(j)
    && Depth(j) <= b.maxSchemaDepth && KeyCount(j) <= b.maxSchemaKeys && Bytes(j, quoted) <= b.maxSchemaBytes
    && |Positions(j)| <= b.maxSubschemas
  }

  /** What fits: an object or a boolean with document-local references in every object inside, within
      the four bounds. */
  lemma SchemaFitsMeans(j: Json, b: Bounds, quoted: string -> nat)
    ensures SchemaFits(j, b, quoted) <==>
              && (j.Obj? || j == Leaf(Bool(true)) || j == Leaf(Bool(false)))
              && (forall part :: Inside(part, j) && part.Obj? ==> RefsAreLocal(part))
              && Depth(j) <= b.maxSchemaDepth && KeyCount(j) <= b.maxSchemaKeys
              && Bytes(j, quoted) <= b.maxSchemaBytes && |Positions(j)| <= b.maxSubschemas
  {
    LocalRefsMeans(j);
    hide LocalRefs, RefsAreLocal, Inside, Depth, KeyCount, Bytes, Positions;
  }

  predicate IsSchemaVal(heap: Heap, v: Val) {
    match v
    case Atomic(a) => a.Bool?
    case Ref(r) => r in heap && heap[r].ObjectCell?
  }

  /** `assertBoundedJsonSchema`. */
  method AssertBoundedJsonSchema(heap: Heap, schema: Val, b: Bounds, quoted: string -> nat)
    returns (error: Option<Code>)
    requires Closed(heap) && DistinctKeys(heap) && Within(heap, schema)
    ensures error.None? <==> exists j :: Represents(heap, schema, j) && SchemaFits(j, b, quoted)
  {
    RepresentedOnce(heap, schema, b.maxSchemaDepth);
    SchemaValIsSchema(heap, schema);
    if !IsSchemaVal(heap, schema) {
      return Some(INVALID_SCHEMA);
    }
    var keys;
    error, keys := WalkJsonValue(heap, schema, b.maxSchemaDepth, b.maxSchemaKeys, true);
    hide Represents, Acyclic, IsSchema, LocalRefs, PositionCount, Positions, WellFormed;
    if error.Some? { return; }
    var j := Unfold(heap, schema, b.maxSchemaDepth).value;
    RepresentedIsWellFormed(heap, schema, b.maxSchemaDepth);
    CountIsCardinality(j);
    if Bytes(j, quoted) > b.maxSchemaBytes {
      return Some(BYTES);
    }
    var count := CountJsonSchemaPositions(j);
    if count > b.maxSubschemas {
      return Some(SUBSCHEMAS);
    }
  }

  lemma SchemaValIsSchema(h: Heap, v: Val)
    ensures forall j :: Represents(h, v, j) ==> (IsSchema(j) <==> IsSchemaVal(h, v))
  {
  }

  // ---------------------------------------------------------------- tool calls in a request body

  const MODERN_MCP_PROTOCOL_VERSION := "2026-07-28"

  datatype Options = Options(modernRequest: bool, protocolVersion: Option<string>)

  predicate Finite(number: string) {
    number !in ["NaN", "Infinity", "-Infinity"]
  }

  /** `rpcIdKey`; a number is given by its JavaScript rendering. */
  function RpcIdKey(id: Option<Json>): Option<string> {
    match id
    case Some(Leaf(Str(text))) => Some("string:" + text)
    case Some(Leaf(Num(text))) =>
      if Finite(text) then Some("number:" + text) else None
    case _ => None
  }

  /** Exactly the strings and the finite numbers have a key. */
  lemma IdHasKey(id: Json)
    ensures RpcIdKey(Some(id)).Some? <==>
              exists text :: id == Leaf(Str(text)) ||
                             (id == Leaf(Num(text)) && text != "NaN" && text != "Infinity" && text != "-Infinity")
    ensures RpcIdKey(None).None?
  {
  }

  /** Ids of different types, and different ids of one type, have different keys. */
  lemma IdKeysAreDistinct(a: Json, b: Json)
    requires RpcIdKey(Some(a)).Some? && RpcIdKey(Some(a)) == RpcIdKey(Some(b))
    ensures a == b
  {
    var ka, kb := RpcIdKey(Some(a)).value, RpcIdKey(Some(b)).value;
    assert ka[0] == kb[0];
    assert a.atom.Str? <==> b.atom.Str?;
    assert ka[7..] == a.atom.text && kb[7..] == b.atom.text;
  }

  /** `toolCallEnvelope`: the id key of a tool call, if the entry is one. */
  function ToolCallKey(entry: Json): Option<string> {
    var params := Get(entry, "params");
    if Get(entry, "jsonrpc") != Some(Leaf(Str("2.0"))) || Get(entry, "method") != Some(Leaf(Str("tools/call")))
       || params.None? || !params.value.Obj? then None
    else
      match Get(params.value, "name")
      case Some(Leaf(Str(name))) => if name == "" then None else RpcIdKey(Get(entry, "id"))
      case _ => None
  }

  predicate ValidModernMetadata(params: Json, version: Option<string>) {
    match Get(params, "_meta")
    case Some(meta) =>
      && meta.Obj?
      && version == Some(MODERN_MCP_PROTOCOL_VERSION)
      && Get(meta, "io.modelcontextprotocol/protocolVersion") == Some(Leaf(Str(version.value)))
      && Get(meta, "io.modelcontextprotocol/clientCapabilities").Some?
      && Get(meta, "io.modelcontextprotocol/clientCapabilities").value.Obj?
    case None => false
  }

  /** The entry is a tool call whose arguments are checked. */
  predicate Recorded(entry: Json, options: Options) {
    && ToolCallKey(entry).Some?
    && (options.modernRequest ==> ValidModernMetadata(Get(entry, "params").value, options.protocolVersion))
  }

  /** `call.params.arguments ?? {}`. */
  function Arguments(entry: Json): Json
    requires ToolCallKey(entry).Some?
  {
    match Get(Get(entry, "params").value, "arguments")
    case None => Obj([], [])
    case Some(Leaf(Null)) => Obj([], [])
    case Some(j) => j
  }

  function SetField(j: Json, key: string, value: Json): Json
    requires j.Obj?
  {
    var i := Find(j.keys, key);
    if 0 <= i < |j.values| then Obj(j.keys, j.values[i := value]) else Obj(j.keys + [key], j.values + [value])
  }

  lemma {:induction false} FindOf(keys: seq<string>, i: nat)
    requires i < |keys| && forall k :: 0 <= k < i ==> keys[k] != keys[i]
    ensures Find(keys, keys[i]) == i
  {
    if i > 0 {
      FindOf(keys[1..], i - 1);
    }
  }

  lemma {:induction false} FindInAppended(keys: seq<string>, last: string, key: string)
    ensures Find(keys + [last], key) == if Find(keys, key) >= 0 then Find(keys, key)
                                        else if key == last then |keys| else -1
  {
    if keys != [] {
      FindInAppended(keys[1..], last, key);
      assert (keys + [last])[1..] == keys[1..] + [last];
    }
  }

  lemma SetThenGet(j: Json, key: string, value: Json, other: string)
    requires Shaped(j)
    ensures Shaped(SetField(j, key, value))
    ensures Get(SetField(j, key, value), other) == if other == key then Some(value) else Get(j, other)
  {
    FindInAppended(j.keys, key, other);
    FindInAppended(j.keys, key, key);
  }

  predicate Fails(entry: Json, options: Options, b: Bounds, quoted: string -> nat) {
    Recorded(entry, options) && !InputFits(Arguments(entry), b, quoted)
  }

  /** What is handed to the SDK for one entry. */
  function PreparedEntry(entry: Json, options: Options, b: Bounds, quoted: string -> nat): Json {
    if Fails(entry, options, b, quoted)
    then SetField(entry, "params", SetField(Get(entry, "params").value, "arguments", Leaf(Null)))
    else entry
  }

  // ---------------------------------------------------------------- what is recorded, checked and blanked

  /** A JSON-RPC call of a tool by name, with a usable id and an object of parameters. */
  ghost predicate IsToolCall(entry: Json) {
    && Get(entry, "jsonrpc") == Some(Leaf(Str("2.0"))) && Get(entry, "method") == Some(Leaf(Str("tools/call")))
    && Get(entry, "params").Some? && Get(entry, "params").value.Obj?
    && (exists name :: name != "" && Get(Get(entry, "params").value, "name") == Some(Leaf(Str(name))))
    && Get(entry, "id").Some? && RpcIdKey(Get(entry, "id")).Some?
  }

  /** The metadata of the modern protocol: the header's version and the body's are both that version,
      and the client's capabilities are an object. */
  ghost predicate IsModern(params: Json, version: Option<string>) {
    && version == Some("2026-07-28")
    && exists meta: Json, capabilities: Json ::
         && meta.Obj? && Get(params, "_meta") == Some(meta)
         && Get(meta, "io.modelcontextprotocol/protocolVersion") == Some(Leaf(Str("2026-07-28")))
         && Get(meta, "io.modelcontextprotocol/clientCapabilities") == Some(capabilities) && capabilities.Obj?
  }

  /** Which entries are recorded, and under which key. */
  lemma RecordedMeans(entry: Json, options: Options)
    ensures Recorded(entry, options) <==>
              IsToolCall(entry)
              && (options.modernRequest ==> IsModern(Get(entry, "params").value, options.protocolVersion))
    ensures IsToolCall(entry) ==> ToolCallKey(entry) == RpcIdKey(Get(entry, "id"))
  {
    ToolCallMeans(entry);
    if IsToolCall(entry) {
      ModernMeans(Get(entry, "params").value, options.protocolVersion);
    }
    hide ToolCallKey, IsToolCall, IsModern, ValidModernMetadata, RpcIdKey, Get;
  }

  lemma ToolCallMeans(entry: Json)
    ensures ToolCallKey(entry).Some? <==> IsToolCall(entry)
    ensures IsToolCall(entry) ==> ToolCallKey(entry) == RpcIdKey(Get(entry, "id"))
  {
    hide Get, RpcIdKey;
    assert RpcIdKey(None).None? by { IdHasKey(Leaf(Null)); }
    if ToolCallKey(entry).Some? {
      assert IsToolCall(entry);
    }
  }

  lemma ModernMeans(params: Json, version: Option<string>)
    ensures ValidModernMetadata(params, version) <==> IsModern(params, version)
  {
    hide Get;
    if ValidModernMetadata(params, version) {
      assert IsModern(params, version);
    }
  }

  /** Which entries fail: recorded ones whose arguments, an empty object if there are none or they are
      null, exceed a bound. */
  lemma FailsMeans(entry: Json, options: Options, b: Bounds, quoted: string -> nat)
    requires IsToolCall(entry)
    ensures var given := Get(Get(entry, "params").value, "arguments");
            var j := if given.None? || given == Some(Leaf(Null)) then Obj([], []) else given.value;
            Fails(entry, options, b, quoted) <==>
              Recorded(entry, options)
              && (Depth(j) > b.maxInputDepth || KeyCount(j) > b.maxInputKeys || Bytes(j, quoted) > b.maxInputBytes)
  {
    ToolCallMeans(entry);
    hide ToolCallKey, Recorded, Get, Depth, KeyCount, Bytes;
  }

  lemma OnlyToolCallsFail(entry: Json, options: Options, b: Bounds, quoted: string -> nat)
    ensures Fails(entry, options, b, quoted) ==> IsToolCall(entry)
  {
    RecordedMeans(entry, options);
  }

  /** A failing entry loses its arguments and nothing else; any other is passed on as it is. */
  lemma PreparedEntryMeans(entry: Json, options: Options, b: Bounds, quoted: string -> nat)
    requires entry.Obj? ==> Shaped(entry) && (Get(entry, "params").Some? && Get(entry, "params").value.Obj? ==>
                                               Shaped(Get(entry, "params").value))
    ensures !Fails(entry, options, b, quoted) ==> PreparedEntry(entry, options, b, quoted) == entry
    ensures Fails(entry, options, b, quoted) ==>
              var out := PreparedEntry(entry, options, b, quoted);
              && Get(entry, "params").Some? && Get(out, "params").Some? && Get(out, "params").value.Obj?
              && Get(Get(out, "params").value, "arguments") == Some(Leaf(Null))
              && (forall key :: key != "arguments" ==>
                                  Get(Get(out, "params").value, key) == Get(Get(entry, "params").value, key))
              && (forall key :: key != "params" ==> Get(out, key) == Get(entry, key))
  {
    if Fails(entry, options, b, quoted) {
      OnlyToolCallsFail(entry, options, b, quoted);
      assert entry.Obj?;
      var params := Get(entry, "params").value;
      assert params.Obj?;
      var blanked := SetField(params, "arguments", Leaf(Null));
      forall key ensures Get(blanked, key) == if key == "arguments" then Some(Leaf(Null)) else Get(params, key) {
        SetThenGet(params, "arguments", Leaf(Null), key);
      }
      forall key
        ensures Get(SetField(entry, "params", blanked), key) ==
                  if key == "params" then Some(blanked) else Get(entry, key)
      {
        SetThenGet(entry, "params", blanked, key);
      }
      hide Fails, SetField, Get, Shaped;
    }
  }

  // ---------------------------------------------------------------- the whole body

  function Entries(body: Json): seq<Json> {
    if body.Arr? then body.items else [body]
  }

  function PreparedEntries(entries: seq<Json>, options: Options, b: Bounds, quoted: string -> nat): seq<Json> {
    seq(|entries|, i requires 0 <= i < |entries| => PreparedEntry(entries[i], options, b, quoted))
  }

  function RecordedIds(entries: seq<Json>, options: Options): map<string, Json> {
    if entries == [] then map[]
    else
      var entry := entries[|entries| - 1];
      var ids := RecordedIds(entries[..|entries| - 1], options);
      if Recorded(entry, options)
      then ids[ToolCallKey(entry).value := KeyIsOfId(entry); Get(entry, "id").value]
      else ids
  }

  lemma KeyIsOfId(entry: Json)
    requires ToolCallKey(entry).Some?
    ensures Get(entry, "id").Some? && RpcIdKey(Get(entry, "id")) == ToolCallKey(entry)
  {
  }

  /** `prepareBoundedToolCalls`: the map of ids is filled and failing arguments are blanked entry by entry. */
  method PrepareBoundedToolCalls(body: Json, options: Options, b: Bounds, quoted: string -> nat)
    returns (prepared: Json, toolCallIds: map<string, Json>, hadBoundedFailures: bool)
    ensures prepared == (if body.Arr? then Arr(PreparedEntries(body.items, options, b, quoted))
                         else PreparedEntry(body, options, b, quoted))
    ensures toolCallIds == RecordedIds(Entries(body), options)
    ensures hadBoundedFailures <==> exists i :: 0 <= i < |Entries(body)| && Fails(Entries(body)[i], options, b, quoted)
  {
    var entries := Entries(body);
    var out: seq<Json> := [];
    toolCallIds, hadBoundedFailures := map[], false;
    hide Fails, Recorded, PreparedEntry, ToolCallKey;
    for i := 0 to |entries|
      invariant |out| == i && forall k :: 0 <= k < i ==> out[k] == PreparedEntry(entries[k], options, b, quoted)
      invariant toolCallIds == RecordedIds(entries[..i], options)
      invariant hadBoundedFailures <==> exists k :: 0 <= k < i && Fails(entries[k], options, b, quoted)
    {
      var entry := entries[i];
      assert entries[..i + 1][..i] == entries[..i];
      if Recorded(entry, options) {
        RecordedHasKey(entry, options);
        toolCallIds := toolCallIds[ToolCallKey(entry).value := Get(entry, "id").value];
      }
      if Fails(entry, options, b, quoted) {
        hadBoundedFailures := true;
      }
      out := out + [PreparedEntry(entry, options, b, quoted)];
    }
    assert entries[..|entries|] == entries;
    prepared := if body.Arr? then Arr(out) else out[0];
  }

  lemma RecordedHasKey(entry: Json, options: Options)
    requires Recorded(entry, options)
    ensures ToolCallKey(entry).Some? && Get(entry, "id").Some?
  {
    KeyIsOfId(entry);
  }

  predicate RecordsKey(entry: Json, options: Options, key: string) {
    Recorded(entry, options) && ToolCallKey(entry) == Some(key)
  }

  /** Exactly the keys of the recorded tool calls are in the map, each with an id that has that key. */
  lemma {:induction false} RecordedIdsAreExact(entries: seq<Json>, options: Options, key: string)
    ensures key in RecordedIds(entries, options) <==>
              exists i :: 0 <= i < |entries| && RecordsKey(entries[i], options, key)
    ensures key in RecordedIds(entries, options) ==> RpcIdKey(Some(RecordedIds(entries, options)[key])) == Some(key)
  {
    if entries != [] {
      var n := |entries| - 1;
      var init := entries[..n];
      RecordedIdsAreExact(init, options, key);
      OneMoreId(entries, options, key);
      hide RecordsKey, RecordedIds, RpcIdKey;
      assert forall i :: 0 <= i < n ==> init[i] == entries[i];
      assert key in RecordedIds(entries, options) <==>
               exists i :: 0 <= i < |entries| && RecordsKey(entries[i], options, key);
    }
  }

  lemma OneMoreId(entries: seq<Json>, options: Options, key: string)
    requires entries != []
    ensures var init, last := entries[..|entries| - 1], entries[|entries| - 1];
            && (key in RecordedIds(entries, options) <==>
                  key in RecordedIds(init, options) || RecordsKey(last, options, key))
            && (RecordsKey(last, options, key) ==> RpcIdKey(Some(RecordedIds(entries, options)[key])) == Some(key))
            && (key in RecordedIds(init, options) && !RecordsKey(last, options, key) ==>
                  RecordedIds(entries, options)[key] == RecordedIds(init, options)[key])
  {
    var last := entries[|entries| - 1];
    if Recorded(last, options) {
      KeyIsOfId(last);
    }
    hide Recorded, ToolCallKey, RpcIdKey, Get;
  }

  /** Once the whole body has passed the bounded check, no tool call's arguments in it can fail the
      second one: the prepared body is the body. */
  lemma SecondCheckCannotFail(body: Json, options: Options, b: Bounds, quoted: string -> nat)
    requires InputFits(body, b, quoted)
    ensures forall i :: 0 <= i < |Entries(body)| ==> !Fails(Entries(body)[i], options, b, quoted)
    ensures body.Arr? ==> PreparedEntries(body.items, options, b, quoted) == body.items
    ensures !body.Arr? ==> PreparedEntry(body, options, b, quoted) == body
  {
    forall i | 0 <= i < |Entries(body)| ensures !Fails(Entries(body)[i], options, b, quoted) {
      var entry := Entries(body)[i];
      if Recorded(entry, options) {
        assert Inside(entry, entry) && Inside(entry, body);
        ArgumentsFit(entry, body, b, quoted);
      }
    }
    hide Fails, Inside;
    forall i | 0 <= i < |Entries(body)|
      ensures PreparedEntry(Entries(body)[i], options, b, quoted) == Entries(body)[i]
    {
      assert !Fails(Entries(body)[i], options, b, quoted);
    }
    hide PreparedEntry;
    if body.Arr? {
      var prepared := PreparedEntries(body.items, options, b, quoted);
      forall i | 0 <= i < |body.items| ensures prepared[i] == body.items[i] {
        assert Entries(body)[i] == body.items[i];
      }
      assert prepared == body.items;
    } else {
      assert Entries(body)[0] == body;
    }
  }

  lemma FieldFits(j: Json, key: string, body: Json, b: Bounds, quoted: string -> nat)
    requires Inside(j, body) && InputFits(body, b, quoted) && Get(j, key).Some?
    ensures Inside(Get(j, key).value, body) && InputFits(Get(j, key).value, b, quoted)
  {
    var field := Get(j, key).value;
    GetIsInside(j, key);
    InsideIsTransitive(field, j, body);
    InsideIsSmaller(field, body, quoted);
  }

  lemma NothingFits(j: Json, b: Bounds, quoted: string -> nat)
    requires j.Obj? && InputFits(j, b, quoted)
    ensures InputFits(Obj([], []), b, quoted)
  {
  }

  lemma ArgumentsFit(entry: Json, body: Json, b: Bounds, quoted: string -> nat)
    requires ToolCallKey(entry).Some? && Inside(entry, body) && InputFits(body, b, quoted)
    ensures InputFits(Arguments(entry), b, quoted)
  {
    var params := Get(entry, "params").value;
    hide Inside, InputFits, Get;
    FieldFits(entry, "params", body, b, quoted);
    NothingFits(params, b, quoted);
    if Get(params, "arguments").Some? {
      FieldFits(params, "arguments", body, b, quoted);
    }
    assert InputFits(Arguments(entry), b, quoted);
  }
}
