/** The sanitizer of JSON-RPC responses to recorded tool calls. */
module Sanitizer {
  import opened Sequences
  import opened Json
  import opened BoundedInput

  const INVALID_INPUT := "INVALID_INPUT"
  const MAX_REQUEST_ID_LENGTH := 128

  /** What the sanitizer needs to know: the public messages by error code, the request id, the JSON
      printer, and the keys of the recorded tool calls. */
  datatype Policy = Policy(
    messages: map<string, string>, requestId: string, stringify: Json -> string, ids: set<string>)
  {
    ghost predicate Valid() { INVALID_INPUT in messages }

    function PublicId(): string {
      if |requestId| > MAX_REQUEST_ID_LENGTH then requestId[..MAX_REQUEST_ID_LENGTH] else requestId
    }
  }

  function Text(s: string): Json { Leaf(Str(s)) }

  function FailureValue(p: Policy): Json
    requires INVALID_INPUT in p.messages
  {
    Obj(["error"], [Obj(["code", "message", "requestId"],
                        [Text(INVALID_INPUT), Text(p.messages[INVALID_INPUT]), Text(p.PublicId())])])
  }

  function FailureContent(p: Policy): Json
    requires INVALID_INPUT in p.messages
  {
    Arr([Obj(["type", "text"], [Text("text"), Text(p.stringify(FailureValue(p)))])])
  }

  /** `{...result, ...safeInvalidToolFailure(requestId)}`. */
  function WithFailure(result: Json, p: Policy): (r: Json)
    requires result.Obj? && INVALID_INPUT in p.messages
    ensures r.Obj?
  {
    SetField(SetField(SetField(result, "isError", Leaf(Bool(true))), "content", FailureContent(p)),
             "structuredContent", FailureValue(p))
  }

  /** One of the public errors, for this request. */
  predicate IsPublicError(error: Json, p: Policy) {
    match Get(error, "code")
    case Some(Leaf(Str(code))) =>
      && code in p.messages
      && Get(error, "message") == Some(Text(p.messages[code]))
      && Get(error, "requestId") == Some(Text(p.PublicId()))
    case _ => false
  }

  /** `isSafeToolFailure`. */
  predicate IsSafeToolFailure(result: Json, p: Policy) {
    && Get(result, "structuredContent").Some?
    && Get(Get(result, "structuredContent").value, "error").Some?
    && IsPublicError(Get(Get(result, "structuredContent").value, "error").value, p)
  }

  predicate Matches(response: Json, p: Policy) {
    response.Obj? && RpcIdKey(Get(response, "id")).Some? && RpcIdKey(Get(response, "id")).value in p.ids
  }

  /** An invalid-parameters error without a result. */
  predicate HasRawError(response: Json) {
    && Get(response, "error").Some?
    && Get(Get(response, "error").value, "code") == Some(Leaf(Num("-32602")))
    && Get(response, "result").None?
  }

  /** An error result that is not one of the public failures. */
  predicate HasRawFailure(response: Json, p: Policy) {
    && Get(response, "result").Some?
    && Get(Get(response, "result").value, "isError") == Some(Leaf(Bool(true)))
    && !IsSafeToolFailure(Get(response, "result").value, p)
  }

  predicate Unsafe(response: Json, p: Policy) {
    Matches(response, p) && (HasRawError(response) || HasRawFailure(response, p))
  }

  function DeleteField(j: Json, key: string): (r: Json)
    requires j.Obj?
    ensures r.Obj?
  {
    var i := Find(j.keys, key);
    if 0 <= i < |j.values| then Obj(j.keys[..i] + j.keys[i + 1..], j.values[..i] + j.values[i + 1..]) else j
  }

  /** The response after `sanitizeToolPayload` has edited it. */
  function Sanitized(response: Json, p: Policy): Json
    requires INVALID_INPUT in p.messages
  {
    if !Matches(response, p) then response
    else if HasRawError(response) then
      SetField(DeleteField(response, "error"), "result", WithFailure(Obj([], []), p))
    else if HasRawFailure(response, p) then
      SetField(response, "result", WithFailure(Get(response, "result").value, p))
    else response
  }

  // ---------------------------------------------------------------- field algebra

  lemma DeleteThenGet(j: Json, key: string, other: string)
    requires Shaped(j)
    ensures Shaped(DeleteField(j, key))
    ensures Get(DeleteField(j, key), other) == if other == key then None else Get(j, other)
  {
    var i := Find(j.keys, key);
    if i >= 0 {
      var d := DeleteField(j, key);
      assert Shaped(d);
      var n := Find(j.keys, other);
      if other == key {
        assert key !in d.keys;
      } else if n >= 0 {
        var m := if n < i then n else n - 1;
        assert d.keys[m] == other && d.values[m] == j.values[n];
        ShapedFind(d, m);
      } else {
        assert other !in d.keys;
      }
    }
  }

  lemma ShapedFind(j: Json, m: nat)
    requires Shaped(j) && m < |j.keys|
    ensures Find(j.keys, j.keys[m]) == m
  {
    assert forall k :: 0 <= k < m ==> j.keys[k] != j.keys[m];
    FindOf(j.keys, m);
  }

  // ---------------------------------------------------------------- one response

  lemma FailureIsSafe(result: Json, p: Policy)
    requires Shaped(result) && p.Valid()
    ensures IsSafeToolFailure(WithFailure(result, p), p) && Shaped(WithFailure(result, p))
  {
    var content := FailureContent(p);
    var value := FailureValue(p);
    var one := SetField(result, "isError", Leaf(Bool(true)));
    SetThenGet(result, "isError", Leaf(Bool(true)), "isError");
    SetThenGet(one, "content", content, "content");
    SetThenGet(SetField(one, "content", content), "structuredContent", value, "structuredContent");
    FailureValueReads(p);
    hide SetField, FailureValue, FailureContent, Get;
  }

  lemma FailureValueReads(p: Policy)
    requires p.Valid()
    ensures Get(FailureValue(p), "error").Some?
    ensures var error := Get(FailureValue(p), "error").value;
            && Get(error, "code") == Some(Text(INVALID_INPUT))
            && Get(error, "message") == Some(Text(p.messages[INVALID_INPUT]))
            && Get(error, "requestId") == Some(Text(p.PublicId()))
  {
    var error := FailureValue(p).values[0];
    FindOf(error.keys, 0);
    FindOf(error.keys, 1);
    FindOf(error.keys, 2);
  }

  lemma DifferentFields()
    ensures "id" != "error" && "id" != "result" && "error" != "result"
  {
    assert |"id"| == 2 && |"error"| == 5 && |"result"| == 6;
  }

  ghost predicate WellShaped(response: Json) {
    response.Obj? ==> Shaped(response) && (Get(response, "result").Some? && Get(response, "result").value.Obj? ==>
                                             Shaped(Get(response, "result").value))
  }

  /** After sanitizing, a response to a recorded call carries neither a raw invalid-parameters error
      nor an error result that is not a public failure. */
  lemma SanitizedIsSafe(response: Json, p: Policy)
    requires WellShaped(response) && p.Valid()
    ensures !Unsafe(Sanitized(response, p), p)
    ensures Matches(Sanitized(response, p), p) <==> Matches(response, p)
    ensures Get(Sanitized(response, p), "id") == Get(response, "id")
    ensures WellShaped(Sanitized(response, p))
  {
    if !Matches(response, p) {
    } else if HasRawError(response) {
      var fixed, cleared := WithFailure(Obj([], []), p), DeleteField(response, "error");
      FailureIsSafe(Obj([], []), p);
      DifferentFields();
      DeleteThenGet(response, "error", "id");
      ReplacedResult(cleared, fixed, p);
      hide Unsafe, Matches, HasRawError, HasRawFailure, SetField, DeleteField, WithFailure, WellShaped;
    } else if HasRawFailure(response, p) {
      var fixed := WithFailure(Get(response, "result").value, p);
      FailureIsSafe(Get(response, "result").value, p);
      ReplacedResult(response, fixed, p);
      hide Unsafe, Matches, HasRawError, HasRawFailure, SetField, WithFailure, WellShaped;
    }
    IdDecidesMatch(response, Sanitized(response, p), p);
  }

  lemma ReplacedResult(response: Json, fixed: Json, p: Policy)
    requires Shaped(response) && fixed.Obj? && Shaped(fixed) && IsSafeToolFailure(fixed, p)
    ensures var r := SetField(response, "result", fixed);
            r.Obj? && WellShaped(r) && !Unsafe(r, p) && Get(r, "id") == Get(response, "id")
  {
    DifferentFields();
    SetThenGet(response, "result", fixed, "id");
    SetThenGet(response, "result", fixed, "result");
    hide SetField, IsSafeToolFailure, Matches, Shaped;
  }

  lemma IdDecidesMatch(a: Json, b: Json, p: Policy)
    requires (a.Obj? <==> b.Obj?) && Get(a, "id") == Get(b, "id")
    ensures Matches(a, p) <==> Matches(b, p)
  {
  }

  /** Exactly the unsafe responses are changed; so sanitizing twice is sanitizing once. */
  lemma SanitizingIsIdempotent(response: Json, p: Policy)
    requires WellShaped(response) && p.Valid()
    ensures Sanitized(Sanitized(response, p), p) == Sanitized(response, p)
    ensures Sanitized(response, p) != response <==> Unsafe(response, p)
  {
    SanitizedIsSafe(response, p);
    hide Matches, HasRawError, HasRawFailure, WellShaped;
  }

  // ---------------------------------------------------------------- what is changed, field by field

  /** The public failure as it is written: an error for the request with the public message and an id
      of at most 128 characters, printed as the one text of the content and given as structured content. */
  ghost predicate CarriesFailure(result: Json, p: Policy) {
    && result.Obj? && INVALID_INPUT in p.messages
    && Get(result, "isError") == Some(Leaf(Bool(true)))
    && exists id: string, failure: Json ::
         && id <= p.requestId && |id| == (if |p.requestId| > 128 then 128 else |p.requestId|)
         && failure == Obj(["error"], [Obj(["code", "message", "requestId"],
              [Leaf(Str("INVALID_INPUT")), Leaf(Str(p.messages["INVALID_INPUT"])), Leaf(Str(id))])])
         && Get(result, "structuredContent") == Some(failure)
         && Get(result, "content") == Some(Arr([Obj(["type", "text"],
              [Leaf(Str("text")), Leaf(Str(p.stringify(failure)))])]))
  }

  predicate FailureField(key: string) {
    key == "isError" || key == "content" || key == "structuredContent"
  }

  lemma DifferentFailureFields()
    ensures "isError" != "content" && "isError" != "structuredContent" && "content" != "structuredContent"
  {
    assert "isError"[0] == 'i' && "content"[0] == 'c' && |"content"| == 7 && |"structuredContent"| == 17;
  }

  lemma FailureIsCarried(result: Json, p: Policy)
    requires Shaped(result) && p.Valid()
    ensures Shaped(WithFailure(result, p)) && CarriesFailure(WithFailure(result, p), p)
    ensures forall key :: !FailureField(key) ==> Get(WithFailure(result, p), key) == Get(result, key)
  {
    var content, value := FailureContent(p), FailureValue(p);
    var one := SetField(result, "isError", Leaf(Bool(true)));
    var two := SetField(one, "content", content);
    var all := SetField(two, "structuredContent", value);
    DifferentFailureFields();
    forall key ensures Get(all, key) == if key == "structuredContent" then Some(value)
                                        else if key == "content" then Some(content)
                                        else if key == "isError" then Some(Leaf(Bool(true))) else Get(result, key)
    {
      SetThreeThenGet(result, Leaf(Bool(true)), content, value, key);
    }
    SetThreeThenGet(result, Leaf(Bool(true)), content, value, "content");
    assert WithFailure(result, p) == all;
    hide SetField, Get, Shaped, FailureContent, FailureValue, WithFailure;
    WrittenIsCarried(all, p);
  }

  lemma SetThreeThenGet(j: Json, isError: Json, content: Json, structured: Json, key: string)
    requires Shaped(j)
    ensures var all := SetField(SetField(SetField(j, "isError", isError), "content", content),
                                "structuredContent", structured);
            && Shaped(all)
            && Get(all, key) == if key == "structuredContent" then Some(structured)
                                else if key == "content" then Some(content)
                                else if key == "isError" then Some(isError) else Get(j, key)
  {
    hide Get;
    var one := SetField(j, "isError", isError);
    SetThenGet(j, "isError", isError, key);
    var two := SetField(one, "content", content);
    SetThenGet(one, "content", content, key);
    SetThenGet(two, "structuredContent", structured, key);
  }

  lemma WrittenIsCarried(result: Json, p: Policy)
    requires result.Obj? && p.Valid() && Get(result, "isError") == Some(Leaf(Bool(true)))
    requires Get(result, "content") == Some(FailureContent(p))
    requires Get(result, "structuredContent") == Some(FailureValue(p))
    ensures CarriesFailure(result, p)
  {
    var id, failure := p.PublicId(), FailureValue(p);
    hide Get;
    assert id <= p.requestId;
    assert CarriesFailure(result, p);
  }

  /** The response is to a recorded call. */
  ghost predicate ToRecordedCall(response: Json, p: Policy) {
    exists id, key :: Get(response, "id") == Some(id) && RpcIdKey(Some(id)) == Some(key) && key in p.ids
  }

  /** A raw invalid-parameters error is removed, and the public failure put in the place of the result. */
  lemma RawErrorIsReplaced(response: Json, p: Policy)
    requires Shaped(response) && p.Valid() && ToRecordedCall(response, p)
    requires Get(response, "error").Some? && Get(Get(response, "error").value, "code") == Some(Leaf(Num("-32602")))
    requires Get(response, "result").None?
    ensures var out := Sanitized(response, p);
            && out.Obj? && Get(out, "error").None? && Get(out, "result").Some?
            && CarriesFailure(Get(out, "result").value, p)
            && (forall key :: Get(Get(out, "result").value, key).Some? ==> FailureField(key))
            && (forall key :: key != "error" && key != "result" ==> Get(out, key) == Get(response, key))
  {
    var fixed, cleared := WithFailure(Obj([], []), p), DeleteField(response, "error");
    FailureIsCarried(Obj([], []), p);
    DifferentFields();
    forall key
      ensures Shaped(cleared) && Get(cleared, key) == if key == "error" then None else Get(response, key)
    {
      DeleteThenGet(response, "error", key);
    }
    forall key
      ensures Get(SetField(cleared, "result", fixed), key) == if key == "result" then Some(fixed) else Get(cleared, key)
    {
      SetThenGet(cleared, "result", fixed, key);
    }
    assert Sanitized(response, p) == SetField(cleared, "result", fixed);
    assert forall key :: Get(Obj([], []), key).None?;
    hide SetField, DeleteField, WithFailure, CarriesFailure, Shaped, Get;
  }

  /** A raw failure keeps its other fields; the three that carry the failure are replaced. */
  lemma RawFailureIsReplaced(response: Json, p: Policy)
    requires WellShaped(response) && response.Obj? && p.Valid() && ToRecordedCall(response, p)
    requires Get(response, "result").Some? && Get(Get(response, "result").value, "isError") == Some(Leaf(Bool(true)))
    requires !PublicFailure(Get(response, "result").value, p)
    ensures var out := Sanitized(response, p);
            && out.Obj? && Get(out, "result").Some? && CarriesFailure(Get(out, "result").value, p)
            && (forall key :: !FailureField(key) ==>
                                Get(Get(out, "result").value, key) == Get(Get(response, "result").value, key))
            && (forall key :: key != "result" ==> Get(out, key) == Get(response, key))
  {
    var result := Get(response, "result").value;
    var fixed := WithFailure(result, p);
    FailureIsCarried(result, p);
    PublicFailureMeans(result, p);
    forall key
      ensures Get(SetField(response, "result", fixed), key) ==
                if key == "result" then Some(fixed) else Get(response, key)
    {
      SetThenGet(response, "result", fixed, key);
    }
    assert Sanitized(response, p) == SetField(response, "result", fixed);
    hide SetField, WithFailure, CarriesFailure, Shaped, WellShaped, PublicFailure, Get;
  }

  /** The structured content is a public error: a known code, its message, and the request's id. */
  ghost predicate PublicFailure(result: Json, p: Policy) {
    exists structured, error, code: string ::
      && Get(result, "structuredContent") == Some(structured) && Get(structured, "error") == Some(error)
      && Get(error, "code") == Some(Leaf(Str(code))) && code in p.messages
      && Get(error, "message") == Some(Leaf(Str(p.messages[code])))
      && Get(error, "requestId") == Some(Leaf(Str(if |p.requestId| > 128 then p.requestId[..128] else p.requestId)))
  }

  lemma PublicFailureMeans(result: Json, p: Policy)
    ensures IsSafeToolFailure(result, p) <==> PublicFailure(result, p)
  {
  }

  /** Every other response is left as it is. */
  lemma OthersAreUntouched(response: Json, p: Policy)
    requires p.Valid()
    requires !ToRecordedCall(response, p)
          || (!(Get(response, "error").Some? && Get(response, "result").None?
                && Get(Get(response, "error").value, "code") == Some(Leaf(Num("-32602"))))
              && !(Get(response, "result").Some? && !PublicFailure(Get(response, "result").value, p)
                   && Get(Get(response, "result").value, "isError") == Some(Leaf(Bool(true)))))
    ensures Sanitized(response, p) == response
  {
    if Get(response, "result").Some? {
      PublicFailureMeans(Get(response, "result").value, p);
    }
    if Matches(response, p) {
      assert Get(response, "id") == Some(Get(response, "id").value);
    }
    hide PublicFailure, IsSafeToolFailure;
  }

  // ---------------------------------------------------------------- a payload, edited in place

  ghost predicate AllWellShaped(items: seq<Json>) {
    forall i :: 0 <= i < |items| ==> WellShaped(items[i])
  }

  function SanitizedAll(items: seq<Json>, p: Policy): seq<Json>
    requires INVALID_INPUT in p.messages
  {
    seq(|items|, i requires 0 <= i < |items| => Sanitized(items[i], p))
  }

  /** `sanitizeToolPayload` on slot `i`: edits it in place and tells whether it did. */
  method SanitizeToolPayload(items: array<Json>, i: nat, p: Policy) returns (changed: bool)
    requires p.Valid() && i < items.Length
    modifies items
    ensures items[..] == old(items[..])[i := Sanitized(old(items[i]), p)]
    ensures changed <==> Unsafe(old(items[i]), p)
  {
    var response := items[i];
    if !Matches(response, p) { return false; }
    if HasRawError(response) {
      items[i] := DeleteField(items[i], "error");
      items[i] := SetField(items[i], "result", WithFailure(Obj([], []), p));
      return true;
    }
    if !HasRawFailure(response, p) { return false; }
    items[i] := SetField(items[i], "result", WithFailure(Get(response, "result").value, p));
    return true;
  }

  /** The loop over a batch. */
  method SanitizeBatch(items: array<Json>, p: Policy) returns (changed: bool)
    requires p.Valid()
    modifies items
    ensures items[..] == SanitizedAll(old(items[..]), p)
    ensures changed <==> exists i :: 0 <= i < items.Length && Unsafe(old(items[i]), p)
  {
    changed := false;
    hide Sanitized, Unsafe;
    for i := 0 to items.Length
      invariant forall k :: 0 <= k < i ==> items[k] == Sanitized(old(items[k]), p)
      invariant forall k :: i <= k < items.Length ==> items[k] == old(items[k])
      invariant changed <==> exists k :: 0 <= k < i && Unsafe(old(items[k]), p)
    {
      var one := SanitizeToolPayload(items, i, p);
      changed := one || changed;
    }
  }

  // ---------------------------------------------------------------- the text of a payload

  /** The JSON parser and printer. */
  datatype Codec = Codec(parse: string -> Option<Json>, stringify: Json -> string) {
    /** Parsing what was printed for `j` gives `j` back, numbers that are not finite having become null. */
    predicate RoundTrips(j: Json) {
      parse(stringify(j)) == Some(Reparsed(j))
    }
  }

  function Reparsed(j: Json): Json {
    match j
    case Leaf(Num(text)) => if Finite(text) then j else Leaf(Null)
    case Leaf(_) => j
    case Arr(items) => Arr(seq(|items|, i requires 0 <= i < |items| => Reparsed(items[i])))
    case Obj(keys, values) => Obj(keys, seq(|values|, i requires 0 <= i < |values| => Reparsed(values[i])))
  }

  ghost predicate PayloadShaped(payload: Json) {
    if payload.Arr? then AllWellShaped(payload.items) else WellShaped(payload)
  }

  function SanitizedPayload(payload: Json, p: Policy): Json
    requires INVALID_INPUT in p.messages
  {
    if payload.Arr? then Arr(SanitizedAll(payload.items, p)) else Sanitized(payload, p)
  }

  predicate PayloadUnsafe(payload: Json, p: Policy) {
    if payload.Arr? then exists i :: 0 <= i < |payload.items| && Unsafe(payload.items[i], p) else Unsafe(payload, p)
  }

  /** `sanitizePayloadText`: text that does not parse, or needs no change, is returned as it is. */
  function SanitizedText(text: string, p: Policy, c: Codec): string
    requires INVALID_INPUT in p.messages
  {
    match c.parse(text)
    case None => text
    case Some(payload) => if PayloadUnsafe(payload, p) then c.stringify(SanitizedPayload(payload, p)) else text
  }

  lemma SanitizedPayloadIsSafe(payload: Json, p: Policy)
    requires p.Valid() && PayloadShaped(payload)
    ensures !PayloadUnsafe(SanitizedPayload(payload, p), p)
    ensures SanitizedPayload(SanitizedPayload(payload, p), p) == SanitizedPayload(payload, p)
    ensures PayloadShaped(SanitizedPayload(payload, p))
  {
    if payload.Arr? {
      var out := SanitizedAll(payload.items, p);
      forall i | 0 <= i < |out| ensures !Unsafe(out[i], p) && Sanitized(out[i], p) == out[i] && WellShaped(out[i]) {
        SanitizedIsSafe(payload.items[i], p);
        SanitizingIsIdempotent(payload.items[i], p);
      }
      hide Unsafe, Sanitized, WellShaped;
      assert SanitizedAll(out, p) == out;
    } else {
      SanitizedIsSafe(payload, p);
      SanitizingIsIdempotent(payload, p);
      SanitizedStaysSingle(payload, p);
      hide Unsafe, Sanitized;
    }
  }

  /** `after` is `before` with every response in it sanitized. */
  ghost predicate EachSanitized(before: Json, after: Json, p: Policy)
    requires INVALID_INPUT in p.messages
  {
    if before.Arr? then
      && after.Arr? && |after.items| == |before.items|
      && forall i :: 0 <= i < |before.items| ==> after.items[i] == Sanitized(before.items[i], p)
    else after == Sanitized(before, p)
  }

  /** What becomes of the text of a payload: it is printed again only if some response in it changes. */
  lemma SanitizedTextMeans(text: string, p: Policy, c: Codec)
    requires p.Valid() && (c.parse(text).Some? ==> PayloadShaped(c.parse(text).value))
    ensures c.parse(text).None? ==> SanitizedText(text, p, c) == text
    ensures c.parse(text).Some? ==>
              exists after :: EachSanitized(c.parse(text).value, after, p)
                              && SanitizedText(text, p, c) == if after == c.parse(text).value then text
                                                              else c.stringify(after)
  {
    if c.parse(text).Some? {
      var before := c.parse(text).value;
      PayloadChangesIffUnsafe(before, p);
      hide EachSanitized, PayloadUnsafe, SanitizedPayload, PayloadShaped;
      assert EachSanitized(before, SanitizedPayload(before, p), p);
    }
  }

  lemma PayloadChangesIffUnsafe(payload: Json, p: Policy)
    requires p.Valid() && PayloadShaped(payload)
    ensures SanitizedPayload(payload, p) != payload <==> PayloadUnsafe(payload, p)
    ensures EachSanitized(payload, SanitizedPayload(payload, p), p)
  {
    if payload.Arr? {
      var out := SanitizedAll(payload.items, p);
      forall i | 0 <= i < |out| ensures out[i] != payload.items[i] <==> Unsafe(payload.items[i], p) {
        SanitizingIsIdempotent(payload.items[i], p);
      }
      hide Sanitized, Unsafe, WellShaped;
      if forall i :: 0 <= i < |out| ==> !Unsafe(payload.items[i], p) {
        assert out == payload.items;
      }
    } else {
      SanitizingIsIdempotent(payload, p);
      hide Sanitized, Unsafe, WellShaped;
    }
  }

  lemma SanitizedStaysSingle(payload: Json, p: Policy)
    requires p.Valid() && !payload.Arr?
    ensures !Sanitized(payload, p).Arr?
  {
  }

  lemma ReparsedField(j: Json, key: string)
    ensures Get(Reparsed(j), key) == if Get(j, key).None? then None else Some(Reparsed(Get(j, key).value))
  {
  }

  lemma ReparsedMatches(response: Json, p: Policy)
    ensures Matches(Reparsed(response), p) <==> Matches(response, p)
  {
    ReparsedField(response, "id");
    if Get(response, "id").Some? {
      assert RpcIdKey(Some(Reparsed(Get(response, "id").value))) == RpcIdKey(Get(response, "id"));
    }
    hide Get, RpcIdKey;
    assert Matches(Reparsed(response), p) <==> Matches(response, p);
  }

  lemma ReparsedRawError(response: Json)
    ensures HasRawError(Reparsed(response)) <==> HasRawError(response)
  {
    ReparsedField(response, "error");
    ReparsedField(response, "result");
    if Get(response, "error").Some? {
      ReparsedField(Get(response, "error").value, "code");
    }
    hide Get;
    assert HasRawError(Reparsed(response)) <==> HasRawError(response);
  }

  lemma ReparsedPublicError(error: Json, p: Policy)
    ensures IsPublicError(Reparsed(error), p) <==> IsPublicError(error, p)
  {
    ReparsedField(error, "code");
    ReparsedField(error, "message");
    ReparsedField(error, "requestId");
    hide Get;
    assert IsPublicError(Reparsed(error), p) <==> IsPublicError(error, p);
  }

  lemma ReparsedFailure(result: Json, p: Policy)
    ensures IsSafeToolFailure(Reparsed(result), p) <==> IsSafeToolFailure(result, p)
  {
    ReparsedField(result, "structuredContent");
    if Get(result, "structuredContent").Some? {
      var structured := Get(result, "structuredContent").value;
      ReparsedField(structured, "error");
      if Get(structured, "error").Some? {
        ReparsedPublicError(Get(structured, "error").value, p);
      }
    }
    hide Get, IsPublicError;
    assert IsSafeToolFailure(Reparsed(result), p) <==> IsSafeToolFailure(result, p);
  }

  lemma ReparsedRawFailure(response: Json, p: Policy)
    ensures HasRawFailure(Reparsed(response), p) <==> HasRawFailure(response, p)
  {
    ReparsedField(response, "result");
    if Get(response, "result").Some? {
      ReparsedField(Get(response, "result").value, "isError");
      ReparsedFailure(Get(response, "result").value, p);
    }
    hide Get, IsSafeToolFailure;
    assert HasRawFailure(Reparsed(response), p) <==> HasRawFailure(response, p);
  }

  /** Null for a number that is not finite makes no response unsafe: no such number is an id, a code or a flag. */
  lemma ReparsedIsAsSafe(response: Json, p: Policy)
    ensures Unsafe(Reparsed(response), p) <==> Unsafe(response, p)
  {
    hide Matches, HasRawError, HasRawFailure, Reparsed;
    ReparsedMatches(response, p);
    ReparsedRawError(response);
    ReparsedRawFailure(response, p);
    assert Unsafe(Reparsed(response), p) <==> Unsafe(response, p);
  }

  lemma ReparsedPayloadIsAsSafe(payload: Json, p: Policy)
    ensures PayloadUnsafe(Reparsed(payload), p) <==> PayloadUnsafe(payload, p)
  {
    if payload.Arr? {
      forall i | 0 <= i < |payload.items|
        ensures Unsafe(Reparsed(payload).items[i], p) <==> Unsafe(payload.items[i], p)
      {
        ReparsedIsAsSafe(payload.items[i], p);
      }
    } else {
      ReparsedIsAsSafe(payload, p);
    }
    hide Unsafe;
  }

  /** On the level of text, for single responses and batches: twice is once. The parser gives objects
      with distinct keys, and the one value that is printed is read back. */
  lemma TextIsIdempotent(text: string, p: Policy, c: Codec)
    requires p.Valid()
    requires c.parse(text).Some? ==>
               PayloadShaped(c.parse(text).value) && c.RoundTrips(SanitizedPayload(c.parse(text).value, p))
    ensures SanitizedText(SanitizedText(text, p, c), p, c) == SanitizedText(text, p, c)
    ensures c.parse(SanitizedText(text, p, c)).Some? ==> !PayloadUnsafe(c.parse(SanitizedText(text, p, c)).value, p)
  {
    if c.parse(text).Some? && PayloadUnsafe(c.parse(text).value, p) {
      var payload := SanitizedPayload(c.parse(text).value, p);
      SanitizedPayloadIsSafe(c.parse(text).value, p);
      ReparsedPayloadIsAsSafe(payload, p);
    }
    hide PayloadUnsafe, SanitizedPayload, PayloadShaped, Reparsed;
  }
}
