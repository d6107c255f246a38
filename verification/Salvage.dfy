/** Finding the extraction object in the text of a model response.

    The JSON decoder is a parameter: given a text and a position it may decode a value there. */
module Salvage {
  import opened Sequences

  const MAX_SALVAGE_ATTEMPTS := 1_000

  const EXPECTED_KEYS: set<string> := {
    "receipt_date", "document_title", "vendor_name", "vendor_tax_id", "vendor_receipt_id", "client_name",
    "client_tax_id", "description", "line_items", "subtotal", "tax_amount", "total_amount", "currency",
    "payment_method", "payment_identifier", "language", "additional_fields", "raw_extracted_text",
    "document_type", "category", "extraction_confidence", "tax_components"}

  /** A decoded JSON value: its keys if it is an object, and where it ends. */
  datatype Value = Object(keys: set<string>, content: nat) | NotAnObject
  datatype Decoded = Decoded(value: Value, end: nat)
  type Decoder = (string, nat) -> Option<Decoded>

  /** `str.isspace` of one character. */
  predicate IsSpace(c: char) {
    || '\t' <= c <= '\r' || '\U{001C}' <= c <= ' ' || c == '\U{0085}' || c == '\U{00A0}' || c == '\U{1680}'
    || '\U{2000}' <= c <= '\U{200A}' || c in ['\U{2028}', '\U{2029}', '\U{202F}', '\U{205F}', '\U{3000}']
  }

  function SkipSpace(text: string, start: nat): nat
    decreases |text| - start
  {
    if start < |text| && IsSpace(text[start]) then SkipSpace(text, start + 1) else start
  }

  function Matched(d: Decoded): nat {
    if d.value.Object? then |EXPECTED_KEYS * d.value.keys| else 0
  }

  /** `_decode_leading_object`: an object there, after white space, with at least two expected keys. */
  function DecodeLeadingObject(decode: Decoder, text: string, start: nat): Option<Decoded> {
    var d := decode(text, SkipSpace(text, start));
    if d.Some? && d.value.value.Object? && Matched(d.value) >= 2 then d else None
  }

  predicate SpaceAt(text: string, i: int) { 0 <= i < |text| && IsSpace(text[i]) }

  /** The first place from `start` on that is no white space. */
  ghost predicate BehindSpace(text: string, start: nat, at: nat) {
    start <= at && (forall i :: start <= i < at ==> SpaceAt(text, i)) && !SpaceAt(text, at)
  }

  /** What a candidate is: behind white space, a decoded object with at least two of the expected keys. */
  lemma CandidateMeans(decode: Decoder, text: string, start: nat, d: Decoded)
    ensures DecodeLeadingObject(decode, text, start) == Some(d) <==>
              exists at: nat ::
                && BehindSpace(text, start, at) && decode(text, at) == Some(d) && d.value.Object?
                && |set key | key in EXPECTED_KEYS && key in d.value.keys| >= 2
  {
    SkipSpaceMeans(text, start);
    if d.value.Object? {
      assert EXPECTED_KEYS * d.value.keys == set key | key in EXPECTED_KEYS && key in d.value.keys;
    }
    var at := SkipSpace(text, start);
    hide SkipSpace, SpaceAt;
    forall other: nat | BehindSpace(text, start, other) ensures other == at {
      assert other < at ==> SpaceAt(text, other);
      assert at < other ==> SpaceAt(text, at);
    }
    hide BehindSpace;
  }

  lemma {:induction false} SkipSpaceMeans(text: string, start: nat)
    ensures BehindSpace(text, start, SkipSpace(text, start))
    decreases |text| - start
  {
    hide IsSpace;
    if start < |text| && IsSpace(text[start]) {
      SkipSpaceMeans(text, start + 1);
      var at := SkipSpace(text, start + 1);
      assert SpaceAt(text, start);
      hide SpaceAt;
      assert forall i :: start <= i < at && i != start ==> SpaceAt(text, i);
      assert BehindSpace(text, start, at);
    }
  }

  /** The score of a candidate is the number of expected keys it has; of a place with none it is zero. */
  lemma ScoreMeans(decode: Decoder, text: string, start: nat)
    ensures var d := DecodeLeadingObject(decode, text, start);
            Score(decode, text, start) == if d.None? then 0
              else if d.value.value.Object? then |set key | key in EXPECTED_KEYS && key in d.value.value.keys| else 0
  {
    var d := DecodeLeadingObject(decode, text, start);
    if d.Some? && d.value.value.Object? {
      assert EXPECTED_KEYS * d.value.value.keys == set key | key in EXPECTED_KEYS && key in d.value.value.keys;
    }
  }

  /** The positions of `{` before `n`, in order. */
  function BracesBefore(text: string, n: nat): (r: seq<nat>)
    requires n <= |text|
    ensures forall i :: 0 <= i < |r| ==> r[i] < n
  {
    if n == 0 then []
    else BracesBefore(text, n - 1) + if text[n - 1] == '{' then [n - 1] else []
  }

  lemma {:induction false} BracesPrefix(text: string, m: nat, n: nat)
    requires m <= n <= |text|
    ensures BracesBefore(text, m) <= BracesBefore(text, n)
    ensures (forall i :: m <= i < n ==> text[i] != '{') ==> BracesBefore(text, m) == BracesBefore(text, n)
    decreases n
  {
    if m < n {
      BracesPrefix(text, m, n - 1);
    }
  }

  /** `text.find("{", start)`, with the length standing for -1. */
  method FindBrace(text: string, start: nat) returns (i: nat)
    requires start <= |text|
    ensures start <= i <= |text|
    ensures forall k :: start <= k < i ==> text[k] != '{'
    ensures i < |text| ==> text[i] == '{'
  {
    i := start;
    while i < |text| && text[i] != '{'
      invariant start <= i <= |text|
      invariant forall k :: start <= k < i ==> text[k] != '{'
    {
      i := i + 1;
    }
  }

  /** Where salvaging looks: behind the opening fence, then at the first thousand `{`. */
  function Candidates(text: string, fence: Option<nat>): seq<nat> {
    (if fence.Some? then [fence.value] else []) + FirstThousand(text)
  }

  /** The number of expected keys found at a position; 0 if nothing usable decodes there. */
  function Score(decode: Decoder, text: string, start: nat): nat {
    var d := DecodeLeadingObject(decode, text, start);
    if d.None? then 0 else Matched(d.value)
  }

  /** `best` is the candidate of the highest score, and the first of those. */
  ghost predicate FirstBest(decode: Decoder, text: string, places: seq<nat>, best: Option<Decoded>) {
    if forall i :: 0 <= i < |places| ==> DecodeLeadingObject(decode, text, places[i]).None? then best.None?
    else exists i :: 0 <= i < |places| && IsFirstBest(decode, text, places, i)
                     && best == DecodeLeadingObject(decode, text, places[i]) && best.Some?
  }

  ghost predicate IsFirstBest(decode: Decoder, text: string, places: seq<nat>, i: nat)
    requires i < |places|
  {
    && (forall k :: 0 <= k < |places| ==> Score(decode, text, places[k]) <= Score(decode, text, places[i]))
    && (forall k :: 0 <= k < i ==> Score(decode, text, places[k]) < Score(decode, text, places[i]))
  }

  function BestScore(best: Option<Decoded>): nat {
    if best.None? then 0 else Matched(best.value)
  }

  /** One more place: it becomes the best exactly when its score is higher. */
  lemma OneMorePlace(decode: Decoder, text: string, places: seq<nat>, best: Option<Decoded>, place: nat)
    requires FirstBest(decode, text, places, best)
    ensures FirstBest(decode, text, places + [place],
              if Score(decode, text, place) > BestScore(best) then DecodeLeadingObject(decode, text, place) else best)
  {
    var all := places + [place];
    var d := DecodeLeadingObject(decode, text, place);
    ScoreOf(decode, text, place);
    hide DecodeLeadingObject, Matched, Score, BestScore;
    assert all[|places|] == place;
    assert forall k :: 0 <= k < |places| ==> all[k] == places[k];
    if best.Some? {
      var i :| 0 <= i < |places| && IsFirstBest(decode, text, places, i)
        && best == DecodeLeadingObject(decode, text, places[i]) && best.Some?;
      ScoreOf(decode, text, places[i]);
      if Score(decode, text, place) > BestScore(best) {
        assert IsFirstBest(decode, text, all, |places|);
        assert FirstBest(decode, text, all, d);
      } else {
        assert IsFirstBest(decode, text, all, i);
        assert FirstBest(decode, text, all, best);
      }
    } else {
      ScoresOfNone(decode, text, places);
      if d.Some? {
        assert IsFirstBest(decode, text, all, |places|);
        assert FirstBest(decode, text, all, d);
      } else {
        assert FirstBest(decode, text, all, None);
      }
    }
  }

  lemma ScoreOf(decode: Decoder, text: string, place: nat)
    ensures Score(decode, text, place) == BestScore(DecodeLeadingObject(decode, text, place))
    ensures DecodeLeadingObject(decode, text, place).Some? <==> Score(decode, text, place) > 0
    ensures BestScore(None) == 0
  {
  }

  lemma ScoresOfNone(decode: Decoder, text: string, places: seq<nat>)
    requires FirstBest(decode, text, places, None)
    ensures forall k :: 0 <= k < |places| ==>
              DecodeLeadingObject(decode, text, places[k]).None? && Score(decode, text, places[k]) == 0
  {
    forall k | 0 <= k < |places|
      ensures DecodeLeadingObject(decode, text, places[k]).None? && Score(decode, text, places[k]) == 0
    {
      ScoreOf(decode, text, places[k]);
    }
  }

  datatype Tier = LEADING | FENCE | SCAN

  /** The choice of `parse_llm_response` before schema validation. Without a leading object, the
      object of the highest score is taken, ties going to the fence and then to the earliest place;
      parsing fails exactly when nothing decodes anywhere. */
  method ChooseObject(decode: Decoder, text: string, fence: Option<nat>)
    returns (chosen: Option<Decoded>, salvaged: bool, tier: Tier)
    requires fence.Some? ==> fence.value <= |text|
    ensures DecodeLeadingObject(decode, text, 0).Some? ==>
              chosen == DecodeLeadingObject(decode, text, 0) && !salvaged && tier == LEADING
    ensures DecodeLeadingObject(decode, text, 0).None? ==>
              FirstBest(decode, text, Candidates(text, fence), chosen) && (salvaged <==> chosen.Some?)
    ensures tier == FENCE ==> fence.Some? && chosen == DecodeLeadingObject(decode, text, fence.value)
  {
    chosen, salvaged, tier := DecodeLeadingObject(decode, text, 0), false, LEADING;
    if chosen.Some? { return; }
    var best: Option<Decoded> := None;
    ghost var places: seq<nat> := [];
    if fence.Some? {
      OneMorePlace(decode, text, [], None, fence.value);
      best := DecodeLeadingObject(decode, text, fence.value);
      places := [fence.value];
      assert places == [] + [fence.value];
    }
    hide DecodeLeadingObject, FirstBest;
    var replaced;
    best, replaced := ScanBraces(decode, text, places, best);
    if best.Some? {
      chosen, salvaged, tier := best, true, if replaced || fence.None? then SCAN else FENCE;
    }
  }

  function FirstThousand(text: string): seq<nat> {
    var braces := BracesBefore(text, |text|);
    if |braces| > MAX_SALVAGE_ATTEMPTS then braces[..MAX_SALVAGE_ATTEMPTS] else braces
  }

  /** The places that are scanned: positions of `{`, in order and none skipped, at most a thousand. */
  lemma FirstThousandMeans(text: string)
    ensures var places := FirstThousand(text);
            && |places| <= 1_000
            && (forall i :: 0 <= i < |places| ==> places[i] < |text| && text[places[i]] == '{')
            && (forall i, k :: 0 <= i < k < |places| ==> places[i] < places[k])
            && (forall p :: 0 <= p < |text| && text[p] == '{' ==>
                              p in places || (|places| == 1_000 && places[999] < p))
  {
    BracesMeans(text, |text|);
    var braces := BracesBefore(text, |text|);
    var places := FirstThousand(text);
    hide BracesBefore;
    forall p | 0 <= p < |text| && text[p] == '{' ensures p in places || (|places| == 1_000 && places[999] < p) {
      var i :| 0 <= i < |braces| && braces[i] == p;
      if i < |places| {
        assert places[i] == p;
      }
    }
  }

  lemma {:induction false} BracesMeans(text: string, n: nat)
    requires n <= |text|
    ensures var r := BracesBefore(text, n);
            && (forall i :: 0 <= i < |r| ==> text[r[i]] == '{')
            && (forall i, k :: 0 <= i < k < |r| ==> r[i] < r[k])
            && (forall p :: 0 <= p < n && text[p] == '{' ==> p in r)
  {
    if n > 0 {
      BracesMeans(text, n - 1);
    }
  }

  /** The loop over the `{` positions, starting from what the fence gave. */
  method ScanBraces(decode: Decoder, text: string, ghost first: seq<nat>, start: Option<Decoded>)
    returns (best: Option<Decoded>, replaced: bool)
    requires FirstBest(decode, text, first, start)
    ensures FirstBest(decode, text, first + FirstThousand(text), best)
    ensures !replaced ==> best == start
  {
    hide FirstBest, DecodeLeadingObject, Matched, Score, BestScore, BracesBefore, FirstThousand;
    best, replaced := start, false;
    var index := FindBrace(text, 0);
    NoBraceYet(text, index);
    assert first + [] == first;
    var attempts := 0;
    while index < |text| && attempts < MAX_SALVAGE_ATTEMPTS
      invariant index <= |text| && (index < |text| ==> text[index] == '{')
      invariant attempts == |BracesBefore(text, index)| <= MAX_SALVAGE_ATTEMPTS
      invariant FirstBest(decode, text, first + BracesBefore(text, index), best)
      invariant !replaced ==> best == start
    {
      var candidate := DecodeLeadingObject(decode, text, index);
      NextPlace(decode, text, first, index, best);
      attempts := attempts + 1;
      if candidate.Some? && Matched(candidate.value) > BestScore(best) {
        best, replaced := candidate, true;
      }
      var next := FindBrace(text, index + 1);
      BracesPrefix(text, index + 1, next);
      index := next;
    }
    EnoughBraces(text, index);
  }

  lemma NoBraceYet(text: string, index: nat)
    requires index <= |text| && forall k :: 0 <= k < index ==> text[k] != '{'
    ensures BracesBefore(text, index) == []
  {
    BracesPrefix(text, 0, index);
  }

  lemma NextPlace(decode: Decoder, text: string, first: seq<nat>, index: nat, best: Option<Decoded>)
    requires index < |text| && text[index] == '{'
    requires FirstBest(decode, text, first + BracesBefore(text, index), best)
    ensures |BracesBefore(text, index + 1)| == |BracesBefore(text, index)| + 1
    ensures var d := DecodeLeadingObject(decode, text, index);
            FirstBest(decode, text, first + BracesBefore(text, index + 1),
              if d.Some? && Matched(d.value) > BestScore(best) then d else best)
  {
    hide FirstBest, Matched, DecodeLeadingObject;
    OneMorePlace(decode, text, first + BracesBefore(text, index), best, index);
    assert first + BracesBefore(text, index) + [index] == first + BracesBefore(text, index + 1);
  }

  lemma EnoughBraces(text: string, index: nat)
    requires index <= |text| && |BracesBefore(text, index)| <= MAX_SALVAGE_ATTEMPTS
    requires index == |text| || |BracesBefore(text, index)| == MAX_SALVAGE_ATTEMPTS
    ensures BracesBefore(text, index) == FirstThousand(text)
  {
    BracesPrefix(text, index, |text|);
  }
}
