/** A trace context between two hops: extracted from headers, printed as a carrier, extracted again. */
module TraceCarrier {
  import opened Sequences
  import opened TraceContext
  import opened Baggage
  import opened TraceGrammar

  datatype Headers = Headers(traceparent: Option<string>, tracestate: Option<string>, baggage: Option<string>)

  datatype Context = Context(
    traceId: string,
    parentSpanId: Option<string>,
    traceFlags: Option<string>,
    tracestate: Option<string>,
    baggage: Items)

  /** `extractMcpTraceContext`; `random` is the trace id it draws when there is no valid parent. */
  ghost function Extract(h: Headers, random: string): Context {
    var parent := ValidTraceparent(h.traceparent);
    match parent
    case None => Context(random, None, None, None, SafeBaggage(h.baggage))
    case Some(p) =>
      Context(p.traceId, Some(p.spanId), Some(p.flags), ValidTracestate(h.tracestate), SafeBaggage(h.baggage))
  }

  /** `mcpTraceCarrier`. */
  function Carrier(c: Context): Headers
    requires GoodItems(c.baggage)
  {
    Headers(
      if c.parentSpanId.Some? && c.traceFlags.Some?
      then Some(PrintTraceparent(Parent(c.traceId, c.parentSpanId.value, c.traceFlags.value))) else None,
      c.tracestate,
      PrintBaggage(c.baggage))
  }

  lemma ExtractedBaggageIsGood(h: Headers, random: string)
    ensures GoodItems(Extract(h, random).baggage)
  {
    if h.baggage.Some? {
      ReadItemsAreGood(Split(h.baggage.value, ','));
    }
  }

  /** Without a valid parent the trace starts here: a random trace id, no span, no flags, and no
      tracestate whatever the header says. Only the baggage is read, and only it travels on. */
  lemma WithoutParent(h: Headers, random: string)
    requires h.traceparent.None? || !IsTraceparent(h.traceparent.value)
    ensures var c := Extract(h, random);
            && c.traceId == random && c.parentSpanId == None && c.traceFlags == None && c.tracestate == None
            && (h.baggage.None? ==> c.baggage == map[])
            && (h.baggage.Some? ==> c.baggage == SafeBaggage(h.baggage))
    ensures GoodItems(Extract(h, random).baggage)
    ensures var out := Carrier(Extract(h, random));
            out.traceparent == None && out.tracestate == None && out.baggage == PrintBaggage(SafeBaggage(h.baggage))
  {
    ExtractedBaggageIsGood(h, random);
    if h.traceparent.Some? {
      TraceparentMeans(h.traceparent.value);
    }
    hide IsTraceparent, PrintBaggage, GoodItems;
  }

  /** With one, trace id, span and flags are its parts, the tracestate is read by its grammar, and the
      parent is printed again as it came. */
  lemma WithParent(h: Headers, random: string)
    requires h.traceparent.Some? && IsTraceparent(h.traceparent.value)
    ensures var c, v := Extract(h, random), h.traceparent.value;
            && c.traceId == v[3..35] && c.parentSpanId == Some(v[36..52]) && c.traceFlags == Some(v[53..55])
            && c.tracestate == (if h.tracestate.Some? then Tracestate(h.tracestate.value) else None)
            && (h.baggage.None? ==> c.baggage == map[])
            && (h.baggage.Some? ==> c.baggage == SafeBaggage(h.baggage))
    ensures GoodItems(Extract(h, random).baggage)
    ensures var out := Carrier(Extract(h, random));
            && out.traceparent == h.traceparent && out.tracestate == Extract(h, random).tracestate
            && out.baggage == PrintBaggage(Extract(h, random).baggage)
  {
    ExtractedBaggageIsGood(h, random);
    TraceparentMeans(h.traceparent.value);
    TraceparentRoundTrip(h.traceparent.value, ValidTraceparent(h.traceparent).value);
    hide IsTraceparent, PrintTraceparent, PrintBaggage, GoodItems, ValidParent, Tracestate;
  }

  /** One hop, for all headers: the trace id, parent, flags and tracestate arrive unchanged, and of
      the baggage exactly the surviving entries, with unchanged values. */
  lemma Hop(h: Headers, random: string, random': string)
    ensures GoodItems(Extract(h, random).baggage)
    ensures var c := Extract(h, random);
            Extract(Carrier(c), random') == c.(
              traceId := if c.parentSpanId.Some? then c.traceId else random',
              baggage := Surviving(c.baggage))
  {
    ExtractedBaggageIsGood(h, random);
    var c := Extract(h, random);
    BaggageRoundTrip(c.baggage);
    var parent := ValidTraceparent(h.traceparent);
    if parent.Some? {
      TraceparentRoundTrip(h.traceparent.value, parent.value);
      TraceparentRoundTrip(PrintTraceparent(parent.value), parent.value);
      if c.tracestate.Some? {
        TracestateIsNormal(h.tracestate.value);
      }
    }
    hide SafeBaggage, PrintBaggage, Surviving, Tracestate, GoodItems, ValidParent, PrintTraceparent;
    assert ValidTraceparent(None) == None;
  }

  /** With a valid parent the round trip is exact if and only if every re-encoded baggage value has
      at most 256 characters. */
  lemma RoundTrip(h: Headers, random: string)
    requires ValidTraceparent(h.traceparent).Some?
    ensures GoodItems(Extract(h, random).baggage)
    ensures var c := Extract(h, random);
            Extract(Carrier(c), random) == c <==> forall n :: n in c.baggage ==> Fits(c.baggage[n])
  {
    Hop(h, random, random);
    SurvivesWholeIffFits(Extract(h, random).baggage);
  }

  /** Where it is not exact, entries are dropped, but no value is ever changed; and the second hop
      drops nothing more. */
  lemma NeverADifferentValue(h: Headers, random: string)
    ensures GoodItems(Extract(h, random).baggage)
    ensures var before := Extract(h, random).baggage;
            var after := Extract(Carrier(Extract(h, random)), random).baggage;
            && GoodItems(after)
            && (forall n :: n in after ==> n in before && after[n] == before[n])
            && Extract(Carrier(Extract(Carrier(Extract(h, random)), random)), random).baggage == after
  {
    Hop(h, random, random);
    var c := Extract(h, random);
    SurvivesWholeIffFits(c.baggage);
    Hop(Carrier(c), random, random);
  }

  /** The parent header itself is reproduced character by character. */
  lemma TraceparentIsReproduced(h: Headers, random: string)
    requires ValidTraceparent(h.traceparent).Some?
    ensures GoodItems(Extract(h, random).baggage)
    ensures Carrier(Extract(h, random)).traceparent == h.traceparent
  {
    ExtractedBaggageIsGood(h, random);
    TraceparentRoundTrip(h.traceparent.value, ValidTraceparent(h.traceparent).value);
  }

  function EqualsSigns(n: nat): string {
    if n == 0 then [] else ['='] + EqualsSigns(n - 1)
  }

  /** The loss is real: a correlation id of 86 `=` signs is read, but re-encodes to 258 characters
      and is gone after one hop. */
  lemma LongValueIsLost(h: Headers, random: string)
    requires h.baggage == Some(Text(CorrelationId) + ['='] + EqualsSigns(86))
    ensures GoodItems(Extract(h, random).baggage)
    ensures Extract(h, random).baggage == map[CorrelationId := EqualsSigns(86)]
    ensures Extract(Carrier(Extract(h, random)), random).baggage == map[]
  {
    var v := EqualsSigns(86);
    LongValueIsRead();
    hide EqualsSigns, ReadItems, SafeBaggage, GoodItems, Fits, GoodValue, Surviving;
    assert Extract(h, random).baggage == map[CorrelationId := v];
    NothingSurvives(v);
    Hop(h, random, random);
    assert Extract(Carrier(Extract(h, random)), random).baggage == map[];
  }

  lemma LongValueIsRead()
    ensures var v := EqualsSigns(86);
            && GoodValue(v) && !Fits(v)
            && SafeBaggage(Some(Text(CorrelationId) + ['='] + v)) == map[CorrelationId := v]
  {
    var v := EqualsSigns(86);
    Expand(86);
    LongItemIsRead(v);
    hide EqualsSigns, Encode, ReadItems, Split, Text;
  }

  lemma NothingSurvives(v: string)
    requires GoodValue(v) && !Fits(v)
    ensures Surviving(map[CorrelationId := v]) == map[]
  {
    hide Fits, PrintItems, GoodValue;
    var b: Items := map[CorrelationId := v];
    assert forall n :: n in b ==> n == CorrelationId;
    assert Fitting(b) == map[];
  }

  lemma LongItemIsRead(v: string)
    requires GoodValue(v) && ',' !in v && Decode(v) == Some(v)
    ensures var item := Text(CorrelationId) + ['='] + v;
            |item| <= 271 && Split(item, ',') == [item] && ReadItems([item]) == map[CorrelationId := v]
  {
    ReadRawItem(CorrelationId, v);
    assert |Text(CorrelationId)| == 14;
    var item := Text(CorrelationId) + ['='] + v;
    assert ReadItem(item) == Some((CorrelationId, v)) && |item| <= 271;
    hide Text, ReadItem, Decode, GoodValue;
    SplitLeading(item, [], ',');
    OneItem(item);
  }

  lemma OneItem(item: string)
    ensures ReadItems([item]) == AddItem(map[], item)
  {
    hide AddItem;
    assert [item][..0] + [item] == [item];
    NoItems();
  }

  lemma {:induction false} Expand(n: nat)
    ensures var v := EqualsSigns(n);
            |v| == n && All(v, Octet) && ',' !in v && |Encode(v)| == 3 * n && Decode(v) == Some(v)
  {
    if n > 0 {
      Expand(n - 1);
      assert EqualsSigns(n)[1..] == EqualsSigns(n - 1);
    }
  }
}
