/** The streaming rewriter of `text/event-stream` responses.

    Text is a sequence of UTF-16 code units, because the bounds, the line search and the
    surrogate test of the program all work on code units. The rewriter is fed by arbitrary
    chunks; `Rewritten` is what it must produce, stated without any buffering. */
module SseStream {
  import opened Sequences

  type CodeUnit = u: int | 0 <= u < 0x1_0000
  type Text = seq<CodeUnit>

  const NEWLINE: CodeUnit := 10
  const SPACE: CodeUnit := 32
  const DATA_FIELD: Text := [100, 97, 116, 97, 58]   // `data:`

  // ---------------------------------------------------------------- the per-line map

  /** A complete line of at most the limit: only a data field is touched (WHATWG HTML, section 9.2). */
  function WriteLine(line: Text, sanitize: Text -> Text): Text {
    if DATA_FIELD <= line then
      var start := if |line| > 5 && line[5] == SPACE then 6 else 5;
      DATA_FIELD + [SPACE] + sanitize(line[start..])
    else line
  }

  function RewriteLine(line: Text, maxLine: nat, sanitize: Text -> Text): Text {
    if |line| > maxLine then line else WriteLine(line, sanitize)
  }

  function RewriteLines(lines: seq<Text>, maxLine: nat, sanitize: Text -> Text): (r: seq<Text>)
    ensures |r| == |lines|
  {
    seq(|lines|, i requires 0 <= i < |lines| => RewriteLine(lines[i], maxLine, sanitize))
  }

  /** The whole stream: split at line feeds, rewrite each line, put the line feeds back. */
  function Rewritten(text: Text, maxLine: nat, sanitize: Text -> Text): Text {
    Intercalate(RewriteLines(Split(text, NEWLINE), maxLine, sanitize), NEWLINE)
  }

  /** What must come out for one line: a data field within the limit as `data: ` and its sanitized
      value, of which one leading space is not part; any other line as it is. */
  ghost predicate LineBecomes(line: Text, out: Text, maxLine: nat, sanitize: Text -> Text) {
    && (|line| > maxLine || !(DATA_FIELD <= line) ==> out == line)
    && (forall value: Text :: |line| <= maxLine && line == DATA_FIELD + [SPACE] + value ==>
                                out == DATA_FIELD + [SPACE] + sanitize(value))
    && (forall value: Text :: |line| <= maxLine && line == DATA_FIELD + value && !([SPACE] <= value) ==>
                                out == DATA_FIELD + [SPACE] + sanitize(value))
  }

  /** `out` is the text with each of its lines replaced by what it must become, line ends kept. */
  ghost predicate LineByLine(text: Text, out: Text, maxLine: nat, sanitize: Text -> Text) {
    var lines := Split(text, NEWLINE);
    exists outs: seq<Text> ::
      && |outs| == |lines| && out == Intercalate(outs, NEWLINE)
      && forall i :: 0 <= i < |lines| ==> LineBecomes(lines[i], outs[i], maxLine, sanitize)
  }

  lemma RewrittenLine(line: Text, maxLine: nat, sanitize: Text -> Text)
    ensures LineBecomes(line, RewriteLine(line, maxLine, sanitize), maxLine, sanitize)
  {
    var out := RewriteLine(line, maxLine, sanitize);
    forall value: Text | |line| <= maxLine && line == DATA_FIELD + [SPACE] + value
      ensures out == DATA_FIELD + [SPACE] + sanitize(value)
    {
      assert line[6..] == value;
    }
    forall value: Text | |line| <= maxLine && line == DATA_FIELD + value && !([SPACE] <= value)
      ensures out == DATA_FIELD + [SPACE] + sanitize(value)
    {
      assert line[5..] == value;
      assert |line| > 5 ==> line[5] == value[0];
    }
  }

  /** Every data field within the limit is sanitized, and nothing else is touched. */
  lemma RewrittenIsLineByLine(text: Text, maxLine: nat, sanitize: Text -> Text)
    ensures LineByLine(text, Rewritten(text, maxLine, sanitize), maxLine, sanitize)
  {
    var lines := Split(text, NEWLINE);
    var outs := RewriteLines(lines, maxLine, sanitize);
    forall i | 0 <= i < |lines| ensures LineBecomes(lines[i], outs[i], maxLine, sanitize) {
      RewrittenLine(lines[i], maxLine, sanitize);
    }
  }

  /** A line becomes exactly one text, so a whole text does too: the meaning determines the rewriter. */
  lemma LineByLineIsUnique(text: Text, a: Text, b: Text, maxLine: nat, sanitize: Text -> Text)
    requires LineByLine(text, a, maxLine, sanitize) && LineByLine(text, b, maxLine, sanitize)
    ensures a == b
  {
    var lines := Split(text, NEWLINE);
    var xs: seq<Text> :| |xs| == |lines| && a == Intercalate(xs, NEWLINE)
      && forall i :: 0 <= i < |lines| ==> LineBecomes(lines[i], xs[i], maxLine, sanitize);
    var ys: seq<Text> :| |ys| == |lines| && b == Intercalate(ys, NEWLINE)
      && forall i :: 0 <= i < |lines| ==> LineBecomes(lines[i], ys[i], maxLine, sanitize);
    forall i | 0 <= i < |lines| ensures xs[i] == ys[i] {
      BecomesOne(lines[i], xs[i], ys[i], maxLine, sanitize);
    }
    assert xs == ys;
  }

  lemma BecomesOne(line: Text, x: Text, y: Text, maxLine: nat, sanitize: Text -> Text)
    requires LineBecomes(line, x, maxLine, sanitize) && LineBecomes(line, y, maxLine, sanitize)
    ensures x == y
  {
    if |line| <= maxLine && DATA_FIELD <= line {
      var value := line[5..];
      assert line == DATA_FIELD + value;
      if [SPACE] <= value {
        var rest := value[1..];
        assert value == [SPACE] + rest;
        assert line == DATA_FIELD + [SPACE] + rest;
        assert x == DATA_FIELD + [SPACE] + sanitize(rest) && y == DATA_FIELD + [SPACE] + sanitize(rest);
      } else {
        assert x == DATA_FIELD + [SPACE] + sanitize(value) && y == DATA_FIELD + [SPACE] + sanitize(value);
      }
    }
  }

  lemma RewriteLinesSnoc(lines: seq<Text>, line: Text, maxLine: nat, sanitize: Text -> Text)
    ensures RewriteLines(lines + [line], maxLine, sanitize)
         == RewriteLines(lines, maxLine, sanitize) + [RewriteLine(line, maxLine, sanitize)]
  {
  }

  /** A sanitizer that never introduces a line feed leaves the line structure alone. */
  lemma LinesAreKept(text: Text, maxLine: nat, sanitize: Text -> Text)
    requires forall d: Text :: NEWLINE !in d ==> NEWLINE !in sanitize(d)
    ensures Split(Rewritten(text, maxLine, sanitize), NEWLINE)
         == RewriteLines(Split(text, NEWLINE), maxLine, sanitize)
  {
    SplitPartsAreFree(text, NEWLINE);
    var lines := Split(text, NEWLINE);
    var out := RewriteLines(lines, maxLine, sanitize);
    forall i | 0 <= i < |out| ensures NEWLINE !in out[i] {
      assert NEWLINE !in lines[i];
      var start := if |lines[i]| > 5 && lines[i][5] == SPACE then 6 else 5;
      if DATA_FIELD <= lines[i] {
        assert NEWLINE !in lines[i][start..];
      }
    }
    SplitOfJoin(out, NEWLINE);
  }

  /** Rewriting an already rewritten stream changes nothing, when sanitizing twice is sanitizing once. */
  lemma RewriteIsIdempotent(text: Text, maxLine: nat, sanitize: Text -> Text)
    requires forall d: Text :: NEWLINE !in d ==> NEWLINE !in sanitize(d)
    requires forall d: Text :: sanitize(sanitize(d)) == sanitize(d)
    ensures Rewritten(Rewritten(text, maxLine, sanitize), maxLine, sanitize) == Rewritten(text, maxLine, sanitize)
  {
    LinesAreKept(text, maxLine, sanitize);
    var once := RewriteLines(Split(text, NEWLINE), maxLine, sanitize);
    var twice := RewriteLines(once, maxLine, sanitize);
    forall i | 0 <= i < |once| ensures twice[i] == once[i] {
      RewriteLineTwice(Split(text, NEWLINE)[i], maxLine, sanitize);
    }
    assert twice == once;
  }

  lemma RewriteLineTwice(line: Text, maxLine: nat, sanitize: Text -> Text)
    requires forall d: Text :: sanitize(sanitize(d)) == sanitize(d)
    ensures RewriteLine(RewriteLine(line, maxLine, sanitize), maxLine, sanitize)
         == RewriteLine(line, maxLine, sanitize)
  {
    if |line| <= maxLine && DATA_FIELD <= line {
      var start := if |line| > 5 && line[5] == SPACE then 6 else 5;
      var data := sanitize(line[start..]);
      var once := DATA_FIELD + [SPACE] + data;
      assert once[6..] == data;
      assert sanitize(data) == data;
    }
  }

  // ---------------------------------------------------------------- encoding the pieces

  predicate High(u: CodeUnit) { 0xD800 <= u <= 0xDBFF }
  predicate Low(u: CodeUnit) { 0xDC00 <= u <= 0xDFFF }

  /** The scalar values `TextEncoder` encodes: a pair is one scalar, a lone surrogate is U+FFFD. */
  function Scalars(t: Text): seq<int> {
    if t == [] then [] else [FirstScalar(t)] + Scalars(t[FirstLength(t)..])
  }

  function FirstLength(t: Text): (n: nat)
    requires t != []
    ensures 1 <= n <= |t|
  {
    if StartsPair(t) then 2 else 1
  }

  function FirstScalar(t: Text): int
    requires t != []
  {
    if StartsPair(t) then Combine(t[0], t[1]) else if High(t[0]) || Low(t[0]) then 0xFFFD else t[0]
  }

  predicate StartsPair(t: Text) { |t| > 1 && High(t[0]) && Low(t[1]) }

  function Combine(high: CodeUnit, low: CodeUnit): int {
    0x1_0000 + (high - 0xD800) * 0x400 + (low - 0xDC00)
  }

  /** The UTF-16 code units of one scalar value, and of many. */
  function UnitsOfOne(scalar: int): seq<int> {
    if scalar < 0x1_0000 then [scalar]
    else [0xD800 + (scalar - 0x1_0000) / 0x400, 0xDC00 + (scalar - 0x1_0000) % 0x400]
  }

  function Units(scalars: seq<int>): seq<int> {
    if scalars == [] then [] else UnitsOfOne(scalars[0]) + Units(scalars[1..])
  }

  /** A surrogate without its partner. */
  predicate Lone(t: Text, i: nat)
    requires i < |t|
  {
    || (0xD800 <= t[i] < 0xDC00 && !(i + 1 < |t| && 0xDC00 <= t[i + 1] < 0xE000))
    || (0xDC00 <= t[i] < 0xE000 && !(i > 0 && 0xD800 <= t[i - 1] < 0xDC00))
  }

  /** The text as it arrives: lone surrogates replaced by U+FFFD. */
  function Repaired(t: Text): seq<int> {
    seq(|t|, i requires 0 <= i < |t| => if Lone(t, i) then 0xFFFD else t[i])
  }

  /** The scalar values that are encoded stand for exactly that text. */
  lemma {:induction false} ScalarsStandForText(t: Text)
    ensures Units(Scalars(t)) == Repaired(t)
  {
    if t != [] {
      var n := FirstLength(t);
      ScalarsStandForText(t[n..]);
      FirstUnits(t);
      RepairedRest(t);
      hide FirstLength, FirstScalar, UnitsOfOne, Repaired;
      assert Scalars(t)[0] == FirstScalar(t) && Scalars(t)[1..] == Scalars(t[n..]);
      assert Units(Scalars(t)) == Repaired(t);
    }
  }

  lemma FirstUnits(t: Text)
    requires t != []
    ensures UnitsOfOne(FirstScalar(t)) == Repaired(t)[..FirstLength(t)]
  {
    var units := UnitsOfOne(FirstScalar(t));
    if StartsPair(t) {
      CombineUnits(t[0], t[1]);
      assert !Lone(t, 0) && !Lone(t, 1);
    }
    hide Combine;
    assert units == Repaired(t)[..FirstLength(t)];
  }

  lemma CombineUnits(high: CodeUnit, low: CodeUnit)
    requires High(high) && Low(low)
    ensures UnitsOfOne(Combine(high, low)) == [high, low]
  {
  }

  lemma RepairedRest(t: Text)
    requires t != []
    ensures Repaired(t) == Repaired(t)[..FirstLength(t)] + Repaired(t[FirstLength(t)..])
  {
    var n := FirstLength(t);
    forall i | n <= i < |t| ensures Lone(t, i) <==> Lone(t[n..], i - n) {
    }
  }

  /** Cutting between `a` and `b` separates a high surrogate from its low one. */
  predicate CutsPair(a: Text, b: Text) {
    a != [] && b != [] && High(a[|a| - 1]) && Low(b[0])
  }

  /** Encoding in two pieces equals encoding at once exactly as far as no pair is cut. */
  lemma {:induction false} ScalarsOfPieces(a: Text, b: Text)
    requires !CutsPair(a, b)
    ensures Scalars(a + b) == Scalars(a) + Scalars(b)
    decreases |a|
  {
    hide CutsPair, StartsPair, FirstLength, FirstScalar;
    if a == [] {
      assert a + b == b;
    } else {
      var n := FirstLength(a);
      FirstIsKept(a, b);
      ScalarsOfPieces(a[n..], b);
    }
  }

  lemma FirstIsKept(a: Text, b: Text)
    requires a != [] && !CutsPair(a, b)
    ensures FirstLength(a + b) == FirstLength(a) && FirstScalar(a + b) == FirstScalar(a)
    ensures (a + b)[FirstLength(a)..] == a[FirstLength(a)..] + b && !CutsPair(a[FirstLength(a)..], b)
  {
    assert StartsPair(a + b) <==> StartsPair(a);
  }

  function EncodedPieces(pieces: seq<Text>): seq<int> {
    if pieces == [] then [] else EncodedPieces(pieces[..|pieces| - 1]) + Scalars(pieces[|pieces| - 1])
  }

  lemma EncodeOneMore(pieces: seq<Text>, piece: Text)
    requires EncodedPieces(pieces) == Scalars(Flatten(pieces))
    requires !CutsPair(Flatten(pieces), piece)
    ensures EncodedPieces(pieces + [piece]) == Scalars(Flatten(pieces + [piece]))
  {
    FlattenSnoc(pieces, piece);
    ScalarsOfPieces(Flatten(pieces), piece);
    assert (pieces + [piece])[..|pieces|] == pieces;
  }

  /** Joining the encoded pieces equals encoding the joined text. */
  ghost predicate EncodesWhole(pieces: seq<Text>) {
    EncodedPieces(pieces) == Scalars(Flatten(pieces))
  }

  // ---------------------------------------------------------------- what is out after a prefix

  /** The unterminated rest of the text received so far. */
  function TailOf(fed: Text): Text {
    var lines := Split(fed, NEWLINE);
    lines[|lines| - 1]
  }

  /** What must have been emitted after `fed`: all terminated lines, and a tail already too long to buffer. */
  function EmittedFor(fed: Text, maxLine: nat, sanitize: Text -> Text): Text {
    var lines := Split(fed, NEWLINE);
    var tail := lines[|lines| - 1];
    var done := RewriteLines(lines[..|lines| - 1], maxLine, sanitize);
    Intercalate(done + [if |tail| > maxLine then tail else []], NEWLINE)
  }

  /** What a fragment without line feed, followed by a line feed if `ended`, adds to it. */
  function Delta(tail: Text, fragment: Text, ended: bool, maxLine: nat, sanitize: Text -> Text): Text {
    if |tail| > maxLine then fragment + LineFeed(ended)
    else if ended then RewriteLine(tail + fragment, maxLine, sanitize) + [NEWLINE]
    else if |tail + fragment| > maxLine then tail + fragment
    else []
  }

  function LineFeed(ended: bool): Text { if ended then [NEWLINE] else [] }

  lemma SplitGrows(fed: Text, fragment: Text)
    requires NEWLINE !in fragment
    ensures var lines := Split(fed, NEWLINE);
            var grown := lines[..|lines| - 1] + [lines[|lines| - 1] + fragment];
            && Split(fed + fragment, NEWLINE) == grown
            && Split(fed + fragment + [NEWLINE], NEWLINE) == grown + [[]]
  {
    SplitPartsAreFree(fed, NEWLINE);
    JoinOfSplit(fed, NEWLINE);
    var lines := Split(fed, NEWLINE);
    var init, tail := lines[..|lines| - 1], lines[|lines| - 1];
    assert lines == init + [tail];
    JoinExtendLast(init, tail, fragment, NEWLINE);
    JoinOpenPart(init + [tail + fragment], NEWLINE);
    SplitOfJoin(init + [tail + fragment], NEWLINE);
    SplitOfJoin(init + [tail + fragment] + [[]], NEWLINE);
  }

  lemma AppendToOpen(parts: seq<Text>, last: Text)
    ensures Intercalate(parts + [last], NEWLINE) == Intercalate(parts + [[]], NEWLINE) + last
  {
    JoinExtendLast(parts, [], last, NEWLINE);
    assert [] + last == last;
  }

  lemma JoinOfNone(parts: seq<Text>)
    requires parts == []
    ensures Intercalate(parts + [[]], NEWLINE) == []
  {
  }

  lemma EmitFragment(fed: Text, fragment: Text, maxLine: nat, sanitize: Text -> Text)
    requires NEWLINE !in fragment
    ensures TailOf(fed + fragment) == TailOf(fed) + fragment
    ensures EmittedFor(fed + fragment, maxLine, sanitize)
         == EmittedFor(fed, maxLine, sanitize) + Delta(TailOf(fed), fragment, false, maxLine, sanitize)
  {
    SplitGrows(fed, fragment);
    var lines := Split(fed, NEWLINE);
    var init, tail := lines[..|lines| - 1], lines[|lines| - 1];
    var out := RewriteLines(init, maxLine, sanitize);
    hide RewriteLines, Split, Intercalate;
    assert (init + [tail + fragment])[..|init|] == init;
    JoinExtendLast(out, tail, fragment, NEWLINE);
    AppendToOpen(out, tail + fragment);
    assert EmittedFor(fed + fragment, maxLine, sanitize)
        == EmittedFor(fed, maxLine, sanitize) + Delta(tail, fragment, false, maxLine, sanitize);
  }

  lemma EmitLine(fed: Text, fragment: Text, maxLine: nat, sanitize: Text -> Text)
    requires NEWLINE !in fragment
    ensures TailOf(fed + fragment + [NEWLINE]) == []
    ensures EmittedFor(fed + fragment + [NEWLINE], maxLine, sanitize)
         == EmittedFor(fed, maxLine, sanitize) + Delta(TailOf(fed), fragment, true, maxLine, sanitize)
  {
    hide RewriteLines, Split, Intercalate;
    SplitGrows(fed, fragment);
    var lines := Split(fed, NEWLINE);
    var init, tail := lines[..|lines| - 1], lines[|lines| - 1];
    var out := RewriteLines(init, maxLine, sanitize);
    var done := RewriteLine(tail + fragment, maxLine, sanitize);
    assert (init + [tail + fragment] + [[]])[..|init| + 1] == init + [tail + fragment];
    RewriteLinesSnoc(init, tail + fragment, maxLine, sanitize);
    JoinOpenPart(out + [done], NEWLINE);
    JoinExtendLast(out, tail, fragment, NEWLINE);
    AppendToOpen(out, done);
  }

  /** Both cases at once: a fragment, with its line feed if `ended`. */
  lemma EmitStep(fed: Text, fragment: Text, ended: bool, maxLine: nat, sanitize: Text -> Text)
    requires NEWLINE !in fragment
    ensures var piece := fragment + LineFeed(ended);
            && TailOf(fed + piece) == (if ended then [] else TailOf(fed) + fragment)
            && EmittedFor(fed + piece, maxLine, sanitize)
                 == EmittedFor(fed, maxLine, sanitize) + Delta(TailOf(fed), fragment, ended, maxLine, sanitize)
  {
    EmitFragment(fed, fragment, maxLine, sanitize);
    EmitLine(fed, fragment, maxLine, sanitize);
    assert fed + (fragment + [NEWLINE]) == fed + fragment + [NEWLINE];
    assert fragment + [] == fragment;
  }

  /** What has been emitted ends in a line feed, or ends where the received text ends. */
  lemma EmittedEnd(fed: Text, maxLine: nat, sanitize: Text -> Text)
    ensures var out := EmittedFor(fed, maxLine, sanitize);
            if |TailOf(fed)| > maxLine
            then out != [] && fed != [] && out[|out| - 1] == fed[|fed| - 1]
            else out == [] || out[|out| - 1] == NEWLINE
  {
    hide RewriteLines, Split, Intercalate;
    var lines := Split(fed, NEWLINE);
    var init, tail := lines[..|lines| - 1], lines[|lines| - 1];
    var out := RewriteLines(init, maxLine, sanitize);
    JoinOfSplit(fed, NEWLINE);
    assert lines == init + [tail];
    AppendToOpen(init, tail);
    AppendToOpen(out, tail);
    if init == [] {
      JoinOfNone(out);
    } else {
      JoinOpenPart(out, NEWLINE);
    }
    var open := Intercalate(out + [[]], NEWLINE);
    assert open == [] || open[|open| - 1] == NEWLINE;
    assert EmittedFor(fed, maxLine, sanitize) == if |tail| > maxLine then open + tail else open;
    assert fed == Intercalate(init + [[]], NEWLINE) + tail;
  }

  /** At the end of the stream the buffered tail, as an unterminated line, completes the per-line map. */
  lemma EmitLast(fed: Text, maxLine: nat, sanitize: Text -> Text)
    ensures Rewritten(fed, maxLine, sanitize) == EmittedFor(fed, maxLine, sanitize)
          + if |TailOf(fed)| > maxLine then [] else WriteLine(TailOf(fed), sanitize)
  {
    var lines := Split(fed, NEWLINE);
    var init, tail := lines[..|lines| - 1], lines[|lines| - 1];
    assert lines == init + [tail];
    RewriteLinesSnoc(init, tail, maxLine, sanitize);
    AppendToOpen(RewriteLines(init, maxLine, sanitize), RewriteLine(tail, maxLine, sanitize));
  }

  /** Neither starts nor ends inside a pair, as every text a streaming UTF-8 decoder returns. */
  predicate PairsAreWhole(t: Text) {
    t == [] || (!Low(t[0]) && !High(t[|t| - 1]))
  }

  predicate AllWhole(chunks: seq<Text>) {
    forall i :: 0 <= i < |chunks| ==> PairsAreWhole(chunks[i])
  }

  lemma WholeMeetsWhole(fed: Text, chunks: seq<Text>, i: nat)
    requires PairsAreWhole(fed) && AllWhole(chunks) && i < |chunks|
    ensures !CutsPair(fed, chunks[i]) && PairsAreWhole(fed + chunks[i])
  {
    assert PairsAreWhole(chunks[i]);
  }

  lemma FlattenNone(fed: Text)
    ensures fed + Flatten([]) == fed
  {
  }

  // ---------------------------------------------------------------- the stateful rewriter

  /** `decoded.indexOf('\n', offset)`, with the length standing for "not found". */
  method IndexOfNewline(t: Text, offset: nat) returns (i: nat)
    requires offset <= |t|
    ensures offset <= i <= |t|
    ensures NEWLINE !in t[offset..i]
    ensures i < |t| ==> t[i] == NEWLINE
  {
    i := offset;
    while i < |t| && t[i] != NEWLINE
      invariant offset <= i <= |t|
      invariant NEWLINE !in t[offset..i]
    {
      i := i + 1;
    }
  }

  class SseRewriter {
    const maxLine: nat
    const sliceSize: nat
    const sanitize: Text -> Text

    var buffered: Text
    var passingThroughLine: bool
    var pieces: seq<Text>            // what was enqueued on the controller, oldest first

    ghost var fed: Text              // all decoded text received
    ghost var aligned: bool          // no chunk boundary so far cut a surrogate pair
    ghost var peak: nat              // the largest `buffered` has ever been

    ghost predicate Valid()
      reads this
    {
      && sliceSize > 1
      && (passingThroughLine <==> |TailOf(fed)| > maxLine)
      && buffered == (if passingThroughLine then [] else TailOf(fed))
      && Flatten(pieces) == EmittedFor(fed, maxLine, sanitize)
      && (aligned ==> EncodesWhole(pieces))
    }

    constructor (maxLine: nat, sliceSize: nat, sanitize: Text -> Text)
      requires sliceSize > 1
      ensures Valid() && fed == [] && pieces == [] && aligned && peak == 0
      ensures this.maxLine == maxLine && this.sliceSize == sliceSize && this.sanitize == sanitize
    {
      this.maxLine, this.sliceSize, this.sanitize := maxLine, sliceSize, sanitize;
      buffered, passingThroughLine, pieces := [], false, [];
      fed, aligned, peak := [], true, 0;
    }

    method Enqueue(piece: Text)
      requires aligned ==> EncodesWhole(pieces) && !CutsPair(Flatten(pieces), piece)
      modifies this`pieces
      ensures Flatten(pieces) == old(Flatten(pieces)) + piece
      ensures aligned ==> EncodesWhole(pieces)
    {
      hide Scalars, Flatten;
      FlattenSnoc(pieces, piece);
      if aligned {
        EncodeOneMore(pieces, piece);
      }
      pieces := pieces + [piece];
    }

    /** `writeLine`: `newline` is a line feed, or empty for the last line of the stream. */
    method EnqueueLine(line: Text, newline: Text)
      requires aligned ==> EncodesWhole(pieces)
      requires aligned ==> Flatten(pieces) == [] || Flatten(pieces)[|Flatten(pieces)| - 1] == NEWLINE
      modifies this`pieces
      ensures Flatten(pieces) == old(Flatten(pieces)) + (WriteLine(line, sanitize) + newline)
      ensures LineBecomes(line, WriteLine(line, sanitize), |line|, sanitize)
      ensures aligned ==> EncodesWhole(pieces)
    {
      RewrittenLine(line, |line|, sanitize);
      assert LineBecomes(line, WriteLine(line, sanitize), |line|, sanitize);
      hide LineBecomes;
      if DATA_FIELD <= line {
        var start := if |line| > 5 && line[5] == SPACE then 6 else 5;
        var data := sanitize(line[start..]);
        Enqueue(DATA_FIELD + [SPACE] + data + newline);
        return;
      }
      Enqueue(line + newline);
    }

    /** The pass-through branch of `writeDecoded`: `piece` is a fragment and, if `ended`, its line feed. */
    method PassThrough(piece: Text, ended: bool, ghost fragment: Text)
      requires Valid() && passingThroughLine
      requires NEWLINE !in fragment && piece == fragment + LineFeed(ended)
      requires aligned ==> !CutsPair(fed, piece)
      modifies this`pieces, this`passingThroughLine, this`buffered, this`fed
      ensures Valid() && fed == old(fed) + piece
      ensures ended ==> fed != [] && fed[|fed| - 1] == NEWLINE
    {
      hide EmittedFor, TailOf, EncodesWhole, Flatten;
      EmittedEnd(fed, maxLine, sanitize);
      EmitStep(fed, fragment, ended, maxLine, sanitize);
      Enqueue(piece);
      if ended {
        passingThroughLine := false;
      }
      fed := fed + piece;
    }

    /** The buffering branch of `writeDecoded`. */
    method Accumulate(fragment: Text, ended: bool)
      requires Valid() && !passingThroughLine
      requires NEWLINE !in fragment
      modifies this`pieces, this`buffered, this`passingThroughLine, this`fed, this`peak
      ensures Valid() && fed == old(fed) + (fragment + LineFeed(ended))
      ensures ended ==> fed != [] && fed[|fed| - 1] == NEWLINE
      ensures peak <= old(peak) || peak <= maxLine + |fragment|
    {
      hide EmittedFor, TailOf, EncodesWhole, Flatten;
      EmittedEnd(fed, maxLine, sanitize);
      EmitStep(fed, fragment, ended, maxLine, sanitize);
      buffered := buffered + fragment;
      peak := if |buffered| > peak then |buffered| else peak;
      if |buffered| > maxLine {
        Enqueue(buffered);
        buffered := [];
        if ended {
          Enqueue([NEWLINE]);
        } else {
          passingThroughLine := true;
        }
      } else if ended {
        EnqueueLine(buffered, [NEWLINE]);
        buffered := [];
      }
      fed := fed + (fragment + LineFeed(ended));
    }

    /** Records whether the boundary before `decoded` cuts a pair. */
    ghost method Announce(decoded: Text)
      requires Valid()
      modifies this`aligned
      ensures Valid() && (aligned <==> old(aligned) && !CutsPair(fed, decoded))
    {
      hide EmittedFor, TailOf, EncodesWhole, Flatten;
      aligned := aligned && !CutsPair(fed, decoded);
    }

    /** The body of the loop of `writeDecoded`, for a fragment and, if `ended`, its line feed. */
    method WriteFragment(fragment: Text, ended: bool)
      requires Valid() && NEWLINE !in fragment
      requires aligned ==> !CutsPair(fed, fragment + LineFeed(ended))
      modifies this`pieces, this`buffered, this`passingThroughLine, this`fed, this`peak
      ensures Valid() && fed == old(fed) + (fragment + LineFeed(ended))
      ensures ended ==> fed != [] && fed[|fed| - 1] == NEWLINE
      ensures peak <= old(peak) || peak <= maxLine + |fragment|
    {
      hide Valid, LineFeed, CutsPair;
      if passingThroughLine {
        PassThrough(fragment + LineFeed(ended), ended, fragment);
      } else {
        Accumulate(fragment, ended);
      }
    }

    /** `writeDecoded`: one pass over a slice of decoded text. */
    method WriteDecoded(decoded: Text)
      requires Valid()
      modifies this
      ensures Valid() && fed == old(fed) + decoded
      ensures aligned <==> old(aligned) && !CutsPair(old(fed), decoded)
      ensures peak <= old(peak) || peak <= maxLine + |decoded|
    {
      hide Valid, EmittedFor, TailOf, EncodesWhole, Flatten, CutsPair, LineFeed;
      var offset := 0;
      Announce(decoded);
      while offset < |decoded|
        invariant 0 <= offset <= |decoded|
        invariant Valid() && fed == old(fed) + decoded[..offset]
        invariant aligned <==> old(aligned) && !CutsPair(old(fed), decoded)
        invariant aligned ==> !CutsPair(fed, decoded[offset..])
        invariant peak <= old(peak) || peak <= maxLine + |decoded|
      {
        var newline := IndexOfNewline(decoded, offset);
        NextLine(fed, decoded, offset, newline);
        if newline == |decoded| {
          WriteFragment(decoded[offset..newline], false);
          return;
        }
        WriteFragment(decoded[offset..newline], true);
        offset := newline + 1;
        NoCutAfterNewline(fed, decoded[offset..]);
      }
    }

    /** One slice of `transform`, never ending inside a surrogate pair. */
    method TransformSlice(decoded: Text, offset: nat) returns (end: nat)
      requires Valid() && offset < |decoded|
      modifies this
      ensures Valid() && offset < end <= |decoded|
      ensures fed == old(fed) + decoded[offset..end] && !CutsPair(fed, decoded[end..])
      ensures aligned <==> old(aligned) && !CutsPair(old(fed), decoded[offset..])
      ensures peak <= old(peak) || peak <= maxLine + sliceSize
    {
      StateIsBounded();
      hide Valid, CutsPair, High, Low;
      end := SliceEnd(decoded, offset);
      NextSlice(fed, decoded, offset, end);
      WriteDecoded(decoded[offset..end]);
    }

    /** `transform`: a decoded chunk is cut into slices. */
    method Transform(decoded: Text)
      requires Valid()
      modifies this
      ensures Valid() && fed == old(fed) + decoded
      ensures aligned <==> old(aligned) && !CutsPair(old(fed), decoded)
      ensures |buffered| <= maxLine && (peak <= old(peak) || peak <= maxLine + sliceSize)
    {
      StateIsBounded();
      hide Valid, CutsPair, High, Low;
      ghost var start := fed;
      SlicesMeet(start, decoded, 0, 0);
      var offset := 0;
      while offset < |decoded|
        invariant 0 <= offset <= |decoded|
        invariant Valid() && fed == start + decoded[..offset]
        invariant aligned <==> old(aligned) && (offset == 0 || !CutsPair(start, decoded))
        invariant offset > 0 ==> !CutsPair(fed, decoded[offset..])
        invariant peak <= old(peak) || peak <= maxLine + sliceSize
      {
        SlicesMeet(start, decoded, offset, offset);
        var end := TransformSlice(decoded, offset);
        SlicesMeet(start, decoded, offset, end);
        offset := end;
      }
      StateIsBounded();
    }

    /** Where the slice from `offset` ends: one unit earlier if it would cut a pair. */
    method SliceEnd(decoded: Text, offset: nat) returns (end: nat)
      requires sliceSize > 1 && offset < |decoded|
      ensures offset < end <= |decoded| && end - offset <= sliceSize
      ensures end < |decoded| ==> !(High(decoded[end - 1]) && Low(decoded[end]))
      ensures end == |decoded| || end - offset >= sliceSize - 1
    {
      end := if offset + sliceSize < |decoded| then offset + sliceSize else |decoded|;
      if end < |decoded| && High(decoded[end - 1]) && Low(decoded[end]) {
        end := end - 1;
      }
    }

    lemma StateIsBounded()
      requires Valid()
      ensures sliceSize > 1 && |buffered| <= maxLine && !CutsPair(fed, [])
    {
    }

    /** One chunk after the other. */
    method TransformAll(chunks: seq<Text>)
      requires Valid()
      modifies this
      ensures Valid() && fed == old(fed) + Flatten(chunks)
      ensures old(aligned) && PairsAreWhole(old(fed)) && AllWhole(chunks) ==> aligned && PairsAreWhole(fed)
      ensures peak <= old(peak) || peak <= maxLine + sliceSize
    {
      hide Valid, EmittedFor, TailOf, EncodesWhole, Flatten, PairsAreWhole, CutsPair, AllWhole;
      FlattenNone(fed);
      for i := 0 to |chunks|
        invariant Valid() && fed == old(fed) + Flatten(chunks[..i])
        invariant old(aligned) && PairsAreWhole(old(fed)) && AllWhole(chunks) ==> aligned && PairsAreWhole(fed)
        invariant peak <= old(peak) || peak <= maxLine + sliceSize
      {
        assert chunks[..i + 1] == chunks[..i] + [chunks[i]];
        FlattenSnoc(chunks[..i], chunks[i]);
        if AllWhole(chunks) && PairsAreWhole(fed) {
          WholeMeetsWhole(fed, chunks, i);
        }
        Transform(chunks[i]);
      }
      assert chunks[..|chunks|] == chunks;
    }

    /** `flush`: the decoder's last text, then the unterminated last line. */
    method Flush(decoded: Text)
      requires Valid()
      modifies this
      ensures fed == old(fed) + decoded
      ensures Flatten(pieces) == Rewritten(fed, maxLine, sanitize)
      ensures old(aligned) && !CutsPair(old(fed), decoded) ==> EncodesWhole(pieces)
      ensures peak <= old(peak) || peak <= maxLine + |decoded|
    {
      hide Valid, EncodesWhole, Flatten, Rewritten, WriteLine;
      WriteDecoded(decoded);
      AtTheEnd();
      if buffered != [] {
        EnqueueLine(buffered, []);
      }
    }

    lemma AtTheEnd()
      requires Valid()
      ensures Rewritten(fed, maxLine, sanitize)
           == Flatten(pieces) + if buffered == [] then [] else WriteLine(buffered, sanitize) + []
      ensures buffered != [] ==> Flatten(pieces) == [] || Flatten(pieces)[|Flatten(pieces)| - 1] == NEWLINE
      ensures aligned ==> EncodesWhole(pieces)
    {
      EmitLast(fed, maxLine, sanitize);
      EmittedEnd(fed, maxLine, sanitize);
      hide EmittedFor, TailOf, EncodesWhole, Flatten, Rewritten;
    }
  }

  /** The transform stream over its whole life: every chunk in turn, then the flush. */
  method RewriteStream(chunks: seq<Text>, last: Text, maxLine: nat, sliceSize: nat, sanitize: Text -> Text)
    returns (pieces: seq<Text>, ghost peak: nat)
    requires sliceSize > 1
    ensures LineByLine(Flatten(chunks) + last, Flatten(pieces), maxLine, sanitize)
    ensures Flatten(pieces) == Rewritten(Flatten(chunks) + last, maxLine, sanitize)
    ensures AllWhole(chunks) && PairsAreWhole(last) ==> EncodedPieces(pieces) == Scalars(Flatten(pieces))
    ensures peak <= maxLine + if |last| > sliceSize then |last| else sliceSize
  {
    hide EmittedFor, TailOf, Flatten, Rewritten, Scalars, EncodedPieces, AllWhole, SseRewriter.Valid;
    var rewriter := new SseRewriter(maxLine, sliceSize, sanitize);
    rewriter.TransformAll(chunks);
    assert [] + Flatten(chunks) == Flatten(chunks);
    rewriter.Flush(last);
    RewrittenIsLineByLine(Flatten(chunks) + last, maxLine, sanitize);
    hide LineByLine;
    pieces, peak := rewriter.pieces, rewriter.peak;
  }

  /** A slice that does not end between the halves of a pair. */
  lemma NextSlice(fed: Text, decoded: Text, offset: nat, end: nat)
    requires offset < end <= |decoded|
    requires end < |decoded| ==> !(High(decoded[end - 1]) && Low(decoded[end]))
    ensures CutsPair(fed, decoded[offset..end]) == CutsPair(fed, decoded[offset..])
    ensures !CutsPair(fed + decoded[offset..end], decoded[end..])
  {
  }

  lemma SlicesMeet(start: Text, decoded: Text, offset: nat, end: nat)
    requires offset <= end <= |decoded|
    ensures start + decoded[..offset] + decoded[offset..end] == start + decoded[..end]
    ensures offset == 0 ==> decoded[offset..] == decoded && start + decoded[..offset] == start
    ensures end == |decoded| ==> decoded[..end] == decoded
  {
  }

  lemma NoCutAfterNewline(a: Text, b: Text)
    requires a != [] && a[|a| - 1] == NEWLINE
    ensures !CutsPair(a, b)
  {
  }

  lemma NextLine(fed: Text, decoded: Text, offset: nat, newline: nat)
    requires offset < |decoded| && offset <= newline <= |decoded|
    requires newline < |decoded| ==> decoded[newline] == NEWLINE
    ensures var ended := newline < |decoded|;
            var piece := decoded[offset..newline] + LineFeed(ended);
            && decoded[..if ended then newline + 1 else newline] == decoded[..offset] + piece
            && CutsPair(fed, piece) == CutsPair(fed, decoded[offset..])
    ensures decoded[..|decoded|] == decoded && decoded[0..] == decoded
  {
    if newline < |decoded| {
      assert decoded[..newline + 1] == decoded[..offset] + (decoded[offset..newline] + [NEWLINE]);
    } else {
      assert decoded == decoded[..offset] + (decoded[offset..newline] + []);
    }
  }
}
