/** The retry loop around the model calls of one extraction. */
module RetryLoop {
  import opened Sequences

  const MAX_PARSE_RETRIES := 5

  datatype Finish = STOP | LENGTH | CONTENT_FILTER
  datatype Content = Missing | NotText | Text(text: string)
  datatype Choice = Choice(finish: Finish, content: Content)
  datatype Response = Response(tokensIn: nat, tokensOut: nat, choice: Option<Choice>)

  /** What parsing a response text gives; a schema rejection is a parse failure too. */
  datatype Parsed = Document(id: nat, salvaged: bool) | ParseFailure

  datatype Outcome =
    | Extracted(id: nat, salvaged: bool, atTokenLimit: bool, tokensIn: nat, tokensOut: nat)
    | ProviderResponseError
    | ContentFilteredError
    | TruncatedResponseError
    | ParseFailed
    | RuntimeError

  /** The decision one response forces, or nothing if it is a plain parse failure. */
  function Verdict(r: Response, parse: string -> Parsed, tokensIn: nat, tokensOut: nat): Option<Outcome> {
    match r.choice
    case None => Some(ProviderResponseError)
    case Some(Choice(CONTENT_FILTER, _)) => Some(ContentFilteredError)
    case Some(Choice(finish, Text(text))) =>
      if text == "" then Some(ProviderResponseError)
      else
        (match parse(text)
         case ParseFailure => if finish == LENGTH then Some(TruncatedResponseError) else None
         case Document(id, salvaged) =>
           if finish == LENGTH && salvaged then Some(TruncatedResponseError)
           else Some(Extracted(id, salvaged, finish == LENGTH, tokensIn, tokensOut)))
    case Some(_) => Some(ProviderResponseError)
  }

  /** Which outcome a response forces, case by case. */
  lemma VerdictMeans(r: Response, parse: string -> Parsed, tokensIn: nat, tokensOut: nat)
    ensures var verdict := Verdict(r, parse, tokensIn, tokensOut);
            var filtered := r.choice.Some? && r.choice.value.finish == CONTENT_FILTER;
            var cut := r.choice.Some? && r.choice.value.finish == LENGTH;
            var text := if r.choice.Some? && r.choice.value.content.Text? then r.choice.value.content.text else "";
            // filtered content is refused before anything else is looked at; no text is a provider error
            && (verdict == Some(ContentFilteredError) <==> filtered)
            && (verdict == Some(ProviderResponseError) <==> !filtered && text == "")
            // a response cut at the limit must parse as a whole
            && (verdict == Some(TruncatedResponseError) <==>
                  !filtered && text != "" && cut && (parse(text).ParseFailure? || parse(text).salvaged))
            // a document is returned as parsed, with the totals
            && (verdict.Some? && verdict.value.Extracted? <==>
                  !filtered && text != "" && parse(text).Document? && !(cut && parse(text).salvaged))
            && (verdict.Some? && verdict.value.Extracted? ==>
                  verdict.value == Extracted(parse(text).id, parse(text).salvaged, cut, tokensIn, tokensOut))
            // and only a failure to parse a whole response leaves it open
            && (verdict.None? <==> !filtered && text != "" && !cut && parse(text).ParseFailure?)
  {
  }

  predicate Retryable(r: Response, parse: string -> Parsed) {
    Verdict(r, parse, 0, 0).None?
  }

  /** The part of the loop body that looks at the response. */
  method Judge(response: Response, parse: string -> Parsed, tokensIn: nat, tokensOut: nat)
    returns (decided: Option<Outcome>)
    ensures decided == Verdict(response, parse, tokensIn, tokensOut)
  {
    if response.choice.None? { return Some(ProviderResponseError); }
    var choice := response.choice.value;
    if choice.finish == CONTENT_FILTER { return Some(ContentFilteredError); }
    if choice.content.Missing? || choice.content == Text("") { return Some(ProviderResponseError); }
    if choice.content.NotText? { return Some(ProviderResponseError); }
    var parsed := parse(choice.content.text);
    if parsed.ParseFailure? {
      return if choice.finish == LENGTH then Some(TruncatedResponseError) else None;
    }
    if choice.finish == LENGTH && parsed.salvaged { return Some(TruncatedResponseError); }
    return Some(Extracted(parsed.id, parsed.salvaged, choice.finish == LENGTH, tokensIn, tokensOut));
  }

  lemma VerdictFacts(r: Response, parse: string -> Parsed, tokensIn: nat, tokensOut: nat)
    ensures Verdict(r, parse, tokensIn, tokensOut).None? <==> Retryable(r, parse)
    ensures var v := Verdict(r, parse, tokensIn, tokensOut);
            v.Some? ==> v.value != RuntimeError && v.value != ParseFailed
                        && (v.value.Extracted? ==>
                              && v.value.tokensIn == tokensIn && v.value.tokensOut == tokensOut
                              && !(v.value.salvaged && v.value.atTokenLimit))
  {
  }

  function TokensIn(model: nat -> Response, n: nat): nat {
    if n == 0 then 0 else TokensIn(model, n - 1) + model(n - 1).tokensIn
  }

  function TokensOut(model: nat -> Response, n: nat): nat {
    if n == 0 then 0 else TokensOut(model, n - 1) + model(n - 1).tokensOut
  }

  /** The totals are sums over the calls: those of `m + n` calls are those of the first `m` and of the rest. */
  lemma {:induction false} TokensAddUp(model: nat -> Response, m: nat, n: nat)
    ensures TokensIn(model, m + n) == TokensIn(model, m) + TokensIn((i: nat) => model(m + i), n)
    ensures TokensOut(model, m + n) == TokensOut(model, m) + TokensOut((i: nat) => model(m + i), n)
    ensures TokensIn(model, 1) == model(0).tokensIn && TokensOut(model, 1) == model(0).tokensOut
  {
    if n > 0 {
      TokensAddUp(model, m, n - 1);
    }
  }

  /** `extract_document`, for any number of retries; `model` answers the calls in turn. */
  method ExtractDocument(model: nat -> Response, parseRetries: int, parse: string -> Parsed)
    returns (outcome: Outcome, calls: nat)
    // one call more than retries, and never more than six
    ensures calls <= 6 && (parseRetries >= 0 ==> 1 <= calls <= parseRetries + 1)
    // all calls but the last were plain parse failures, and the last one decided
    ensures forall i :: 0 <= i < calls - 1 ==> Retryable(model(i), parse)
    ensures calls > 0 && !Retryable(model(calls - 1), parse) ==>
              Verdict(model(calls - 1), parse, TokensIn(model, calls), TokensOut(model, calls)) == Some(outcome)
    ensures calls > 0 && Retryable(model(calls - 1), parse) ==>
              if parseRetries <= 5 then outcome == ParseFailed && calls == parseRetries + 1
              else outcome == RuntimeError && calls == 6
    // the error after the loop is reached only with a retry count outside 0..5
    ensures outcome == RuntimeError <==>
              parseRetries < 0 ||
              (parseRetries > 5 && forall i :: 0 <= i <= 5 ==> Retryable(model(i), parse))
    // accounting, and no salvage from a response cut at the token limit
    ensures outcome.Extracted? ==>
              && outcome.tokensIn == TokensIn(model, calls) && outcome.tokensOut == TokensOut(model, calls)
              && !(outcome.salvaged && outcome.atTokenLimit)
  {
    hide Verdict, Retryable;
    var tokensIn, tokensOut := 0, 0;
    var attempts := (if parseRetries < MAX_PARSE_RETRIES then parseRetries else MAX_PARSE_RETRIES) + 1;
    calls := 0;
    while calls < attempts
      invariant calls == 0 || calls <= attempts
      invariant tokensIn == TokensIn(model, calls) && tokensOut == TokensOut(model, calls)
      invariant forall i :: 0 <= i < calls ==> Retryable(model(i), parse)
      invariant calls > 0 ==> calls - 1 < parseRetries
    {
      var attempt := calls;
      var response := model(attempt);
      calls := calls + 1;
      tokensIn := tokensIn + response.tokensIn;
      tokensOut := tokensOut + response.tokensOut;
      var decided := Judge(response, parse, tokensIn, tokensOut);
      VerdictFacts(response, parse, tokensIn, tokensOut);
      if decided.Some? { return decided.value, calls; }
      if attempt < parseRetries { continue; }
      return ParseFailed, calls;
    }
    return RuntimeError, calls;
  }
}
