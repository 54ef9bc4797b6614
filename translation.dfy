/** The translation path of `translateToCorporate` (script.js:16-47): the
    input check, the prompt, and the sequence buzzword fetch -> model call ->
    result, with what each network call answered passed in as a parameter. */
module Translation {
  import opened Wrappers
  import opened JsText
  import opened GeminiReply

  const EmptyInputMessage := "Please enter some text to translate"
  const NoBuzzwordMessage := "Failed to generate corporate buzzwords"
  const FailurePrefix := "Translation failed: "

  /** The trimmed input, or the validation message when nothing but
      whitespace was entered. */
  function CheckInput(raw: string): (r: Result<string, string>)
    ensures r.Err? <==> IsBlank(raw)
    ensures r.Err? ==> r.error == EmptyInputMessage
    ensures r.Ok? ==> r.value != [] && !IsWhitespace(r.value[0]) && !IsWhitespace(r.value[|r.value| - 1])
    ensures r.Ok? ==> exists lo :: PieceAmidWhitespace(raw, lo, r.value)
  {
    var input := Trim(raw);
    if input == [] then Err(EmptyInputMessage) else Ok(input)
  }

  const PromptHead := "Take this input phrase: \""
  const PromptMiddle := "\"\n\nCorporate buzzword phrase to integrate: \""
  const PromptTail := "\"\n\nYour task: Rewrite the input phrase by seamlessly incorporating the corporate buzzword phrase while preserving the original meaning. The result should sound professional and corporate but still convey the same core message.\n\nRules:\n- Keep the original meaning intact\n- Make it sound naturally corporate/business-like\n- Integrate the buzzword phrase smoothly (don't just append it)\n- Return ONLY the rewritten phrase, nothing else\n- No explanations or additional text\n\nOutput:"

  /** `createGeminiPrompt`: the fixed instruction template around the input
      and the buzzword phrase; both appear in it. */
  function Prompt(input: string, buzzword: string): (p: string)
    ensures Contains(p, input) && Contains(p, buzzword)
    ensures |p| == |PromptHead| + |input| + |PromptMiddle| + |buzzword| + |PromptTail|
  {
    ContainsMiddle(PromptHead, input, PromptMiddle + buzzword + PromptTail);
    ContainsMiddle(PromptHead + input + PromptMiddle, buzzword, PromptTail);
    assert PromptHead + input + PromptMiddle + buzzword + PromptTail
        == PromptHead + input + (PromptMiddle + buzzword + PromptTail);
    PromptHead + input + PromptMiddle + buzzword + PromptTail
  }

  /** What a network call delivered: a value, or the message of the error it
      threw (a failed fetch, a non-success status, a body that is not JSON). */
  datatype Answer<T> = Answered(value: T) | Threw(message: string)

  /** The requests the translator issues, in order. */
  datatype Request = GetBuzzword | PostPrompt(prompt: string)

  /** What the output element shows at the end. */
  datatype Screen = ShowResult(text: string) | ShowError(message: string)

  datatype Run = Run(requests: seq<Request>, screen: Screen)

  /** `data.phrase || null` followed by the `!buzzwordPhrase` test: an absent
      or empty phrase is a failure. */
  predicate UsablePhrase(phrase: Option<string>) {
    phrase.Some? && phrase.value != ""
  }

  /** One click on Translate. `buzzword` is what the buzzword fetch answered
      (the parsed `phrase` field); `reply` is what the model call answered.
      An answer is consulted only if its request is issued. */
  function TranslateToCorporate(raw: string, buzzword: Answer<Option<string>>, reply: Answer<Reply>): (run: Run)
    // Blank input: the validation message, and no request at all.
    ensures run.requests == [] <==> IsBlank(raw)
    ensures IsBlank(raw) ==> run.screen == ShowError(EmptyInputMessage)
    // Otherwise the buzzword is fetched first, and the model is asked with a
    // prompt holding the trimmed input and the phrase only if that worked.
    ensures !IsBlank(raw) ==> run.requests[0] == GetBuzzword
    ensures |run.requests| <= 2
    ensures |run.requests| == 2 <==>
      !IsBlank(raw) && buzzword.Answered? && UsablePhrase(buzzword.value)
    ensures |run.requests| == 2 ==>
      run.requests[1] == PostPrompt(Prompt(Trim(raw), buzzword.value.value)) &&
      Contains(run.requests[1].prompt, Trim(raw)) &&
      Contains(run.requests[1].prompt, buzzword.value.value)
    // The result shown is exactly the extracted model text.
    ensures run.screen.ShowResult? <==>
      |run.requests| == 2 && reply.Answered? && ExtractText(reply.value).Ok?
    ensures run.screen.ShowResult? ==> run.screen.text == ExtractText(reply.value).value
    // Every later failure is reported under one prefix, with the message of
    // the step that failed.
    ensures !IsBlank(raw) && run.screen.ShowError? ==>
      exists m :: run.screen.message == FailurePrefix + m
    ensures !IsBlank(raw) && buzzword.Threw? ==>
      run.screen == ShowError(FailurePrefix + buzzword.message)
    ensures !IsBlank(raw) && buzzword.Answered? && !UsablePhrase(buzzword.value) ==>
      run.screen == ShowError(FailurePrefix + NoBuzzwordMessage)
    ensures |run.requests| == 2 && reply.Threw? ==>
      run.screen == ShowError(FailurePrefix + reply.message)
    ensures |run.requests| == 2 && reply.Answered? && ExtractText(reply.value).Err? ==>
      run.screen == ShowError(FailurePrefix + NoResponse)
  {
    match CheckInput(raw)
    case Err(message) => Run([], ShowError(message))
    case Ok(input) =>
      if buzzword.Threw? then
        Run([GetBuzzword], ShowError(FailurePrefix + buzzword.message))
      else if !UsablePhrase(buzzword.value) then
        Run([GetBuzzword], ShowError(FailurePrefix + NoBuzzwordMessage))
      else
        var prompt := Prompt(input, buzzword.value.value);
        var requests := [GetBuzzword, PostPrompt(prompt)];
        if reply.Threw? then
          Run(requests, ShowError(FailurePrefix + reply.message))
        else
          match ExtractText(reply.value)
          case Err(message) => Run(requests, ShowError(FailurePrefix + message))
          case Ok(text) =>
            // `showResult` trims once more.
            TrimIdempotent(reply.value.candidates.value[0].content.value.parts.value[0].text.value);
            Run(requests, ShowResult(Trim(text)))
  }

  /** A successful round with a well-formed model reply shows that reply's
      text, trimmed. */
  lemma TranslateShowsTrimmedModelText(raw: string, phrase: string, t: string)
    requires !IsBlank(raw) && phrase != "" && t != ""
    ensures TranslateToCorporate(raw, Answered(Some(phrase)), Answered(ReplyWithText(t))).screen
      == ShowResult(Trim(t))
  {
    ExtractOfWellFormedReply(t);
  }
}
