/** The reply of the language-model endpoint and how the translator pulls the
    generated text out of it (`transformWithGemini`, script.js:79-85). */
module GeminiReply {
  import opened Wrappers
  import opened JsText

  // The nested shape `{ candidates: [{ content: { parts: [{ text }] } }] }`;
  // every level may be absent from the parsed JSON body.
  datatype Part = Part(text: Option<string>)
  datatype Content = Content(parts: Option<seq<Part>>)
  datatype Candidate = Candidate(content: Option<Content>)
  datatype Reply = Reply(candidates: Option<seq<Candidate>>)

  const NoResponse := "No response generated"

  /** The value of `data.candidates?.[0]?.content?.parts?.[0]?.text`, or
      None where a link of the chain is missing or an array is empty. */
  function FirstText(reply: Reply): Option<string> {
    match reply.candidates
    case None => None
    case Some(cs) =>
      if |cs| == 0 then None
      else match cs[0].content
        case None => None
        case Some(content) =>
          match content.parts
          case None => None
          case Some(ps) => if |ps| == 0 then None else ps[0].text
  }

  /** The text at candidates[0].content.parts[0].text exists. */
  predicate HasFirstText(reply: Reply, t: string) {
    reply.candidates.Some? && |reply.candidates.value| > 0 &&
    reply.candidates.value[0].content.Some? &&
    reply.candidates.value[0].content.value.parts.Some? &&
    |reply.candidates.value[0].content.value.parts.value| > 0 &&
    reply.candidates.value[0].content.value.parts.value[0].text == Some(t)
  }

  /** The generated text, trimmed, when the first part of the first
      candidate carries a non-empty (truthy) text; otherwise the error
      "No response generated". */
  function ExtractText(reply: Reply): (r: Result<string, string>)
    ensures r.Ok? <==> exists t :: HasFirstText(reply, t) && t != ""
    ensures forall t :: HasFirstText(reply, t) && t != "" ==> r == Ok(Trim(t))
    ensures r.Err? ==> r.error == NoResponse
  {
    match FirstText(reply)
    case Some(t) =>
      if t != "" then
        assert HasFirstText(reply, t);
        Ok(Trim(t))
      else
        Err(NoResponse)
    case None => Err(NoResponse)
  }

  /** The reply a healthy endpoint sends: one candidate with one part. */
  function ReplyWithText(t: string): Reply {
    Reply(Some([Candidate(Some(Content(Some([Part(Some(t))]))))]))
  }

  /** A well-formed reply yields its text trimmed, unless the text is empty. */
  lemma ExtractOfWellFormedReply(t: string)
    ensures ExtractText(ReplyWithText(t)) == if t == "" then Err(NoResponse) else Ok(Trim(t))
  {
    assert HasFirstText(ReplyWithText(t), t);
  }

  /** Only the first candidate and its first part are ever read. */
  lemma ExtractReadsOnlyFirst(c: Candidate, more: seq<Candidate>)
    ensures ExtractText(Reply(Some([c] + more))) == ExtractText(Reply(Some([c])))
  {
    assert ([c] + more)[0] == c;
    if exists t :: HasFirstText(Reply(Some([c])), t) && t != "" {
      var t :| HasFirstText(Reply(Some([c])), t) && t != "";
      assert HasFirstText(Reply(Some([c] + more)), t);
    }
    if exists t :: HasFirstText(Reply(Some([c] + more)), t) && t != "" {
      var t :| HasFirstText(Reply(Some([c] + more)), t) && t != "";
      assert HasFirstText(Reply(Some([c])), t);
    }
  }

  /** A successful extraction never starts or ends with whitespace, and a
      text made only of whitespace is truthy and so yields the empty text. */
  lemma ExtractedTextIsTrimmed(reply: Reply)
    ensures ExtractText(reply).Ok? ==> Trim(ExtractText(reply).value) == ExtractText(reply).value
    ensures forall t :: HasFirstText(reply, t) && t != "" && IsBlank(t) ==> ExtractText(reply) == Ok("")
  {
    if ExtractText(reply).Ok? {
      TrimIdempotent(reply.candidates.value[0].content.value.parts.value[0].text.value);
    }
  }
}
