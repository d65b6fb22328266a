/**
 * `BareGeminiBot`: one chat-session call per user message, answered by one
 * segment whose metadata carries a one-line usage log. The chat session that
 * keeps the conversation lives in the SDK and is the function `send` here.
 */
module BareGeminiBot {
  import opened Optional
  import opened Text
  import opened Messages
  import opened Sdk

  /** What the bot reads from a successful chat call. */
  datatype ChatReply = ChatReply(
    finishReason: string,   // the first candidate's finish reason, as its enum value
    text: string,           // `response.text`
    usage: Option<Usage>,   // `response.usage_metadata`
    modelVersion: string)   // `response.model_version`, as the f-string renders it

  /** The short token fields: Prompt, Response, Thoughts only when non-zero, Total. */
  function TokenFields(u: Usage): (fields: seq<string>)
    ensures |fields| == if Truthy(u.thoughts) then 4 else 3
    ensures fields[0] == "Prompt: " + ShowCount(u.prompt)
    ensures fields[1] == "Response: " + ShowCount(u.candidates)
    ensures Truthy(u.thoughts) ==> fields[2] == "Thoughts: " + ShowCount(u.thoughts)
    ensures fields[|fields| - 1] == "Total: " + ShowCount(u.total)
  {
    ["Prompt: " + ShowCount(u.prompt), "Response: " + ShowCount(u.candidates)]
    + (if Truthy(u.thoughts) then ["Thoughts: " + ShowCount(u.thoughts)] else [])
    + ["Total: " + ShowCount(u.total)]
  }

  /** `_format_usage_log`: model and finish fields, then the token fields joined as one field. */
  function FormatUsageLog(finishReason: string, usage: Option<Usage>, modelVersion: string): string {
    var parts := ["Model: " + modelVersion, "Finish: " + finishReason];
    var parts := if usage.Some? then parts + [Join(TokenFields(usage.value), " | ")] else parts;
    Join(parts, " | ")
  }

  /**
   * The log is one flat " | "-separated list: model, finish, then (with usage)
   * the token fields in order.
   */
  lemma UsageLogFields(finishReason: string, usage: Option<Usage>, modelVersion: string)
    ensures FormatUsageLog(finishReason, usage, modelVersion) ==
            Join(["Model: " + modelVersion, "Finish: " + finishReason]
                 + (if usage.Some? then TokenFields(usage.value) else []), " | ")
  {
    var head := ["Model: " + modelVersion, "Finish: " + finishReason];
    if usage.Some? {
      JoinFlatten(head, TokenFields(usage.value), " | ");
    } else {
      assert head + [] == head;
    }
  }

  /** The log always begins with the model and finish fields, and is exactly them without usage. */
  lemma UsageLogPrefix(finishReason: string, usage: Option<Usage>, modelVersion: string)
    ensures var head := "Model: " + modelVersion + " | Finish: " + finishReason;
            var log := FormatUsageLog(finishReason, usage, modelVersion);
            |head| <= |log| && log[..|head|] == head && (usage.None? ==> log == head)
  {
    var head := ["Model: " + modelVersion, "Finish: " + finishReason];
    var text := "Model: " + modelVersion + " | Finish: " + finishReason;
    assert head[1..] == ["Finish: " + finishReason];
    assert Join(head, " | ") == text by {
      assert ("Model: " + modelVersion) + " | " + ("Finish: " + finishReason) == text;
    }
    if usage.Some? {
      var tokens := Join(TokenFields(usage.value), " | ");
      JoinSnoc(head, tokens, " | ");
      assert (text + " | " + tokens)[..|text|] == text;
    }
  }

  /**
   * `get_response`: exactly `message` is sent (the username is not used); the
   * call is answered by exactly one assistant segment.
   */
  function GetResponse(send: string -> Outcome<ChatReply>, message: string, username: string := "Phoenix")
    : (segs: seq<Segment>)
    ensures |segs| == 1 && segs[0].role == Assistant
    ensures send(message).Responded? <==> TitleOf(segs[0]) == Some(AnswerTitle)
    ensures send(message).Responded? <==> LogOf(segs[0]).Some?
    ensures send(message).Responded? ==>
              var r := send(message).response;
              segs[0].content == Some(r.text) &&
              LogOf(segs[0]) == Some(FormatUsageLog(Capitalize(r.finishReason), r.usage, r.modelVersion))
    ensures send(message).ApiError? ==> segs[0] == ApiErrorSegment(send(message).message)
    ensures send(message).Failure? ==> segs[0] == ErrorSegment(send(message).message)
  {
    var outcome := send(message);
    ErrorSegmentsDistinct("", "", "", "");
    match outcome
    case Responded(r) =>
      [Logged(r.text, AnswerTitle, FormatUsageLog(Capitalize(r.finishReason), r.usage, r.modelVersion))]
    case ApiError(m) => [ApiErrorSegment(m)]
    case Failure(m) => [ErrorSegment(m)]
  }
}
