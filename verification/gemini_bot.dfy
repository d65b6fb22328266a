/**
 * `GeminiBot`: one stateless generation call per message. The reply text is
 * accumulated from the first candidate's parts, and the usage log is built as
 * a list of HTML fragments joined by `<br>`.
 */
module GeminiBot {
  import opened Optional
  import opened Text
  import opened Messages
  import opened Sdk

  /** One part of a candidate's content; its text may be missing. */
  datatype Part = Part(text: Option<string>)

  /** A candidate's content: its parts, which may be None. */
  datatype Content = Content(parts: Option<seq<Part>>)

  /**
   * A candidate: its content (which may be None) and its finish reason, None
   * when the candidate has no such attribute (the f-string rendering otherwise).
   */
  datatype Candidate = Candidate(content: Option<Content>, finishReason: Option<string>)

  /**
   * A generation response: the candidate list (which may be None), the usage
   * metadata, and the model version (None when the response has no such attribute).
   */
  datatype Generation = Generation(candidates: Option<seq<Candidate>>, usage: Option<Usage>, modelVersion: Option<string>)

  const Apology: string := "I apologize, but I couldn't generate a response. Please try again."
  const NoCandidateTitle: string := "⚠️ Error"

  /** `str(e)` of the `AttributeError` raised by `content.parts` when the content is None. */
  const NoContentMessage: string := "'NoneType' object has no attribute 'parts'"
  /** `str(e)` of the `TypeError` raised by `for part in content.parts` when the parts are None. */
  const NoPartsMessage: string := "'NoneType' object is not iterable"

  // ---------------------------------------------------------------------------
  // The reply text
  // ---------------------------------------------------------------------------

  /** The text a part contributes: its text, or nothing when the text is missing or empty. */
  function PartText(p: Part): string {
    if p.text.Some? && p.text.value != "" then p.text.value else ""
  }

  /** The texts of the parts, concatenated in order. */
  function PartTexts(parts: seq<Part>): string {
    if parts == [] then "" else PartTexts(parts[..|parts| - 1]) + PartText(parts[|parts| - 1])
  }

  /** Concatenating two part lists concatenates their texts. */
  lemma {:induction false} PartTextsAppend(a: seq<Part>, b: seq<Part>)
    ensures PartTexts(a + b) == PartTexts(a) + PartTexts(b)
    decreases |b|
  {
    if b == [] {
      assert a + b == a;
    } else {
      var front := b[..|b| - 1];
      PartTextsAppend(a, front);
      assert (a + b)[..|a + b| - 1] == a + front;
    }
  }

  /** Parts without text contribute nothing, wherever they stand. */
  lemma PartTextsSkipEmpty(a: seq<Part>, b: seq<Part>)
    ensures PartTexts(a + [Part(None)] + b) == PartTexts(a + b)
    ensures PartTexts(a + [Part(Some(""))] + b) == PartTexts(a + b)
  {
    PartTextsAppend(a + [Part(None)], b);
    PartTextsAppend(a + [Part(Some(""))], b);
    PartTextsAppend(a, b);
    assert (a + [Part(None)])[..|a|] == a;
    assert (a + [Part(Some(""))])[..|a|] == a;
  }

  /** The loop over the parts: `full_text += part.text` for every part with a non-empty text. */
  method ConcatPartTexts(parts: seq<Part>) returns (fullText: string)
    ensures fullText == PartTexts(parts)
  {
    fullText := "";
    var i := 0;
    while i < |parts|
      invariant 0 <= i <= |parts|
      invariant fullText == PartTexts(parts[..i])
    {
      var part := parts[i];
      if part.text.Some? && part.text.value != "" {
        fullText := fullText + part.text.value;
      }
      assert parts[..i + 1][..i] == parts[..i];
      i := i + 1;
    }
    assert parts[..i] == parts;
  }

  // ---------------------------------------------------------------------------
  // The HTML usage log
  // ---------------------------------------------------------------------------

  const FinishLabel: string := "<strong>Finish Reason:</strong> "
  const ModelLabel: string := "<strong>Model:</strong> "
  const UsageHeader: string := "<strong>Token Usage:</strong>"
  const ListOpen: string := "<ul style='margin: 5px 0; padding-left: 20px;'>"
  const ListClose: string := "</ul>"

  /** The list items of the usage: Prompt, Response, Thinking only when non-zero, Total. */
  function UsageListItems(u: Usage): (items: seq<string>)
    ensures |items| == if Truthy(u.thoughts) then 4 else 3
    ensures items[0] == "<li>Prompt: " + ShowCount(u.prompt) + "</li>"
    ensures items[1] == "<li>Response: " + ShowCount(u.candidates) + "</li>"
    ensures Truthy(u.thoughts) ==> items[2] == "<li>Thinking: " + ShowCount(u.thoughts) + "</li>"
    ensures items[|items| - 1] == "<li><strong>Total: " + ShowCount(u.total) + "</strong></li>"
  {
    ["<li>Prompt: " + ShowCount(u.prompt) + "</li>", "<li>Response: " + ShowCount(u.candidates) + "</li>"]
    + (if Truthy(u.thoughts) then ["<li>Thinking: " + ShowCount(u.thoughts) + "</li>"] else [])
    + ["<li><strong>Total: " + ShowCount(u.total) + "</strong></li>"]
  }

  /** The fragments of the HTML log, in the order they are appended. */
  function UsageHtmlItems(finishReason: string, usage: Option<Usage>, modelVersion: string): (items: seq<string>)
    ensures |items| >= 2
    ensures items[0] == FinishLabel + finishReason
    ensures items[1] == ModelLabel + modelVersion
    ensures usage.None? ==> |items| == 2
    ensures usage.Some? ==>
              items[2..] == [UsageHeader, ListOpen] + UsageListItems(usage.value) + [ListClose]
  {
    [FinishLabel + finishReason, ModelLabel + modelVersion]
    + (if usage.Some? then [UsageHeader, ListOpen] + UsageListItems(usage.value) + [ListClose] else [])
  }

  /** `_format_usage_log`: fragments appended one by one, then joined by `<br>`. */
  method FormatUsageHtml(finishReason: string, usage: Option<Usage>, modelVersion: string) returns (html: string)
    ensures html == Join(UsageHtmlItems(finishReason, usage, modelVersion), "<br>")
  {
    var htmlParts: seq<string> := [];
    htmlParts := htmlParts + [FinishLabel + finishReason];
    htmlParts := htmlParts + [ModelLabel + modelVersion];
    if usage.Some? {
      var u := usage.value;
      htmlParts := htmlParts + [UsageHeader];
      htmlParts := htmlParts + [ListOpen];
      htmlParts := htmlParts + ["<li>Prompt: " + ShowCount(u.prompt) + "</li>"];
      htmlParts := htmlParts + ["<li>Response: " + ShowCount(u.candidates) + "</li>"];
      if Truthy(u.thoughts) {
        htmlParts := htmlParts + ["<li>Thinking: " + ShowCount(u.thoughts) + "</li>"];
      }
      htmlParts := htmlParts + ["<li><strong>Total: " + ShowCount(u.total) + "</strong></li>"];
      htmlParts := htmlParts + [ListClose];
      assert htmlParts[2..] == [UsageHeader, ListOpen] + UsageListItems(u) + [ListClose];
    }
    assert htmlParts == UsageHtmlItems(finishReason, usage, modelVersion);
    html := Join(htmlParts, "<br>");
  }

  /** The log opens with the finish reason and then the model, and is exactly those two without usage. */
  lemma UsageHtmlHead(finishReason: string, usage: Option<Usage>, modelVersion: string)
    ensures var head := FinishLabel + finishReason + "<br>" + ModelLabel + modelVersion;
            var html := Join(UsageHtmlItems(finishReason, usage, modelVersion), "<br>");
            |head| <= |html| && html[..|head|] == head && (usage.None? ==> html == head)
  {
    var items := UsageHtmlItems(finishReason, usage, modelVersion);
    var first := [items[0], items[1]];
    assert first[1..] == [items[1]];
    if usage.None? {
      assert items == first;
    } else {
      assert items == first + items[2..];
      JoinFront(first, items[2..], "<br>");
    }
  }

  /** With usage, the log ends by closing the `<ul>` list. */
  lemma UsageHtmlTail(finishReason: string, usage: Option<Usage>, modelVersion: string)
    requires usage.Some?
    ensures var html := Join(UsageHtmlItems(finishReason, usage, modelVersion), "<br>");
            |ListClose| <= |html| && html[|html| - |ListClose|..] == ListClose
  {
    var items := UsageHtmlItems(finishReason, usage, modelVersion);
    assert items[|items| - 1] == items[2..][|items| - 3];
    JoinLast(items, "<br>");
  }

  // ---------------------------------------------------------------------------
  // The response
  // ---------------------------------------------------------------------------

  /** Whether a generation returned at least one candidate. */
  predicate HasCandidate(g: Generation) {
    g.candidates.Some? && |g.candidates.value| > 0
  }

  /** Whether the first candidate's content and its parts are both present. */
  predicate HasParts(c: Candidate) {
    c.content.Some? && c.content.value.parts.Some?
  }

  /**
   * `get_response`: `message` is sent to the configured `model`, and the call
   * is answered by exactly one assistant segment: the first candidate's text with
   * the HTML log (an absent finish reason shown as "UNKNOWN", an absent model
   * version as the configured model), the apology when there is no candidate,
   * or a titled error segment. A first candidate without content or without
   * parts raises inside the `try`, and so ends in the generic error segment.
   */
  method GetResponse(model: string, generate: (string, string) -> Outcome<Generation>, message: string)
    returns (segs: seq<Segment>)
    ensures |segs| == 1 && segs[0].role == Assistant
    ensures generate(model, message).Responded? && HasCandidate(generate(model, message).response) ==>
              var g := generate(model, message).response;
              var c := g.candidates.value[0];
              if c.content.None? then segs[0] == ErrorSegment(NoContentMessage)
              else if c.content.value.parts.None? then segs[0] == ErrorSegment(NoPartsMessage)
              else segs[0] == Logged(PartTexts(c.content.value.parts.value), AnswerTitle,
                                     Join(UsageHtmlItems(c.finishReason.GetOr("UNKNOWN"), g.usage, g.modelVersion.GetOr(model)), "<br>"))
    ensures generate(model, message).Responded? && !HasCandidate(generate(model, message).response) ==>
              segs[0] == Titled(Apology, NoCandidateTitle)
    ensures generate(model, message).ApiError? ==> segs[0] == ApiErrorSegment(generate(model, message).message)
    ensures generate(model, message).Failure? ==> segs[0] == ErrorSegment(generate(model, message).message)
    ensures TitleOf(segs[0]) == Some(AnswerTitle) <==>
              generate(model, message).Responded? && HasCandidate(generate(model, message).response) &&
              HasParts(generate(model, message).response.candidates.value[0])
  {
    var outcome := generate(model, message);
    match outcome {
      case Responded(g) =>
        if g.candidates.Some? && |g.candidates.value| > 0 {
          var candidate := g.candidates.value[0];
          if candidate.content.None? {
            segs := [ErrorSegment(NoContentMessage)];
          } else if candidate.content.value.parts.None? {
            segs := [ErrorSegment(NoPartsMessage)];
          } else {
            var fullText := ConcatPartTexts(candidate.content.value.parts.value);
            var finishReason := if candidate.finishReason.Some? then candidate.finishReason.value else "UNKNOWN";
            var modelVersion := if g.modelVersion.Some? then g.modelVersion.value else model;
            var logHtml := FormatUsageHtml(finishReason, g.usage, modelVersion);
            segs := [Logged(fullText, AnswerTitle, logHtml)];
          }
        } else {
          segs := [Titled(Apology, NoCandidateTitle)];
        }
      case ApiError(m) =>
        segs := [ApiErrorSegment(m)];
      case Failure(m) =>
        segs := [ErrorSegment(m)];
    }
    ErrorSegmentsDistinct("", "", "", "");
    TitlesDistinct();
  }

  /** The four forms of the answer are told apart by their titles. */
  lemma TitlesDistinct()
    ensures NoCandidateTitle !in {AnswerTitle, ApiErrorTitle, ErrorTitle}
  {
    assert NoCandidateTitle[0] != AnswerTitle[0];
    assert NoCandidateTitle[0] != ApiErrorTitle[0];
    assert NoCandidateTitle[0] != ErrorTitle[0];
  }
}
