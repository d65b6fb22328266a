/**
 * What the Gemini bots see of the SDK. A call either returns a response, raises
 * an `APIError`, or raises any other exception; every exception raised inside a
 * bot's `try` block (including one raised while reading the response, such as an
 * index into an empty candidate list) ends in the same two handlers, so the
 * outcome of one call is modelled as this three-way value.
 */
module Sdk {
  import opened Optional
  import opened Messages

  /** The token counts of `usage_metadata`; each one may be None. */
  datatype Usage = Usage(prompt: Option<nat>, candidates: Option<nat>, thoughts: Option<nat>, total: Option<nat>)

  /** The end of one SDK call: a response `R`, an `APIError`, or another exception, with `str(e)`. */
  datatype Outcome<R> = Responded(response: R) | ApiError(message: string) | Failure(message: string)

  const AnswerTitle: string := "💡 Answer"
  const ApiErrorTitle: string := "❌ API Error"
  const ErrorTitle: string := "❌ Error"

  /** The segment an `APIError` becomes: the message after "API Error: ", a title and no log. */
  function ApiErrorSegment(message: string): Segment {
    Titled("API Error: " + message, ApiErrorTitle)
  }

  /** The segment any other exception becomes: the message after "Unexpected error: ", no log. */
  function ErrorSegment(message: string): Segment {
    Titled("Unexpected error: " + message, ErrorTitle)
  }

  /** The title of a segment's metadata, when it has one. */
  function TitleOf(s: Segment): Option<string> {
    if s.metadata.HasMeta? then Some(s.metadata.meta.title) else None
  }

  /** The log of a segment's metadata, when it has one. */
  function LogOf(s: Segment): Option<string> {
    if s.metadata.HasMeta? then s.metadata.meta.log else None
  }

  /**
   * The three error-handling forms are told apart by their titles, and only an
   * answer carries a log.
   */
  lemma ErrorSegmentsDistinct(m: string, n: string, content: string, log: string)
    ensures TitleOf(ApiErrorSegment(m)) != TitleOf(ErrorSegment(n))
    ensures TitleOf(Logged(content, AnswerTitle, log)) !in {TitleOf(ApiErrorSegment(m)), TitleOf(ErrorSegment(n))}
    ensures LogOf(ApiErrorSegment(m)).None? && LogOf(ErrorSegment(n)).None?
    ensures LogOf(Logged(content, AnswerTitle, log)) == Some(log)
  {
    assert ApiErrorTitle[2] != ErrorTitle[2];
    assert AnswerTitle[0] != ApiErrorTitle[0];
  }
}
