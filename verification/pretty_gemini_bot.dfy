/**
 * `PrettyGeminiBot`: the model answers with a structured `EmaMessage`, which the
 * bot renders as text carrying the same `[Expression: w]` / `[Action: w]` tags
 * the chat UI parses back out of the streamed bubble.
 */
module PrettyGeminiBot {
  import opened Optional
  import opened Text
  import opened Messages
  import opened Sdk
  import opened ExpressionTags
  import BareGeminiBot

  /** The expressions the response schema allows. */
  datatype Expression = Neutral | Smile | Serious | Confused | Surprised | Sad

  /** The actions the response schema allows. */
  datatype Action = NoAction | Nod | Shake | Wave | Jump | Point

  function ExpressionName(e: Expression): string {
    match e
    case Neutral => "neutral"
    case Smile => "smile"
    case Serious => "serious"
    case Confused => "confused"
    case Surprised => "surprised"
    case Sad => "sad"
  }

  function ActionName(a: Action): string {
    match a
    case NoAction => "none"
    case Nod => "nod"
    case Shake => "shake"
    case Wave => "wave"
    case Jump => "jump"
    case Point => "point"
  }

  /** Every name is a lower-case word, so it can stand inside a tag. */
  lemma NamesAreLowerWords(e: Expression, a: Action)
    ensures IsLowerWord(ExpressionName(e)) && IsLowerWord(ActionName(a))
  {
  }

  /** The structured reply: thoughts, an expression, an action and the spoken words. */
  datatype EmaMessage = EmaMessage(think: string, expression: Expression, action: Action, speak: string)

  /** The thoughts, italicised in parentheses. */
  function ThoughtPart(think: string): string {
    "*(" + think + ")*"
  }

  /** The tags for the expression and action that are not the defaults, expression first. */
  function Indicators(m: EmaMessage): (ind: seq<string>)
    ensures |ind| == (if m.expression != Neutral then 1 else 0) + (if m.action != NoAction then 1 else 0)
    ensures m.expression != Neutral ==> ind[0] == TagText("Expression", ExpressionName(m.expression))
    ensures m.action != NoAction ==> ind[|ind| - 1] == TagText("Action", ActionName(m.action))
  {
    (if m.expression != Neutral then [TagText("Expression", ExpressionName(m.expression))] else [])
    + (if m.action != NoAction then [TagText("Action", ActionName(m.action))] else [])
  }

  /**
   * The parts of the rendered message, in the order thoughts, indicators, speech;
   * each is present exactly when it is non-empty, and none is empty.
   */
  function Parts(m: EmaMessage): (parts: seq<string>)
    ensures |parts| == Count(m.think != "") + Count(Indicators(m) != []) + Count(m.speak != "")
    ensures m.think != "" ==> parts[0] == ThoughtPart(m.think)
    ensures Indicators(m) != [] ==> parts[Count(m.think != "")] == Join(Indicators(m), " ")
    ensures m.speak != "" ==> parts[|parts| - 1] == m.speak
    ensures forall i :: 0 <= i < |parts| ==> parts[i] != ""
  {
    (if m.think != "" then [ThoughtPart(m.think)] else [])
    + (if Indicators(m) != [] then [Join(Indicators(m), " ")] else [])
    + (if m.speak != "" then [m.speak] else [])
  }

  /** `_format_message`: the parts joined by blank lines. */
  function FormatMessage(m: EmaMessage): string {
    Join(Parts(m), "\n\n")
  }

  /** A join whose first part is non-empty is non-empty. */
  lemma JoinNonEmpty(parts: seq<string>, sep: string)
    requires |parts| > 0 && parts[0] != ""
    ensures Join(parts, sep) != ""
  {
    if |parts| > 1 {
      assert Join(parts, sep) == parts[0] + (sep + Join(parts[1..], sep));
    }
  }

  /** The rendering is empty exactly when there are no thoughts, no speech and only default indicators. */
  lemma FormatMessageEmpty(m: EmaMessage)
    ensures FormatMessage(m) == "" <==>
            m.think == "" && m.speak == "" && m.expression == Neutral && m.action == NoAction
  {
    if Parts(m) != [] {
      JoinNonEmpty(Parts(m), "\n\n");
    }
  }

  /** With every part present, the rendering is thoughts, both tags and speech, separated by blank lines. */
  lemma FormatMessageFull(m: EmaMessage)
    requires m.think != "" && m.speak != "" && m.expression != Neutral && m.action != NoAction
    ensures FormatMessage(m) ==
            ThoughtPart(m.think) + "\n\n" + TagText("Expression", ExpressionName(m.expression)) + " "
            + TagText("Action", ActionName(m.action)) + "\n\n" + m.speak
  {
    var te := TagText("Expression", ExpressionName(m.expression));
    var ta := TagText("Action", ActionName(m.action));
    var ind := Indicators(m);
    assert ind == [te, ta];
    assert Join(ind, " ") == te + " " + ta by {
      assert ind[1..] == [ta];
    }
    var parts := Parts(m);
    var mid := te + " " + ta;
    assert parts == [ThoughtPart(m.think), mid, m.speak];
    assert parts[1..][1..] == [m.speak];
    assert Join(parts[1..], "\n\n") == mid + "\n\n" + m.speak;
  }

  // ---------------------------------------------------------------------------
  // The rendering parses back to the expression and action
  // ---------------------------------------------------------------------------

  /** The thought part is sealed and holds exactly the tags of the thoughts. */
  lemma ThoughtPartTags(think: string, key: string)
    requires IsKey(key)
    ensures Sealed(ThoughtPart(think), key)
    ensures Find(ThoughtPart(think), key) == Find(think, key)
  {
    KeyFacts(key);
    assert ThoughtPart(think) == "*(" + (think + [')'] + "*");
    assert '[' !in "*(" && '[' !in "*";
    ClosedBy(think, ')', "*", key);
    NoBracket("*(", key);
    SealedConcat("*(", think + [')'] + "*", key);
    FindConcat("*(", think + [')'] + "*", key);
  }

  /** The tag the indicator part holds under a key: its own tag when that is present. */
  function IndicatorTag(m: EmaMessage, key: string): Option<string> {
    if key == ExpressionKey && m.expression != Neutral then Some(ExpressionName(m.expression))
    else if key == ActionKey && m.action != NoAction then Some(ActionName(m.action))
    else None
  }

  /** The first indicator holding a tag under a key: each tag is seen only by its own key. */
  lemma IndicatorsFirstFind(m: EmaMessage, key: string)
    requires IsKey(key)
    ensures FirstFind(Indicators(m), key) == IndicatorTag(m, key)
  {
    var e := ExpressionName(m.expression);
    var a := ActionName(m.action);
    var ind := Indicators(m);
    NamesAreLowerWords(m.expression, m.action);
    KeyNames();
    if m.expression != Neutral {
      if key == ExpressionKey {
        FindOwnTag("Expression", e, key);
      } else {
        ForeignTag("Expression", e, key);
        if m.action != NoAction {
          FindOwnTag("Action", a, key);
          assert ind[1..][1..] == [];
        }
        assert ind[1..] == if m.action != NoAction then [TagText("Action", a)] else [];
      }
    } else if m.action != NoAction {
      if key == ActionKey {
        FindOwnTag("Action", a, key);
      } else {
        ForeignTag("Action", a, key);
      }
      assert ind[1..] == [];
    }
  }

  /** The indicator part is sealed and its tags are the indicators' tags. */
  lemma IndicatorPartTags(m: EmaMessage, key: string)
    requires IsKey(key)
    ensures Sealed(Join(Indicators(m), " "), key)
    ensures Find(Join(Indicators(m), " "), key) == IndicatorTag(m, key)
  {
    var ind := Indicators(m);
    NamesAreLowerWords(m.expression, m.action);
    assert '[' !in " " && '[' !in "Expression" && '[' !in "Action";
    forall i | 0 <= i < |ind|
      ensures Sealed(ind[i], key)
    {
      if m.expression != Neutral && i == 0 {
        TagSealed("Expression", ExpressionName(m.expression), key);
      } else {
        TagSealed("Action", ActionName(m.action), key);
      }
    }
    SealedJoin(ind, " ", key);
    FindJoin(ind, " ", key);
    IndicatorsFirstFind(m, key);
  }

  /** A string holds no complete tag under either key. */
  predicate NoTags(s: string) {
    Find(s, ExpressionKey).None? && Find(s, ActionKey).None?
  }

  /** Every part but the speech, which comes last, is sealed. */
  lemma PartsSealed(m: EmaMessage, key: string)
    requires IsKey(key)
    ensures forall k :: 0 <= k < |Parts(m)| - 1 ==> Sealed(Parts(m)[k], key)
  {
    var t := if m.think != "" then [ThoughtPart(m.think)] else [];
    var i := if Indicators(m) != [] then [Join(Indicators(m), " ")] else [];
    var s := if m.speak != "" then [m.speak] else [];
    var parts := Parts(m);
    assert parts == (t + i) + s;
    ThoughtPartTags(m.think, key);
    IndicatorPartTags(m, key);
    assert forall k :: 0 <= k < |t + i| ==> Sealed((t + i)[k], key);
    assert |parts| - 1 <= |t + i|;
    assert forall k :: 0 <= k < |t + i| ==> parts[k] == (t + i)[k];
  }

  /** Under one key, the first part holding a tag is the indicator part. */
  lemma PartsFirstFind(m: EmaMessage, key: string)
    requires IsKey(key) && NoTags(m.think) && NoTags(m.speak)
    ensures FirstFind(Parts(m), key) == IndicatorTag(m, key)
  {
    var t := if m.think != "" then [ThoughtPart(m.think)] else [];
    var i := if Indicators(m) != [] then [Join(Indicators(m), " ")] else [];
    var s := if m.speak != "" then [m.speak] else [];
    assert Parts(m) == t + (i + s);
    ThoughtPartTags(m.think, key);
    IndicatorPartTags(m, key);
    FirstFindAppend(t, i + s, key);
    FirstFindAppend(i, s, key);
    assert t != [] ==> t[1..] == [];
    assert i != [] ==> i[1..] == [];
    assert s != [] ==> s[1..] == [];
  }

  /** Under one key, the rendering holds exactly the indicator part's tag. */
  lemma FormatMessageFind(m: EmaMessage, key: string)
    requires IsKey(key) && NoTags(m.think) && NoTags(m.speak)
    ensures Find(FormatMessage(m), key) == IndicatorTag(m, key)
  {
    PartsSealed(m, key);
    assert '[' !in "\n\n";
    FindJoin(Parts(m), "\n\n", key);
    PartsFirstFind(m, key);
  }

  /**
   * The rendering round-trips through the chat UI's parser: when neither the
   * thoughts nor the speech hold a complete tag, the parser recovers the
   * expression and the action, the defaults included.
   */
  lemma FormatMessageParses(m: EmaMessage)
    requires NoTags(m.think) && NoTags(m.speak)
    ensures ParseExpressionAndAction(FormatMessage(m)) == (ExpressionName(m.expression), ActionName(m.action))
  {
    FormatMessageFind(m, ExpressionKey);
    FormatMessageFind(m, ActionKey);
  }

  // ---------------------------------------------------------------------------
  // Emoji, prompt and the response
  // ---------------------------------------------------------------------------

  const EmojiMap: map<string, string> := map[
    "neutral" := "😐", "smile" := "😊", "serious" := "😤",
    "confused" := "😕", "surprised" := "😲", "sad" := "😢"]

  const DefaultEmoji: string := "💬"

  /** `_get_emoji`: the mapped emoji of a known expression name, else the speech balloon. */
  function GetEmoji(expression: string): (r: string)
    ensures expression in EmojiMap ==> r == EmojiMap[expression]
    ensures expression !in EmojiMap ==> r == DefaultEmoji
  {
    if expression in EmojiMap then EmojiMap[expression] else DefaultEmoji
  }

  /** The six expressions have six different emojis, none of them the default. */
  lemma EmojisDistinct(e1: Expression, e2: Expression)
    ensures ExpressionName(e1) in EmojiMap
    ensures GetEmoji(ExpressionName(e1)) != DefaultEmoji
    ensures e1 != e2 ==> GetEmoji(ExpressionName(e1)) != GetEmoji(ExpressionName(e2))
  {
  }

  /** The message sent to the model: the username and the message in XML-like tags. */
  function Prompt(username: string, message: string): (p: string)
    ensures |p| == |"<username></username>\n<user_message></user_message>"| + |username| + |message|
  {
    "<username>" + username + "</username>\n<user_message>" + message + "</user_message>"
  }

  /** In a prompt, the first '<' after the opening tag closes the username. */
  lemma PromptUsernameEnd(username: string, message: string)
    requires '<' !in username
    ensures var p := Prompt(username, message);
            p[|"<username>"| + |username|] == '<' &&
            forall k :: |"<username>"| <= k < |"<username>"| + |username| ==> p[k] != '<'
  {
    var p := Prompt(username, message);
    forall k | |"<username>"| <= k < |"<username>"| + |username|
      ensures p[k] != '<'
    {
      assert p[k] == username[k - |"<username>"|];
      assert username[k - |"<username>"|] in username;
    }
  }

  /** The prompt determines the username and message it was made from, when the username holds no '<'. */
  lemma PromptInjective(u1: string, m1: string, u2: string, m2: string)
    requires '<' !in u1 && '<' !in u2
    requires Prompt(u1, m1) == Prompt(u2, m2)
    ensures u1 == u2 && m1 == m2
  {
    var p := Prompt(u1, m1);
    var open := |"<username>"|;
    PromptUsernameEnd(u1, m1);
    PromptUsernameEnd(u2, m2);
    assert |u1| == |u2|;
    assert u1 == p[open..open + |u1|];
    assert u2 == p[open..open + |u2|];
    var front := |"<username></username>\n<user_message>"| + |u1|;
    assert m1 == p[front..front + |m1|];
    assert m2 == p[front..front + |m2|];
  }

  /** What the bot reads from a successful structured call. */
  datatype StructuredReply = StructuredReply(
    message: EmaMessage,    // `response.parsed`
    finishReason: string,   // the first candidate's finish reason, as its enum value
    usage: Option<Usage>,   // `response.usage_metadata`
    modelVersion: string)   // `response.model_version`, as the f-string renders it

  /**
   * `get_response`: the prompt built from the username and message is sent, and
   * the call is answered by exactly one assistant segment: the rendered message
   * with the plain-text usage log, or a titled error segment.
   */
  function GetResponse(send: string -> Outcome<StructuredReply>, message: string, username: string := "Phoenix")
    : (segs: seq<Segment>)
    ensures |segs| == 1 && segs[0].role == Assistant
    ensures var outcome := send(Prompt(username, message));
            (outcome.Responded? <==> TitleOf(segs[0]) == Some(AnswerTitle)) &&
            (outcome.Responded? <==> LogOf(segs[0]).Some?) &&
            (outcome.Responded? ==>
               var r := outcome.response;
               segs[0].content == Some(FormatMessage(r.message)) &&
               LogOf(segs[0]) == Some(BareGeminiBot.FormatUsageLog(Capitalize(r.finishReason), r.usage, r.modelVersion))) &&
            (outcome.ApiError? ==> segs[0] == ApiErrorSegment(outcome.message)) &&
            (outcome.Failure? ==> segs[0] == ErrorSegment(outcome.message))
  {
    ErrorSegmentsDistinct("", "", "", "");
    match send(Prompt(username, message))
    case Responded(r) =>
      var log := BareGeminiBot.FormatUsageLog(Capitalize(r.finishReason), r.usage, r.modelVersion);
      [Logged(FormatMessage(r.message), AnswerTitle, log)]
    case ApiError(m) => [ApiErrorSegment(m)]
    case Failure(m) => [ErrorSegment(m)]
  }
}
