/**
 * `SimpleBot`: two fixed replies, whatever the message and the username. The
 * replies carry the tags the chat UI reads, so streaming them sets the
 * character's expression and action.
 */
module SimpleBot {
  import opened Optional
  import opened Messages
  import opened Sdk
  import opened ExpressionTags

  const FirstSpeech: string := "\n\n你好，我是Ema。"
  const SecondSpeech: string := "\n\n请问有什么可以帮助你的吗？"

  /** The first reply: the smile and wave tags, then a greeting. */
  const FirstReply: string := TagText("Expression", "smile") + " " + TagText("Action", "wave") + FirstSpeech

  /** The second reply: the neutral and none tags, then a question. */
  const SecondReply: string := TagText("Expression", "neutral") + " " + TagText("Action", "none") + SecondSpeech

  /** The replies spelled out. */
  lemma RepliesText()
    ensures FirstReply == "[Expression: smile] [Action: wave]\n\n你好，我是Ema。"
    ensures SecondReply == "[Expression: neutral] [Action: none]\n\n请问有什么可以帮助你的吗？"
  {
    FirstReplyText();
    SecondReplyText();
  }

  lemma FirstTagsText()
    ensures TagText("Expression", "smile") == "[Expression: smile]"
    ensures TagText("Action", "wave") == "[Action: wave]"
  {
  }

  lemma SecondTagsText()
    ensures TagText("Expression", "neutral") == "[Expression: neutral]"
    ensures TagText("Action", "none") == "[Action: none]"
  {
  }

  lemma FirstReplyText()
    ensures FirstReply == "[Expression: smile] [Action: wave]\n\n你好，我是Ema。"
  {
    FirstTagsText();
    assert "[Expression: smile]" + " " + "[Action: wave]" + FirstSpeech ==
           "[Expression: smile] [Action: wave]\n\n你好，我是Ema。";
  }

  lemma SecondReplyText()
    ensures SecondReply == "[Expression: neutral] [Action: none]\n\n请问有什么可以帮助你的吗？"
  {
    SecondTagsText();
    assert "[Expression: neutral]" + " " + "[Action: none]" + SecondSpeech ==
           "[Expression: neutral] [Action: none]\n\n请问有什么可以帮助你的吗？";
  }

  /** `get_response`: the two fixed replies in order, both assistant answers under the answer title. */
  function GetResponse(message: string, username: string := "Phoenix"): (segs: seq<Segment>)
    ensures |segs| == 2
    ensures forall i :: 0 <= i < 2 ==> segs[i].role == Assistant && TitleOf(segs[i]) == Some(AnswerTitle)
    ensures segs[0].content == Some(FirstReply) && segs[1].content == Some(SecondReply)
  {
    [Titled(FirstReply, AnswerTitle), Titled(SecondReply, AnswerTitle)]
  }

  /** The replies do not depend on the message or the username. */
  lemma ResponseIgnoresInput(m1: string, u1: string, m2: string, u2: string)
    ensures GetResponse(m1, u1) == GetResponse(m2, u2)
  {
  }

  /**
   * The chat UI's parser reads "smile"/"wave" from the first reply and
   * "neutral"/"none" from the second, for every message and username: both
   * pairs are found as tags, the second one although it names the defaults.
   */
  lemma RepliesParse(message: string, username: string)
    ensures var segs := GetResponse(message, username);
            ParseExpressionAndAction(segs[0].content.value) == ("smile", "wave") &&
            ParseExpressionAndAction(segs[1].content.value) == ("neutral", "none")
  {
    LeadingTags("smile", "wave", FirstSpeech);
    LeadingTags("neutral", "none", SecondSpeech);
  }
}
