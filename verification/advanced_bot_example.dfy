/**
 * The example `AdvancedBot`: a rule-based reply list. It acknowledges the
 * message when thinking is shown, always answers with a reply chosen by how
 * many user messages the history holds, and adds one reply for a greeting or
 * else for a question.
 */
module AdvancedBot {
  import opened Optional
  import opened Text
  import opened Messages

  /** The number of user entries in a history: `len([h for h in history if h.get("role") == "user"])`. */
  function CountUsers(history: seq<Entry>): (n: nat)
    ensures n <= |history|
  {
    if history == [] then 0
    else CountUsers(history[..|history| - 1]) + (if history[|history| - 1].role == User then 1 else 0)
  }

  /** The positions of the user entries. */
  function UserPositions(history: seq<Entry>): set<nat> {
    set i: nat | i < |history| && history[i].role == User
  }

  /** The count is the number of positions holding a user entry. */
  lemma {:induction false} CountUsersIsUserPositions(history: seq<Entry>)
    ensures CountUsers(history) == |UserPositions(history)|
  {
    if history != [] {
      var n := |history| - 1;
      var front := history[..n];
      CountUsersIsUserPositions(front);
      if history[n].role == User {
        assert UserPositions(history) == UserPositions(front) + {n};
      } else {
        assert UserPositions(history) == UserPositions(front);
      }
    }
  }

  /** Counting distributes over concatenation. */
  lemma {:induction false} CountUsersAppend(a: seq<Entry>, b: seq<Entry>)
    ensures CountUsers(a + b) == CountUsers(a) + CountUsers(b)
    decreases |b|
  {
    if b == [] {
      assert a + b == a;
    } else {
      CountUsersAppend(a, b[..|b| - 1]);
      assert (a + b)[..|a + b| - 1] == a + b[..|b| - 1];
    }
  }

  /** `"你好" in message or "hello" in message.lower()`. */
  predicate IsGreeting(message: string) {
    Contains(message, "你好") || Contains(Lower(message), "hello")
  }

  /** `"?" in message or "？" in message or "吗" in message`. */
  predicate IsQuestion(message: string) {
    Contains(message, "?") || Contains(message, "？") || Contains(message, "吗")
  }

  /** The context reply for a count of user messages. */
  function ContextContent(count: nat): string {
    if count == 0 then "这是我们的第一次对话，很高兴认识你！"
    else if count < 3 then "这是我们的第 " + NatToString(count + 1) + " 次交流。"
    else "我们已经聊了很多了！"
  }

  /** The thinking note that goes with the context reply. */
  function ContextNote(count: nat): string {
    if count == 0 then "这是第一条消息"
    else if count < 3 then "已经交流了 " + NatToString(count) + " 次"
    else "对话历史较长"
  }

  const GreetingReply: string := "你好！有什么可以帮助你的吗？"
  const QuestionReply: string := "这是一个很好的问题！让我思考一下..."

  /** The acknowledgement quoting the message. */
  function Acknowledgement(message: string): Segment {
    Segment(Assistant, Some("我收到了你的消息: '" + message + "'"), HasMeta(Meta("💭 Thinking: 分析用户输入", None)))
  }

  /** The metadata of the later replies: a thinking title when thinking is shown, else `None`. */
  function Thinking(enableThinking: bool, note: string): MetaField {
    if enableThinking then HasMeta(Meta("💭 Thinking: " + note, None)) else NullMeta
  }

  class AdvancedBot {
    /** Whether the replies carry thinking titles; set once. */
    const enableThinking: bool

    constructor (enableThinking: bool)
      ensures this.enableThinking == enableThinking
    {
      this.enableThinking := enableThinking;
    }

    /**
     * `get_response`: the acknowledgement first when thinking is shown; then the
     * context reply for the number of user messages in the history (a missing
     * history counts as empty); then the greeting reply for a greeting, else
     * the question reply for a question, else nothing more.
     */
    method GetResponse(message: string, history: Option<seq<Entry>>) returns (responses: seq<Segment>)
      ensures var k := Count(enableThinking);
              |responses| == k + 1 + Count(IsGreeting(message) || IsQuestion(message)) &&
              (enableThinking ==> responses[0] == Acknowledgement(message)) &&
              (var count := CountUsers(history.GetOr([]));
               responses[k] == Segment(Assistant, Some(ContextContent(count)), Thinking(enableThinking, ContextNote(count)))) &&
              (IsGreeting(message) ==>
                 responses[k + 1] == Segment(Assistant, Some(GreetingReply), Thinking(enableThinking, "检测到问候语"))) &&
              (!IsGreeting(message) && IsQuestion(message) ==>
                 responses[k + 1] == Segment(Assistant, Some(QuestionReply), Thinking(enableThinking, "检测到问题")))
      ensures forall i :: 0 <= i < |responses| ==> responses[i].role == Assistant
      ensures !enableThinking ==> forall i :: 0 <= i < |responses| ==> responses[i].metadata == NullMeta
    {
      var h := if history.Some? then history.value else [];
      var msgCount := CountUsers(h);
      responses := [];
      if enableThinking {
        responses := responses + [Acknowledgement(message)];
      }
      var content, thinking;
      if msgCount == 0 {
        content := "这是我们的第一次对话，很高兴认识你！";
        thinking := "这是第一条消息";
      } else if msgCount < 3 {
        content := "这是我们的第 " + NatToString(msgCount + 1) + " 次交流。";
        thinking := "已经交流了 " + NatToString(msgCount) + " 次";
      } else {
        content := "我们已经聊了很多了！";
        thinking := "对话历史较长";
      }
      responses := responses + [Segment(Assistant, Some(content), Thinking(enableThinking, thinking))];
      if IsGreeting(message) {
        responses := responses + [Segment(Assistant, Some(GreetingReply), Thinking(enableThinking, "检测到问候语"))];
      } else if IsQuestion(message) {
        responses := responses + [Segment(Assistant, Some(QuestionReply), Thinking(enableThinking, "检测到问题"))];
      }
    }
  }

  /**
   * The three bands of the context reply: "第一次" for no user message,
   * "第 n+1 次" for one or two, the long-history reply from three on; within
   * the middle band the reply names the count.
   */
  lemma ContextBands(c: nat, d: nat)
    ensures c == 0 ==> ContextContent(c) == "这是我们的第一次对话，很高兴认识你！"
    ensures c >= 3 && d >= 3 ==> ContextContent(c) == ContextContent(d)
    ensures 0 < c < 3 && 0 < d < 3 && c != d ==> ContextContent(c) != ContextContent(d)
  {
    if 0 < c < 3 && 0 < d < 3 && c != d {
      var prefix := "这是我们的第 ";
      assert ContextContent(c)[|prefix|] == Digit(c + 1);
      assert ContextContent(d)[|prefix|] == Digit(d + 1);
    }
  }

  /**
   * One more user message in the history moves the context reply along: after
   * a first message the reply is "第 2 次".
   */
  lemma ContextAfterUserMessage(history: seq<Entry>, msg: Entry)
    requires msg.role == User
    ensures CountUsers(history + [msg]) == CountUsers(history) + 1
    ensures CountUsers(history) == 0 ==> ContextContent(CountUsers(history + [msg])) == "这是我们的第 2 次交流。"
  {
    CountUsersAppend(history, [msg]);
    assert [msg][..0] == [];
    if CountUsers(history) == 0 {
      assert NatToString(2) == "2";
    }
  }
}
