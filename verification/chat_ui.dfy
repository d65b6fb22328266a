/**
 * The chat UI's logic: adding the user's message, recovering the user's text
 * from the last chat entry, choosing a bot, and streaming each bot segment into
 * the chat history one character at a time while tracking Ema's expression and
 * action. The Gradio widgets, the pacing delay and the image-file lookup are
 * not modelled; each yield is recorded as a `Frame` in a ghost trace.
 */
module ChatUi {
  import opened Optional
  import opened Text
  import opened Messages
  import opened ExpressionTags

  // ---------------------------------------------------------------------------
  // The user's turn
  // ---------------------------------------------------------------------------

  /** `_user_message`: clears the input box and appends the user's entry. */
  function UserMessage(msg: string, history: seq<Entry>): (r: (string, seq<Entry>))
    ensures r.0 == ""
    ensures |r.1| == |history| + 1 && r.1[..|history|] == history
    ensures r.1[|history|] == Entry(User, Text(msg), NoMeta)
  {
    ("", history + [Entry(User, Text(msg), NoMeta)])
  }

  /** The "text" values of the dictionary items of list content, in order. */
  function TextsOf(items: seq<Item>): seq<string> {
    if items == [] then []
    else (if items[0].TextItem? then [items[0].text] else []) + TextsOf(items[1..])
  }

  lemma {:induction false} TextsOfAppend(a: seq<Item>, b: seq<Item>)
    ensures TextsOf(a + b) == TextsOf(a) + TextsOf(b)
  {
    if a == [] {
      assert a + b == b;
    } else {
      TextsOfAppend(a[1..], b);
      assert (a + b)[1..] == a[1..] + b;
    }
  }

  /** Every collected text comes from a dictionary item, and there are no more of them than items. */
  lemma {:induction false} TextsOfFromItems(items: seq<Item>)
    ensures |TextsOf(items)| <= |items|
    ensures forall t :: t in TextsOf(items) <==> TextItem(t) in items
  {
    if items != [] {
      TextsOfFromItems(items[1..]);
      assert items == [items[0]] + items[1..];
    }
  }

  /** The text the user sent, recovered from the last entry of the chat history. */
  function UserText(history: seq<Entry>): string {
    if history == [] then ""
    else
      match history[|history| - 1].content
      case Text(t) => t
      case Items(items) => Join(TextsOf(items), " ")
      case Shown(repr) => repr
  }

  /** The extraction in `_bot_response`, collecting list texts in a loop. */
  method ExtractUserText(history: seq<Entry>) returns (msg: string)
    ensures msg == UserText(history)
  {
    msg := "";
    if history != [] {
      var content := history[|history| - 1].content;
      match content {
        case Text(t) =>
          msg := t;
        case Items(items) =>
          var parts: seq<string> := [];
          var i := 0;
          while i < |items|
            invariant 0 <= i <= |items|
            invariant parts == TextsOf(items[..i])
          {
            if items[i].TextItem? {
              parts := parts + [items[i].text];
            }
            TextsOfAppend(items[..i], [items[i]]);
            assert items[..i + 1] == items[..i] + [items[i]];
            i := i + 1;
          }
          assert items[..i] == items;
          msg := Join(parts, " ");
        case Shown(repr) =>
          msg := repr;
      }
    }
  }

  /** What the UI sends on is exactly what `UserMessage` stored. */
  lemma UserTextOfUserMessage(msg: string, history: seq<Entry>)
    ensures UserText(UserMessage(msg, history).1) == msg
  {
  }

  /** List content made only of text items is sent as those texts joined by single spaces. */
  lemma {:induction false} UserTextOfTextItems(texts: seq<string>, history: seq<Entry>, meta: MetaField)
    ensures UserText(history + [Entry(User, Items(seq(|texts|, i requires 0 <= i < |texts| => TextItem(texts[i]))), meta)])
            == Join(texts, " ")
  {
    var items := seq(|texts|, i requires 0 <= i < |texts| => TextItem(texts[i]));
    AllTextItems(texts);
  }

  lemma {:induction false} AllTextItems(texts: seq<string>)
    ensures TextsOf(seq(|texts|, i requires 0 <= i < |texts| => TextItem(texts[i]))) == texts
    decreases |texts|
  {
    if texts != [] {
      var items := seq(|texts|, i requires 0 <= i < |texts| => TextItem(texts[i]));
      AllTextItems(texts[1..]);
      assert items[1..] == seq(|texts[1..]|, i requires 0 <= i < |texts[1..]| => TextItem(texts[1..][i]));
    }
  }

  // ---------------------------------------------------------------------------
  // Bot selection
  // ---------------------------------------------------------------------------

  /** What a bot does with the user's text and name: the segments it yields. */
  type Responder = (string, string) -> seq<Segment>

  /** The bot registered under `name`, if any (the registry is a dictionary in insertion order). */
  function Lookup<B>(bots: seq<(string, B)>, name: string): (r: Option<B>)
    ensures r.None? <==> forall i :: 0 <= i < |bots| ==> bots[i].0 != name
    ensures r.Some? ==> exists i :: 0 <= i < |bots| && bots[i] == (name, r.value)
  {
    if bots == [] then None
    else if bots[0].0 == name then Some(bots[0].1)
    else
      var r := Lookup(bots[1..], name);
      assert forall i :: 1 <= i < |bots| ==> bots[i] == bots[1..][i - 1];
      r
  }

  /** `bots.get(name, first bot)`: the named bot, else the first one registered. */
  function SelectBot<B>(bots: seq<(string, B)>, name: string): (r: B)
    requires |bots| > 0
    ensures (forall i :: 0 <= i < |bots| ==> bots[i].0 != name) ==> r == bots[0].1
    ensures (exists i :: 0 <= i < |bots| && bots[i].0 == name) ==>
              exists i :: 0 <= i < |bots| && bots[i] == (name, r)
  {
    Lookup(bots, name).GetOr(bots[0].1)
  }

  /** With distinct names, the selected bot is the one registered under the name. */
  lemma {:induction false} SelectRegistered<B>(bots: seq<(string, B)>, i: nat)
    requires i < |bots|
    requires forall j, k :: 0 <= j < k < |bots| ==> bots[j].0 != bots[k].0
    ensures SelectBot(bots, bots[i].0) == bots[i].1
  {
    var j :| 0 <= j < |bots| && bots[j] == (bots[i].0, SelectBot(bots, bots[i].0));
  }

  // ---------------------------------------------------------------------------
  // The stream of frames
  // ---------------------------------------------------------------------------

  /** One yield of `_bot_response`: the chat history and the expression and action the image shows. */
  datatype Frame = Frame(entries: seq<Entry>, expression: string, action: string)

  /** `msg.get("content", "")`. */
  function ContentOf(seg: Segment): string {
    seg.content.GetOr("")
  }

  /** An assistant bubble for `seg` holding `text`, with the segment's metadata when it has some. */
  function Bubble(seg: Segment, text: string): Entry {
    Entry(Assistant, Text(text), seg.metadata)
  }

  /** The finished bubbles of `segs`, in order. */
  function Bubbles(segs: seq<Segment>): (r: seq<Entry>)
    ensures |r| == |segs|
  {
    if segs == [] then []
    else Bubbles(segs[..|segs| - 1]) + [Bubble(segs[|segs| - 1], ContentOf(segs[|segs| - 1]))]
  }

  /** The frame showing `text` as the last bubble after `before`. */
  function Snapshot(before: seq<Entry>, seg: Segment, text: string): Frame {
    var (e, a) := ParseExpressionAndAction(text);
    Frame(before + [Bubble(seg, text)], e, a)
  }

  /** The frames yielded while the first `k` characters of `seg` are streamed. */
  function CharFrames(before: seq<Entry>, seg: Segment, k: nat): (r: seq<Frame>)
    requires k <= |ContentOf(seg)|
    ensures |r| == k
  {
    if k == 0 then []
    else CharFrames(before, seg, k - 1) + [Snapshot(before, seg, ContentOf(seg)[..k])]
  }

  /** All frames of one segment: one per character, then the final one. */
  function SegmentFrames(before: seq<Entry>, seg: Segment): seq<Frame> {
    CharFrames(before, seg, |ContentOf(seg)|) + [Snapshot(before, seg, ContentOf(seg))]
  }

  /** All frames of a reply streamed after the chat history `base`. */
  function StreamFrames(base: seq<Entry>, segs: seq<Segment>): seq<Frame> {
    if segs == [] then []
    else
      var init := segs[..|segs| - 1];
      StreamFrames(base, init) + SegmentFrames(base + Bubbles(init), segs[|segs| - 1])
  }

  /** The number of yields for a reply: one per character plus one per segment. */
  function YieldCount(segs: seq<Segment>): nat {
    if segs == [] then 0 else YieldCount(segs[..|segs| - 1]) + |ContentOf(segs[|segs| - 1])| + 1
  }

  lemma {:induction false} StreamLength(base: seq<Entry>, segs: seq<Segment>)
    ensures |StreamFrames(base, segs)| == YieldCount(segs)
    ensures |segs| <= |StreamFrames(base, segs)|
  {
    if segs != [] {
      StreamLength(base, segs[..|segs| - 1]);
    }
  }

  /** The `i`-th character frame shows the first `i + 1` characters, parsed. */
  lemma {:induction false} CharFrameAt(before: seq<Entry>, seg: Segment, k: nat, i: nat)
    requires i < k <= |ContentOf(seg)|
    ensures CharFrames(before, seg, k)[i] == Snapshot(before, seg, ContentOf(seg)[..i + 1])
  {
    if i < k - 1 {
      CharFrameAt(before, seg, k - 1, i);
    }
  }

  /** Every frame of a reply keeps the history it started from, and adds one bubble per streamed segment. */
  lemma {:induction false} StreamKeepsBase(base: seq<Entry>, segs: seq<Segment>)
    ensures forall f :: f in StreamFrames(base, segs) ==>
              |base| < |f.entries| <= |base| + |segs| && f.entries[..|base|] == base
  {
    if segs != [] {
      var init := segs[..|segs| - 1];
      var before := base + Bubbles(init);
      StreamKeepsBase(base, init);
      forall f | f in SegmentFrames(before, segs[|segs| - 1])
        ensures |base| < |f.entries| <= |base| + |segs| && f.entries[..|base|] == base
      {
        var seg := segs[|segs| - 1];
        var i :| 0 <= i < |SegmentFrames(before, seg)| && SegmentFrames(before, seg)[i] == f;
        if i < |ContentOf(seg)| {
          CharFrameAt(before, seg, |ContentOf(seg)|, i);
        }
        assert f.entries == before + [f.entries[|f.entries| - 1]];
        assert (base + Bubbles(init) + [f.entries[|f.entries| - 1]])[..|base|] == base;
      }
    }
  }

  /**
   * Once the streamed prefix of a segment holds a complete expression tag, every
   * later frame of that segment shows the same expression; likewise for actions.
   */
  lemma {:induction false} ExpressionSettles(content: string, i: nat, j: nat)
    requires i <= j <= |content|
    ensures Find(content[..i], ExpressionKey).Some? ==>
              ParseExpressionAndAction(content[..j]).0 == ParseExpressionAndAction(content[..i]).0
    ensures Find(content[..i], ActionKey).Some? ==>
              ParseExpressionAndAction(content[..j]).1 == ParseExpressionAndAction(content[..i]).1
  {
    assert content[..j] == content[..i] + content[i..j];
    if Find(content[..i], ExpressionKey).Some? {
      FindExtend(content[..i], content[i..j], ExpressionKey);
    }
    if Find(content[..i], ActionKey).Some? {
      FindExtend(content[..i], content[i..j], ActionKey);
    }
  }

  /** The chat history Gradio holds: a list the streaming loop appends to and edits in place. */
  class Chat {
    var entries: seq<Entry>

    constructor (entries: seq<Entry>)
      ensures this.entries == entries
    {
      this.entries := entries;
    }
  }

  class ChatUI {
    /** The registered bots, by name, in insertion order. */
    const bots: seq<(string, Responder)>
    var currentExpression: string
    var currentAction: string

    constructor (bots: seq<(string, Responder)>)
      ensures this.bots == bots
      ensures currentExpression == "neutral" && currentAction == "none"
    {
      this.bots := bots;
      currentExpression := "neutral";
      currentAction := "none";
    }

    /**
     * One pass of the outer loop of `_bot_response`: appends an empty bubble for
     * `seg`, grows it one character per frame, then yields the final frame and
     * sets the current expression and action from the full content.
     */
    method StreamSegment(chat: Chat, seg: Segment) returns (ghost frames: seq<Frame>)
      modifies this, chat
      ensures chat.entries == old(chat.entries) + [Bubble(seg, ContentOf(seg))]
      ensures frames == SegmentFrames(old(chat.entries), seg)
      ensures (currentExpression, currentAction) == ParseExpressionAndAction(ContentOf(seg))
    {
      ghost var before := chat.entries;
      chat.entries := chat.entries + [Bubble(seg, "")];
      var content := ContentOf(seg);
      frames := [];
      var k := 0;
      while k < |content|
        invariant 0 <= k <= |content|
        invariant chat.entries == before + [Bubble(seg, content[..k])]
        invariant frames == CharFrames(before, seg, k)
      {
        var last := chat.entries[|chat.entries| - 1];
        var grown := last.content.text + [content[k]];
        assert grown == content[..k + 1];
        chat.entries := chat.entries[..|chat.entries| - 1] + [last.(content := Text(grown))];
        k := k + 1;
        var (e, a) := ParseExpressionAndAction(grown);
        frames := frames + [Frame(chat.entries, e, a)];
      }
      assert content[..k] == content;
      var (e, a) := ParseExpressionAndAction(content);
      currentExpression := e;
      currentAction := a;
      frames := frames + [Frame(chat.entries, e, a)];
    }

    /**
     * The outer loop of `_bot_response`: streams the segments one after the
     * other, each into a new bubble after the previous ones.
     */
    method StreamReply(chat: Chat, segs: seq<Segment>) returns (ghost frames: seq<Frame>)
      modifies this, chat
      ensures chat.entries == old(chat.entries) + Bubbles(segs)
      ensures frames == StreamFrames(old(chat.entries), segs)
      ensures segs == [] ==> currentExpression == old(currentExpression) && currentAction == old(currentAction)
      ensures segs != [] ==> (currentExpression, currentAction) == ParseExpressionAndAction(ContentOf(segs[|segs| - 1]))
    {
      ghost var base := chat.entries;
      frames := [];
      var i := 0;
      while i < |segs|
        invariant 0 <= i <= |segs|
        invariant chat.entries == base + Bubbles(segs[..i])
        invariant frames == StreamFrames(base, segs[..i])
        invariant i == 0 ==> currentExpression == old(currentExpression) && currentAction == old(currentAction)
        invariant i > 0 ==> (currentExpression, currentAction) == ParseExpressionAndAction(ContentOf(segs[i - 1]))
      {
        ghost var more := StreamSegment(chat, segs[i]);
        frames := frames + more;
        assert segs[..i + 1][..i] == segs[..i];
        i := i + 1;
      }
      assert segs[..i] == segs;
    }

    /**
     * `_bot_response`: asks the selected bot for the segments answering the
     * user's text and streams them. Afterwards the current expression and action
     * are the parse of the last segment's full content.
     */
    method BotResponse(chat: Chat, selected: string, username: string) returns (ghost frames: seq<Frame>)
      requires |bots| > 0
      modifies this, chat
      ensures var segs := SelectBot(bots, selected)(UserText(old(chat.entries)), username);
              chat.entries == old(chat.entries) + Bubbles(segs) &&
              frames == StreamFrames(old(chat.entries), segs) &&
              (segs == [] ==> currentExpression == old(currentExpression) && currentAction == old(currentAction)) &&
              (segs != [] ==> (currentExpression, currentAction) == ParseExpressionAndAction(ContentOf(segs[|segs| - 1])))
    {
      var bot := SelectBot(bots, selected);
      var userMsg := ExtractUserText(chat.entries);
      var segs := bot(userMsg, username);
      frames := StreamReply(chat, segs);
    }
  }
}
