# Mini-Ema in Dafny

Mini-Ema is a chat application around the character Ema. A user types a message
into a web chat. The selected bot answers with one or more assistant segments,
each a dictionary with a role, a content string and optional metadata (a title,
and for model answers a usage log). The chat UI streams every segment into a new
bubble one character at a time. After each character it re-reads the bubble for
`[Expression: w]` and `[Action: w]` tags, which choose the picture of Ema shown
beside the chat.

This project models that core and proves what it promises:

- `History` (`conversation_history.dfy`): the round-oriented message store
  `ConversationHistory`. It is a class whose `messages` field is extended by
  `AddMessages` and emptied by `Clear`. `GetRecentMessages` returns the last
  rounds as a view.
- `ExpressionTags` (`expression_tags.dfy`): the UI's tag parser. It is the
  case-insensitive search for `\[Expression:\s*(\w+)\]` and for the `Action`
  pattern, stated as a leftmost anchored match. The module proves when that
  match is settled, so that appending text cannot change it.
- `ChatUi` (`chat_ui.dfy`): the UI's state and logic.
  - Adding the user's message, and recovering the user's text from the last
    chat entry, including the loop over list content.
  - Selecting a bot by name with the fallback to the first one.
  - The streaming loops of `_bot_response`, as methods on a `ChatUI` object and
    a `Chat` history object. Each yield is recorded as a frame in a ghost trace.
- `Sdk` and `Messages` (`sdk.dfy`, `messages.dfy`): the segments the bots yield,
  the chat entries, the usage counters. A model call is an `Outcome`: a
  response, an API error, or any other exception.
- `BareGeminiBot`, `PrettyGeminiBot`, `GeminiBot`, `SimpleBot`, `AdvancedBot`:
  the five bots.
  - The three Gemini bots' `get_response` is a method of the model call's
    outcome. `SimpleBot` and `AdvancedBot` make no model call: theirs depends
    only on the message, the username or history, and the bot's settings.
  - The plain-text and HTML usage logs are modelled, and so are the structured
    message rendering and its emoji.
  - So are the fixed replies, and the rule-based replies of the example bot.

Two results tie the bots to the UI. `PrettyGeminiBot.FormatMessageParses` shows
that the UI's parser reads back the expression and action of every rendered
structured message whose thoughts and speech hold no tag. `SimpleBot.RepliesParse`
shows that it reads `smile`/`wave` and `neutral`/`none` from the two fixed replies.

The repository's tests expect a different history store. They import
`ConversationHistory` from `mini_ema.bot.pretty_gemini_bot`
(`tests/test_conversation_history.py:7`) and check a store that trims its oldest
messages on every append to a `_max_capacity` (lines 15, 61-82 and 113-127).
The store in `mini_ema/bot/conversation_history.py` never trims: `add_messages`
(lines 29-36) only extends the list, and the bound applies only to what
`get_recent_messages` returns. The model follows that file.
`History.TrimOnWrite` proves that the two designs give identical answers to
every request of at most `max_rounds` rounds, including the default request.
`History.TrimShowsLess` shows that a larger request tells them apart.

The Python integers and strings are Dafny's unbounded `int`/`nat` and
`seq<char>`. Python's `None` becomes `Option`. Where the source
distinguishes a missing `metadata` key from `metadata: None`, `MetaField`
does so too (`NoMeta` and `NullMeta`).

## Model

| member | source | states |
|---|---|---|
| History.Recent | mini_ema/bot/conversation_history.py:51-66 | The view of `rounds` rounds has length `min(len(history), rounds × messages_per_round)` and is the suffix of that length, in stored order. When fewer messages are stored, all are returned with no padding. Zero rounds or an empty store give the empty view. |
| History.RecentAfterTrim | mini_ema/bot/conversation_history.py:29-66 | Trimming the store to its view of `window` rounds before appending a batch gives the same later view of at most `window` rounds as extending the whole store. |
| History.RecentWithinWindow | mini_ema/bot/conversation_history.py:58-66 | A view of at most `window` rounds taken of the `window`-round view equals the same view of the whole store. |
| History.TrimOnWrite | mini_ema/bot/conversation_history.py:29-66 | Consider a store that trims itself to `window` rounds after every append. If it holds the `window`-round view of the extend-only store, it still does after both take the same batch. Both then answer every request of at most `window` rounds identically, the default request of `max_rounds` rounds included. |
| History.TrimShowsLess | mini_ema/bot/conversation_history.py:58-66 | With two messages per round and a one-round window, appending [3, 4] to [1, 2] makes the trimming store hold [3, 4]. A two-round request then shows only [3, 4] there, but all four messages in the extend-only store. |
| History.RecentOfLongBatch | mini_ema/bot/conversation_history.py:58-66 | After appending a batch at least one window long, the view depends on that batch alone. |
| History.ConversationHistory.constructor | mini_ema/bot/conversation_history.py:15-27 | The defaults are 10 rounds of 2 messages. `max_rounds` is clamped to at least 0 and `messages_per_round` to at least 1. The store starts empty. |
| History.ConversationHistory.AddMessages | mini_ema/bot/conversation_history.py:29-36 | The new store is exactly the old store followed by the batch, in order, with nothing removed. |
| History.ConversationHistory.EffectiveRounds | mini_ema/bot/conversation_history.py:50-51 | A request without rounds uses the configured maximum. A negative request counts as zero. |
| History.ConversationHistory.GetRecentMessages | mini_ema/bot/conversation_history.py:38-66 | Returns `Recent` of the store for the effective rounds: empty for `None` with a zero maximum, for 0, and for a negative count. It leaves the store unchanged. |
| History.ConversationHistory.Clear | mini_ema/bot/conversation_history.py:68-71 | The store is empty afterwards, including when it already was. |
| History.ConversationHistory.GetAllMessages | mini_ema/bot/conversation_history.py:73-80 | Returns the whole store and changes nothing. |
| History.ConversationHistory.Length | mini_ema/bot/conversation_history.py:82-89 | Returns the number of stored messages and changes nothing. |
| History.Session | mini_ema/bot/conversation_history.py:29-89 | After two appends, the one-round view is the last `messages_per_round` messages of both batches. After `clear`, the default view is empty and the length is 0. |
| Sdk.ErrorSegmentsDistinct | mini_ema/bot/bare_gemini_bot.py:89-116 | The answer, API-error and error segments have three different titles. Only the answer carries a log. |
| ExpressionTags.TagAtStart | mini_ema/ui/chat_ui.py:68 | The pattern anchored at one position: the key (case-insensitive), spaces, a run of word characters and `]`, giving the run lower-cased. Its meaning is stated by `TagIsLowerWord`, `FindLeftmost` and `ParseLeftmostTags`. |
| ExpressionTags.TagIsLowerWord | mini_ema/ui/chat_ui.py:68-70 | An anchored match is a non-empty lower-case word: `\w+` captures at least one word character and the result is lower-cased. |
| ExpressionTags.Find | mini_ema/ui/chat_ui.py:68 | `re.search` for one key. Its meaning is stated by `FindIsFirstMatch`, `FindNone`, `FindLeftmost`, `FindLowerWord` and `FindExtend`. |
| ExpressionTags.FindLowerWord | mini_ema/ui/chat_ui.py:68-75 | Whatever the search finds is a non-empty lower-case word. |
| ExpressionTags.ParseExpressionAndAction | mini_ema/ui/chat_ui.py:54-77 | The expression and the action are always non-empty lower-case words, a found one or the default. Which word is chosen is stated by `ParseLeftmostTags` and `NoCloseDefaults`. |
| ExpressionTags.FindIsFirstMatch | mini_ema/ui/chat_ui.py:68 | The search returns the first position's anchored match, scanning left to right. |
| ExpressionTags.FindNone | mini_ema/ui/chat_ui.py:68-69 | The search finds nothing exactly when no position holds a complete tag. |
| ExpressionTags.FindLeftmost | mini_ema/ui/chat_ui.py:68-70 | The search returns the lower-cased word of the leftmost complete tag. |
| ExpressionTags.ParseLeftmostTags | mini_ema/ui/chat_ui.py:54-77 | The expression is "neutral" when no complete expression tag is present. Otherwise it is the lower-cased word of the leftmost one, with the key matched case-insensitively. The action is found the same way, independently, with default "none". |
| ExpressionTags.NoCloseDefaults | mini_ema/ui/chat_ui.py:63-75 | Content without a closing `]` holds no complete tag and parses to `("neutral", "none")`. |
| ExpressionTags.FindExtend | mini_ema/ui/chat_ui.py:68-75 | Once a text holds a complete tag, appending any text leaves the found word unchanged. |
| ExpressionTags.FindOwnTag | mini_ema/ui/chat_ui.py:68-75 | A tag written as `[Name: word]` with a lower-case word is found under its own key, with that word. |
| ExpressionTags.ForeignTag | mini_ema/ui/chat_ui.py:68-75 | A tag with the other key's name is invisible to this key's search. |
| ExpressionTags.ClosedBy | mini_ema/ui/chat_ui.py:68-75 | After a closing character such as `)` that no tag can contain, bracket-free text leaves the search result unchanged. |
| ExpressionTags.FindJoin | mini_ema/ui/chat_ui.py:68-75 | When every part but the last is sealed, searching a bracket-free-separated join finds the first part that holds a tag. |
| ExpressionTags.LeadingTags | mini_ema/ui/chat_ui.py:68-75 | Text that begins `[Expression: e] [Action: a]` parses to `(e, a)`, whatever follows. |
| ChatUi.UserMessage | mini_ema/ui/chat_ui.py:42-52 | Returns the empty string and the history with exactly one user entry appended. The earlier entries are unchanged. |
| ChatUi.TextsOfFromItems | mini_ema/ui/chat_ui.py:125-128 | The texts collected from list content are exactly those of its text items, and there are no more of them than items. |
| ChatUi.UserText | mini_ema/ui/chat_ui.py:116-131 | The user's text for each kind of last entry. Its meaning is stated by `ExtractUserText` (the loop computes it), `UserTextOfUserMessage` and `UserTextOfTextItems`. |
| ChatUi.ExtractUserText | mini_ema/ui/chat_ui.py:116-131 | The loop returns `UserText`. That is "" for an empty history and the string for string content. For list content it is the text items' texts joined by single spaces. For any other content it is the content's string form. |
| ChatUi.UserTextOfUserMessage | mini_ema/ui/chat_ui.py:116-121 | The text extracted after `_user_message` is exactly the message the user sent. |
| ChatUi.UserTextOfTextItems | mini_ema/ui/chat_ui.py:122-129 | List content made only of text items yields its texts joined by single spaces. |
| ChatUi.Lookup | mini_ema/ui/chat_ui.py:112 | Finds nothing exactly when no bot has the name. Otherwise it returns a bot registered under the name. |
| ChatUi.SelectBot | mini_ema/ui/chat_ui.py:112 | An unknown name selects the first registered bot. A known name selects a bot registered under it. |
| ChatUi.SelectRegistered | mini_ema/ui/chat_ui.py:112 | With distinct names, a registered name selects exactly its own bot. |
| ChatUi.StreamLength | mini_ema/ui/chat_ui.py:136-161 | A reply yields one frame per character plus one per segment. So an empty segment still yields once. |
| ChatUi.CharFrameAt | mini_ema/ui/chat_ui.py:147-154 | After k characters the last bubble holds the first k characters of the segment, and the frame shows their parse. |
| ChatUi.StreamKeepsBase | mini_ema/ui/chat_ui.py:136-161 | Every frame keeps the history the reply started from, and holds one to `len(segments)` new bubbles after it. |
| ChatUi.ExpressionSettles | mini_ema/ui/chat_ui.py:147-154 | Once the streamed prefix holds a complete expression (or action) tag, every later frame of the segment shows the same expression (or action). |
| ChatUi.Chat.constructor | mini_ema/ui/chat_ui.py:136-149 | The chat history Gradio passes in, a list the streaming loop appends to and edits in place, starts with the given entries. |
| ChatUi.ChatUI.constructor | mini_ema/ui/chat_ui.py:30-40 | Keeps the bot registry and starts with expression "neutral" and action "none". |
| ChatUi.ChatUI.StreamSegment | mini_ema/ui/chat_ui.py:136-161 | Appends one assistant bubble, copying the metadata only when present. It grows the bubble one character per frame and ends with the full content. Afterwards the current expression and action are the parse of that content. |
| ChatUi.ChatUI.StreamReply | mini_ema/ui/chat_ui.py:136-161 | Appends one finished bubble per segment, in order, and yields the frames of each segment in turn. Afterwards the current expression and action come from the last segment, or are unchanged for an empty reply. |
| ChatUi.ChatUI.BotResponse | mini_ema/ui/chat_ui.py:100-161 | Asks the selected bot about the extracted user text and streams its segments as `StreamReply` does. |
| BareGeminiBot.TokenFields | mini_ema/bot/bare_gemini_bot.py:140-147 | The token fields are Prompt, Response, then Thoughts exactly when the count is non-zero, then Total. |
| BareGeminiBot.FormatUsageLog | mini_ema/bot/bare_gemini_bot.py:118-150 | `_format_usage_log`. Its meaning is stated by `TokenFields`, `UsageLogFields` and `UsageLogPrefix`. |
| BareGeminiBot.UsageLogFields | mini_ema/bot/bare_gemini_bot.py:131-150 | The log is one list separated by a spaced vertical bar: Model, Finish, then, with usage, the token fields in order. |
| BareGeminiBot.UsageLogPrefix | mini_ema/bot/bare_gemini_bot.py:131-150 | The log always begins with the Model field, the separator and the Finish field, and is exactly that without usage. |
| BareGeminiBot.GetResponse | mini_ema/bot/bare_gemini_bot.py:63-116 | The username defaults to "Phoenix". Sends exactly the message, ignoring the username, and answers with one assistant segment. On success the title is the answer title and the log is present, and only then. The content is the response text and the log is the usage log of the capitalised finish reason. API errors and other errors give their titled segments. |
| PrettyGeminiBot.NamesAreLowerWords | mini_ema/bot/pretty_gemini_bot.py:19-24 | Every declared expression and action name is a lower-case word. |
| PrettyGeminiBot.Indicators | mini_ema/bot/pretty_gemini_bot.py:184-188 | The expression tag appears exactly when the expression is not neutral, and the action tag exactly when the action is not none, expression first. |
| PrettyGeminiBot.Parts | mini_ema/bot/pretty_gemini_bot.py:177-195 | The parts are the thoughts as `*(think)*`, the indicators joined by one space, and the speech, in that order. Each is present exactly when non-empty, and none is empty. |
| PrettyGeminiBot.FormatMessage | mini_ema/bot/pretty_gemini_bot.py:168-197 | `_format_message`: the parts joined by blank lines. Its meaning is stated by `Parts`, `FormatMessageEmpty`, `FormatMessageFull`, `FormatMessageFind` and `FormatMessageParses`. |
| PrettyGeminiBot.FormatMessageEmpty | mini_ema/bot/pretty_gemini_bot.py:168-197 | The rendering is empty exactly when thoughts and speech are empty and the expression and action are the defaults. |
| PrettyGeminiBot.FormatMessageFull | mini_ema/bot/pretty_gemini_bot.py:168-197 | With every part present, the rendering is thoughts, then both tags on one line, then speech, separated by blank lines. |
| PrettyGeminiBot.FormatMessageFind | mini_ema/bot/pretty_gemini_bot.py:177-197 | When thoughts and speech hold no tag, each key's search on the rendering finds exactly the indicator tag, if there is one. |
| PrettyGeminiBot.FormatMessageParses | mini_ema/bot/pretty_gemini_bot.py:168-197 | When thoughts and speech hold no tag, the chat UI's parser applied to the rendering returns the message's expression and action, with neutral and none recovered as the defaults. |
| PrettyGeminiBot.GetEmoji | mini_ema/bot/pretty_gemini_bot.py:199-216 | A mapped expression gives its emoji, and anything else gives the speech balloon. |
| PrettyGeminiBot.EmojisDistinct | mini_ema/bot/pretty_gemini_bot.py:208-215 | The six expressions are all mapped to six different emojis, none of them the default. |
| PrettyGeminiBot.Prompt | mini_ema/bot/pretty_gemini_bot.py:114 | The prompt's length is that of the fixed tags plus the username and the message. |
| PrettyGeminiBot.PromptInjective | mini_ema/bot/pretty_gemini_bot.py:114 | For usernames without '<', the prompt determines the username and the message. |
| PrettyGeminiBot.GetResponse | mini_ema/bot/pretty_gemini_bot.py:98-166 | The username defaults to "Phoenix". Sends the tagged prompt and answers with one assistant segment. On success the title is the answer title and the log is present, and only then. The content is the rendered message and the log is the plain-text usage log. API errors and other errors give their titled segments. |
| GeminiBot.PartTexts | mini_ema/bot/gemini_bot.py:69-73 | The non-empty part texts concatenated in order. Its meaning is stated by `PartTextsAppend`, `PartTextsSkipEmpty` and `ConcatPartTexts`. |
| GeminiBot.PartTextsAppend | mini_ema/bot/gemini_bot.py:69-73 | The text of two part lists is the concatenation of their texts. |
| GeminiBot.PartTextsSkipEmpty | mini_ema/bot/gemini_bot.py:71-73 | A part with no text or empty text contributes nothing, wherever it stands. |
| GeminiBot.ConcatPartTexts | mini_ema/bot/gemini_bot.py:69-73 | The loop yields the in-order concatenation of the non-empty part texts. |
| GeminiBot.UsageListItems | mini_ema/bot/gemini_bot.py:145-155 | The items are "<li>Prompt: N</li>", then "<li>Response: N</li>", then "<li>Thinking: N</li>" only when the thinking count is non-zero, and last "<li><strong>Total: N</strong></li>", each with its own count. That makes four items or three. |
| GeminiBot.UsageHtmlItems | mini_ema/bot/gemini_bot.py:132-157 | The fragments are Finish Reason, then Model, then nothing more without usage. With usage they continue with the header, the list opener, the list items and the list closer. |
| GeminiBot.FormatUsageHtml | mini_ema/bot/gemini_bot.py:121-159 | The step-by-step appends produce those fragments joined by `<br>`. |
| GeminiBot.UsageHtmlHead | mini_ema/bot/gemini_bot.py:132-138 | The HTML log begins with the finish-reason item, `<br>`, then the model item, and is exactly that without usage. |
| GeminiBot.UsageHtmlTail | mini_ema/bot/gemini_bot.py:141-159 | With usage, the HTML log ends by closing the list. |
| GeminiBot.GetResponse | mini_ema/bot/gemini_bot.py:44-119 | Sends the message to the configured model (the call receives both) and answers with exactly one assistant segment. With a candidate whose content and parts are present, the segment holds the first candidate's concatenated text and the HTML log, where a missing finish reason reads "UNKNOWN" and a missing model version is the configured model. A first candidate with no content, or with content but no parts, raises inside the `try`, so the segment is the "❌ Error" one with the Python message of that exception. The title is the answer title exactly when text and log were produced. With no candidate (None or empty) it is the apology titled "⚠️ Error". API errors and other errors give their titled segments. |
| GeminiBot.TitlesDistinct | mini_ema/bot/gemini_bot.py:88-118 | The no-candidate title differs from the answer and error titles. |
| SimpleBot.RepliesText | mini_ema/bot/simple_bot.py:30-39 | The two fixed replies, spelled out. |
| SimpleBot.GetResponse | mini_ema/bot/simple_bot.py:19-39 | The username defaults to "Phoenix". Exactly two assistant segments titled with the answer title, the smile/wave reply first and the neutral/none reply second. |
| SimpleBot.ResponseIgnoresInput | mini_ema/bot/simple_bot.py:19-39 | The replies do not depend on the message or the username. |
| SimpleBot.RepliesParse | mini_ema/bot/simple_bot.py:30-39 | The chat UI's parser reads ("smile", "wave") from the first reply and ("neutral", "none") from the second. |
| AdvancedBot.CountUsers | examples/advanced_bot_example.py:41 | The number of user entries is at most the number of entries. |
| AdvancedBot.CountUsersIsUserPositions | examples/advanced_bot_example.py:41 | The count is the number of positions holding a user entry. |
| AdvancedBot.CountUsersAppend | examples/advanced_bot_example.py:41 | Counting distributes over concatenation. |
| AdvancedBot.AdvancedBot.constructor | examples/advanced_bot_example.py:19-25 | Records whether thinking titles are shown. |
| AdvancedBot.AdvancedBot.GetResponse | examples/advanced_bot_example.py:27-84 | The replies, in order, are: the acknowledgement quoting the message exactly when thinking is shown; always the context reply for the number of user entries, with a missing history counting as empty; then the greeting reply for a greeting, else the question reply for a question. That makes 1 to 3 replies, all assistant. With thinking off, every metadata is None. |
| AdvancedBot.IsGreeting | examples/advanced_bot_example.py:71 | "你好" in the message, or "hello" in the lower-cased message. Its effect, the greeting reply taking priority, is stated by `AdvancedBot.AdvancedBot.GetResponse`. |
| AdvancedBot.IsQuestion | examples/advanced_bot_example.py:77 | "?", "？" or "吗" in the message. Its effect, the question reply when there is no greeting, is stated by `AdvancedBot.AdvancedBot.GetResponse`. |
| AdvancedBot.ContextContent | examples/advanced_bot_example.py:54-62 | The context reply for a count of user messages. Its meaning is stated by `ContextBands`, `ContextAfterUserMessage` and `AdvancedBot.AdvancedBot.GetResponse`. |
| AdvancedBot.ContextNote | examples/advanced_bot_example.py:54-62 | The thinking note that goes with the context reply. Its use is stated by `AdvancedBot.AdvancedBot.GetResponse`. |
| AdvancedBot.Acknowledgement | examples/advanced_bot_example.py:46-51 | The acknowledgement quoting the message, titled "💭 Thinking: 分析用户输入". `AdvancedBot.AdvancedBot.GetResponse` states that it comes first exactly when thinking is shown. |
| AdvancedBot.Thinking | examples/advanced_bot_example.py:64-82 | The later replies' metadata: a thinking title when thinking is shown, else None. `AdvancedBot.AdvancedBot.GetResponse` states that every metadata is None with thinking off. |
| AdvancedBot.ContextBands | examples/advanced_bot_example.py:54-62 | Count 0 gives the first-conversation reply, counts of 3 and more all give the long-history reply, and counts 1 and 2 give different replies. |
| AdvancedBot.ContextAfterUserMessage | examples/advanced_bot_example.py:41-58 | One more user entry adds one to the count, so after a first message the reply is the "第 2 次" text. |

## Left out

- The Gradio interface (`create_interface`, `launch`, the event wiring and `clear_chat`): UI framework plumbing.
- The pacing delay `time.sleep(streaming_delay)`: presentation timing. It has no effect on the frames.
- `_get_expression_image_path`: a filesystem lookup. Frames record the parsed expression and action instead of the picture path.
- The lock in `ConversationHistory`: concurrency is not modelled; each method is one atomic step.
- The Gemini SDK itself: clients, chat sessions (`chats.create`), `send_message`, `generate_content`, pydantic parsing and the thinking-level configuration. A call is a function from the text sent to an `Outcome`.
- The bots' constructors and their API-key `ValueError`: environment configuration.
- `BareGeminiBot.clear` and `PrettyGeminiBot.clear`: the chat session they replace belongs to the SDK, which is not modelled.
- `SimpleBot.clear`: a no-op on a bot without state. There is nothing to model.
- `BaseBot` as a common interface: a bot is the function `ChatUi.Responder` from the user's text and name to its segments.
- The calls to the UI: the UI calls every bot with the message and a username. `GeminiBot.get_response` takes only the message, and `AdvancedBot.get_response` expects a history where the username is passed. The entry point passes a single bot where the UI expects a registry. Each part is modelled against its own signature.
- The history store that the tests import from `mini_ema.bot.pretty_gemini_bot`, which trims on every append and is configured from the environment, is not part of this model. `History.TrimOnWrite` shows that its answers to requests of at most `max_rounds` rounds match this store's. Larger requests, `__len__` and `get_all_messages` differ, because this store keeps every message.
- Unicode: `\s`, `\w`, `str.lower` and `str.capitalize` are modelled on ASCII only. Unicode case folding under `re.IGNORECASE` is not modelled either.
- `ChatUi.SelectBot`: requires a non-empty registry, because the source's fallback `next(iter(...))` raises on an empty one.
- `ChatUi.ChatUI.StreamSegment`: models the history as a sequence reassigned per character. Aliasing of the yielded list with Gradio's copy is not modelled.
- `BareGeminiBot.GetResponse` and `PrettyGeminiBot.GetResponse`: an exception raised while reading the response (no candidates, no parsed message) is folded into the `Failure` outcome, with an abstract message. A `None` response text is not modelled.
- `GeminiBot.GetResponse`: the finish reason and model version are taken as their rendered strings. Of the exceptions raised while reading a response, only the missing content and the missing parts of the first candidate are modelled; any other is folded into the `Failure` outcome. The `hasattr` checks on the usage object always hold for the SDK's type, so the Prompt, Response and Total items are always present.
- `PrettyGeminiBot.PromptInjective`: assumes the usernames contain no '<'. Without that, different username and message pairs can give the same prompt.
- `PrettyGeminiBot.FormatMessageParses`: assumes the thoughts and speech hold no complete tag. A tag in the thoughts would be found first.
- The branch `max_messages == 0` in `get_recent_messages` cannot be taken once the settings are clamped, so it has no counterpart.
