/**
 * The message dictionaries exchanged between the bots, the chat UI and the
 * conversation history, as values.
 */
module Messages {
  import opened Optional

  datatype Role = User | Assistant

  /** The `metadata` dictionary of a message: a title and an optional log. */
  datatype Meta = Meta(title: string, log: Option<string>)

  /**
   * The `metadata` key of a message dictionary: absent, present but `None`,
   * or present with a dictionary.
   */
  datatype MetaField = NoMeta | NullMeta | HasMeta(meta: Meta)

  /** One dictionary yielded by a bot: `{"role", "content"?, "metadata"?}`. */
  datatype Segment = Segment(role: Role, content: Option<string>, metadata: MetaField)

  /** An element of list-valued chat content: a dict with a "text" key, or anything else. */
  datatype Item = TextItem(text: string) | OtherItem

  /** The content of a chat-history entry: a string, a list of items, or another object (shown by `str`). */
  datatype Content = Text(text: string) | Items(items: seq<Item>) | Shown(repr: string)

  /** One entry of the chat history the UI holds: `{"role", "content", "metadata"?}`. */
  datatype Entry = Entry(role: Role, content: Content, metadata: MetaField)

  /** An assistant segment whose metadata holds only a title. */
  function Titled(content: string, title: string): Segment {
    Segment(Assistant, Some(content), HasMeta(Meta(title, None)))
  }

  /** An assistant segment whose metadata holds a title and a log. */
  function Logged(content: string, title: string, log: string): Segment {
    Segment(Assistant, Some(content), HasMeta(Meta(title, Some(log))))
  }
}
