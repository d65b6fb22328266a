/**
 * The round-oriented message store `ConversationHistory`. Each method runs under
 * one lock in the source, so each is modelled as one atomic step on the
 * `messages` field. The store only grows by `AddMessages`; the round limit
 * bounds the view `GetRecentMessages` returns, never what is stored.
 */
module History {
  import opened Optional

  /** A setting clamped to at least one. */
  type Positive = n: nat | 1 <= n witness 1

  function Min(a: nat, b: nat): nat {
    if a <= b then a else b
  }

  /**
   * The view of the last `rounds` rounds: `h[-(rounds * perRound):]`, or nothing
   * when `rounds` is zero or the history is empty. A negative Python slice start
   * that reaches past the front stops at the front.
   */
  function Recent<T>(h: seq<T>, rounds: nat, perRound: Positive): (r: seq<T>)
    ensures |r| == Min(|h|, rounds * perRound)
    ensures r == h[|h| - |r|..]
  {
    if rounds == 0 then []
    else
      var maxMessages := rounds * perRound;
      if |h| == 0 then []
      else if maxMessages >= |h| then h
      else h[|h| - maxMessages..]
  }

  /** A suffix of a suffix is a suffix: the shorter one. */
  lemma SuffixOfSuffix<T>(h: seq<T>, n: nat, m: nat)
    requires n <= m <= |h|
    ensures h[|h| - m..][m - n..] == h[|h| - n..]
  {
  }

  /**
   * Dropping everything a view of `window` rounds cannot show before appending
   * changes no later view of at most `window` rounds: a store that trimmed
   * itself to `window` rounds on every append shows the same recent messages as
   * this extend-only store for every such request. Larger requests, the length
   * and the full list can differ.
   */
  lemma {:induction false} RecentAfterTrim<T>(h: seq<T>, batch: seq<T>, window: nat, rounds: nat, perRound: Positive)
    requires rounds <= window
    ensures Recent(Recent(h, window, perRound) + batch, rounds, perRound) == Recent(h + batch, rounds, perRound)
  {
    var w := Recent(h, window, perRound);
    var full := h + batch;
    var trimmed := w + batch;
    var cap := window * perRound;
    var n := Min(|full|, rounds * perRound);
    MulMono(rounds, window, perRound);
    if |h| <= cap {
      assert w == h;
    } else {
      assert |w| == cap;
      assert trimmed == full[|full| - |trimmed|..] by {
        assert h[|h| - |w|..] + batch == (h + batch)[|h| - |w|..];
      }
      SuffixOfSuffix(full, n, |trimmed|);
    }
  }

  lemma MulMono(a: nat, b: nat, c: nat)
    requires a <= b
    ensures a * c <= b * c
  {
  }

  /** A view of at most `window` rounds sees only what a view of `window` rounds shows. */
  lemma RecentWithinWindow<T>(h: seq<T>, window: nat, rounds: nat, perRound: Positive)
    requires rounds <= window
    ensures Recent(Recent(h, window, perRound), rounds, perRound) == Recent(h, rounds, perRound)
  {
    MulMono(rounds, window, perRound);
    var w := Recent(h, window, perRound);
    var n := Min(|h|, rounds * perRound);
    SuffixOfSuffix(h, n, |w|);
  }

  /**
   * A store that trims itself to its last `window` rounds after every append.
   * If it holds the `window`-round view of this extend-only store, it still does
   * after both take the same batch. Every request of at most `window` rounds then
   * gets the same answer from both stores.
   */
  lemma TrimOnWrite<T>(trimmed: seq<T>, h: seq<T>, batch: seq<T>, window: nat, rounds: nat, perRound: Positive)
    requires trimmed == Recent(h, window, perRound) && rounds <= window
    ensures Recent(trimmed + batch, window, perRound) == Recent(h + batch, window, perRound)
    ensures Recent(Recent(trimmed + batch, window, perRound), rounds, perRound) == Recent(h + batch, rounds, perRound)
  {
    RecentAfterTrim(h, batch, window, window, perRound);
    RecentWithinWindow(h + batch, window, rounds, perRound);
  }

  /**
   * A request larger than the trimming window tells the two stores apart: with
   * two messages per round and a one-round window, appending [3, 4] to [1, 2]
   * leaves the trimming store holding [3, 4], so a two-round request shows only
   * that, while this store shows all four messages.
   */
  lemma TrimShowsLess()
    ensures Recent([1, 2] + [3, 4], 1, 2) == [3, 4]
    ensures Recent(Recent([1, 2] + [3, 4], 1, 2), 2, 2) == [3, 4]
    ensures Recent([1, 2] + [3, 4], 2, 2) == [1, 2, 3, 4]
  {
    assert [1, 2] + [3, 4] == [1, 2, 3, 4];
  }

  /** Appending a batch at least a window long leaves only that batch in view. */
  lemma {:induction false} RecentOfLongBatch<T>(h: seq<T>, batch: seq<T>, rounds: nat, perRound: Positive)
    requires rounds * perRound <= |batch|
    ensures Recent(h + batch, rounds, perRound) == Recent(batch, rounds, perRound)
  {
    var n := rounds * perRound;
    assert (h + batch)[|h + batch| - n..] == batch[|batch| - n..];
  }

  class ConversationHistory<T> {
    /** The stored messages, oldest first. */
    var messages: seq<T>
    /** The default number of rounds the view shows, clamped to at least zero. */
    const maxRounds: nat
    /** The number of messages in one round, clamped to at least one. */
    const messagesPerRound: Positive

    constructor (maxRounds: int := 10, messagesPerRound: int := 2)
      ensures this.maxRounds == if maxRounds < 0 then 0 else maxRounds
      ensures this.messagesPerRound == if messagesPerRound < 1 then 1 else messagesPerRound
      ensures messages == []
    {
      this.maxRounds := if maxRounds < 0 then 0 else maxRounds;
      this.messagesPerRound := if messagesPerRound < 1 then 1 else messagesPerRound;
      messages := [];
    }

    /** Extends the store with a batch, in order; nothing is removed. */
    method AddMessages(batch: seq<T>)
      modifies this
      ensures messages == old(messages) + batch
    {
      messages := messages + batch;
    }

    /** The rounds a request asks for: the configured default when none, and never negative. */
    function EffectiveRounds(rounds: Option<int>): (n: nat)
      reads this
      ensures rounds.None? ==> n == maxRounds
      ensures rounds.Some? ==> n == if rounds.value < 0 then 0 else rounds.value
    {
      match rounds
      case None => maxRounds
      case Some(k) => if k < 0 then 0 else k
    }

    /** The last `EffectiveRounds(rounds)` rounds of messages, oldest first; the store is untouched. */
    method GetRecentMessages(rounds: Option<int>) returns (r: seq<T>)
      ensures r == Recent(messages, EffectiveRounds(rounds), messagesPerRound)
    {
      var n := EffectiveRounds(rounds);
      if n == 0 {
        return [];
      }
      var maxMessages := n * messagesPerRound;
      if |messages| == 0 {
        r := [];
      } else if maxMessages >= |messages| {
        r := messages;
      } else {
        r := messages[|messages| - maxMessages..];
      }
    }

    /** Empties the store. */
    method Clear()
      modifies this
      ensures messages == []
    {
      messages := [];
    }

    /** A copy of every stored message. */
    method GetAllMessages() returns (r: seq<T>)
      ensures r == messages
    {
      r := messages;
    }

    /** The number of stored messages. */
    method Length() returns (n: nat)
      ensures n == |messages|
    {
      n := |messages|;
    }
  }

  /**
   * A session of the store: after `AddMessages(a)` and `AddMessages(b)`, the view
   * of one round is the last `messagesPerRound` messages of `a + b`; after
   * `Clear` the view is empty and the length is zero.
   */
  method Session<T>(a: seq<T>, b: seq<T>, perRound: int) returns (view: seq<T>, cleared: seq<T>, size: nat)
    ensures var p := if perRound < 1 then 1 else perRound;
            view == (a + b)[|a + b| - Min(|a + b|, p)..]
    ensures cleared == [] && size == 0
  {
    var store := new ConversationHistory<T>(messagesPerRound := perRound);
    store.AddMessages(a);
    store.AddMessages(b);
    view := store.GetRecentMessages(Some(1));
    store.Clear();
    cleared := store.GetRecentMessages(None);
    size := store.Length();
  }
}
