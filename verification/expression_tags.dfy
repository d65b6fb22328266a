/**
 * The chat UI's tag parser: a case-insensitive regular-expression search for
 * `\[Expression:\s*(\w+)\]` (and the same for `Action`), whose captured word is
 * then lower-cased.
 *
 * At a fixed start position the pattern matches deterministically: `\s*` and
 * `\w+` are greedy over disjoint classes and `]` is in neither, so backtracking
 * never finds another match. `TagAtStart` is therefore the anchored match, and
 * `Find` is the search: the match at the leftmost position where there is one.
 * Keys are held lower-case; the text under a key is lower-cased before comparison.
 */
module ExpressionTags {
  import opened Optional
  import opened Text

  const ExpressionKey: string := "[expression:"
  const ActionKey: string := "[action:"

  predicate IsKey(key: string) {
    key == ExpressionKey || key == ActionKey
  }

  // ---------------------------------------------------------------------------
  // The anchored match
  // ---------------------------------------------------------------------------

  /** Length of the longest prefix of `u` whose characters all satisfy `p`. */
  function Span(u: string, p: char -> bool): (n: nat)
    ensures n <= |u|
    decreases |u|
  {
    if u == [] || !p(u[0]) then 0 else 1 + Span(u[1..], p)
  }

  lemma {:induction false} SpanAppend(x: string, y: string, p: char -> bool)
    ensures Span(x + y, p) == if Span(x, p) < |x| then Span(x, p) else |x| + Span(y, p)
    decreases |x|
  {
    if x == [] {
      assert x + y == y;
    } else if p(x[0]) {
      SpanAppend(x[1..], y, p);
      assert (x + y)[1..] == x[1..] + y;
    }
  }

  lemma {:induction false} SpanAll(x: string, p: char -> bool)
    requires forall i :: 0 <= i < |x| ==> p(x[i])
    ensures Span(x, p) == |x|
    decreases |x|
  {
    if x != [] {
      SpanAll(x[1..], p);
    }
  }

  /** Every character of the span satisfies `p`. */
  lemma {:induction false} SpanPrefix(u: string, p: char -> bool)
    ensures forall i :: 0 <= i < Span(u, p) ==> p(u[i])
    decreases |u|
  {
    if u != [] && p(u[0]) {
      SpanPrefix(u[1..], p);
      assert forall i :: 1 <= i < Span(u, p) ==> u[i] == u[1..][i - 1];
    }
  }

  /** The first `|key|` characters of `u`, lower-cased, are the key. */
  predicate KeyAt(u: string, key: string) {
    |key| <= |u| && Lower(u[..|key|]) == key
  }

  /** Where the captured word starts: after the key and the spaces after it. */
  function WordStart(u: string, key: string): (a: nat)
    requires |key| <= |u|
    ensures |key| <= a <= |u|
  {
    |key| + Span(u[|key|..], IsSpace)
  }

  /** Where the captured word ends: the index that must hold ']'. */
  function WordEnd(u: string, key: string): (b: nat)
    requires |key| <= |u|
    ensures WordStart(u, key) <= b <= |u|
  {
    WordStart(u, key) + Span(u[WordStart(u, key)..], IsWord)
  }

  /** The pattern anchored at the start of `u`: the lower-cased word of a complete tag, if any. */
  function TagAtStart(u: string, key: string): Option<string> {
    if KeyAt(u, key) then
      var a := WordStart(u, key);
      var b := WordEnd(u, key);
      if a < b < |u| && u[b] == ']' then Some(Lower(u[a..b])) else None
    else None
  }

  /** A match captures a non-empty run of word characters and lower-cases it. */
  lemma TagIsLowerWord(u: string, key: string)
    ensures TagAtStart(u, key).Some? ==> IsLowerWord(TagAtStart(u, key).value)
  {
    if TagAtStart(u, key).Some? {
      var a := WordStart(u, key);
      var b := WordEnd(u, key);
      SpanPrefix(u[a..], IsWord);
      assert forall i :: a <= i < b ==> IsWord(u[i]) by {
        assert forall i :: a <= i < b ==> u[i] == u[a..][i - a];
      }
    }
  }

  // ---------------------------------------------------------------------------
  // The search
  // ---------------------------------------------------------------------------

  /** The anchored match at every position of `s`, in order. */
  function Matches(s: string, key: string): (ms: seq<Option<string>>)
    ensures |ms| == |s|
  {
    if s == [] then [] else [TagAtStart(s, key)] + Matches(s[1..], key)
  }

  lemma {:induction false} MatchesIndex(s: string, key: string, j: nat)
    requires j < |s|
    ensures Matches(s, key)[j] == TagAtStart(s[j..], key)
  {
    if j > 0 {
      MatchesIndex(s[1..], key, j - 1);
      assert s[1..][j - 1..] == s[j..];
    }
  }

  /** The first present value of `ms`. */
  function FirstSome<T>(ms: seq<Option<T>>): Option<T> {
    if ms == [] then None
    else if ms[0].Some? then ms[0]
    else FirstSome(ms[1..])
  }

  lemma {:induction false} FirstSomeNone<T>(ms: seq<Option<T>>)
    ensures FirstSome(ms).None? <==> forall j :: 0 <= j < |ms| ==> ms[j].None?
  {
    if ms != [] && ms[0].None? {
      FirstSomeNone(ms[1..]);
      assert forall j :: 0 < j < |ms| ==> ms[j] == ms[1..][j - 1];
    }
  }

  lemma {:induction false} FirstSomeLeftmost<T>(ms: seq<Option<T>>, j: nat)
    requires j < |ms| && ms[j].Some?
    requires forall k :: 0 <= k < j ==> ms[k].None?
    ensures FirstSome(ms) == ms[j]
  {
    if j > 0 {
      FirstSomeLeftmost(ms[1..], j - 1);
    }
  }

  lemma {:induction false} FirstSomeWitness<T>(ms: seq<Option<T>>) returns (j: nat)
    requires FirstSome(ms).Some?
    ensures j < |ms| && ms[j] == FirstSome(ms)
    ensures forall k :: 0 <= k < j ==> ms[k].None?
  {
    if ms[0].Some? {
      j := 0;
    } else {
      var i := FirstSomeWitness(ms[1..]);
      j := i + 1;
      assert forall k :: 0 < k < j ==> ms[k] == ms[1..][k - 1];
    }
  }

  lemma {:induction false} FirstSomeAppend<T>(a: seq<Option<T>>, b: seq<Option<T>>)
    ensures FirstSome(a + b) == if FirstSome(a).Some? then FirstSome(a) else FirstSome(b)
  {
    if a == [] {
      assert a + b == b;
    } else {
      FirstSomeAppend(a[1..], b);
      assert (a + b)[1..] == a[1..] + b;
    }
  }

  /** The search: the anchored match here, or else the search from the next position. */
  function Find(s: string, key: string): Option<string> {
    if s == [] then None
    else if TagAtStart(s, key).Some? then TagAtStart(s, key)
    else Find(s[1..], key)
  }

  /** The search is the first present value among the anchored matches. */
  lemma {:induction false} FindIsFirstMatch(s: string, key: string)
    ensures Find(s, key) == FirstSome(Matches(s, key))
  {
    if s != [] {
      FindIsFirstMatch(s[1..], key);
      assert Matches(s, key)[1..] == Matches(s[1..], key);
    }
  }

  /** Nothing is found exactly when no position matches. */
  lemma {:induction false} FindNone(s: string, key: string)
    ensures Find(s, key).None? <==> forall j :: 0 <= j < |s| ==> TagAtStart(s[j..], key).None?
  {
    FindIsFirstMatch(s, key);
    FirstSomeNone(Matches(s, key));
    forall j | 0 <= j < |s|
      ensures Matches(s, key)[j] == TagAtStart(s[j..], key)
    {
      MatchesIndex(s, key, j);
    }
  }

  /** What is found is the match at the leftmost matching position. */
  lemma {:induction false} FindLeftmost(s: string, key: string, j: nat)
    requires j < |s| && TagAtStart(s[j..], key).Some?
    requires forall k :: 0 <= k < j ==> TagAtStart(s[k..], key).None?
    ensures Find(s, key) == TagAtStart(s[j..], key)
  {
    FindIsFirstMatch(s, key);
    forall k | 0 <= k <= j
      ensures Matches(s, key)[k] == TagAtStart(s[k..], key)
    {
      MatchesIndex(s, key, k);
    }
    FirstSomeLeftmost(Matches(s, key), j);
  }

  /** Whatever the search finds is a lower-case word. */
  lemma {:induction false} FindLowerWord(s: string, key: string)
    ensures Find(s, key).Some? ==> IsLowerWord(Find(s, key).value)
  {
    if s != [] {
      TagIsLowerWord(s, key);
      FindLowerWord(s[1..], key);
    }
  }

  /**
   * The chat UI's `_parse_expression_and_action`: the word of the leftmost
   * complete `[Expression: w]` tag, else "neutral"; and independently the word
   * of the leftmost `[Action: w]` tag, else "none".
   */
  function ParseExpressionAndAction(content: string): (r: (string, string))
    ensures IsLowerWord(r.0) && IsLowerWord(r.1)
  {
    FindLowerWord(content, ExpressionKey);
    FindLowerWord(content, ActionKey);
    (Find(content, ExpressionKey).GetOr("neutral"), Find(content, ActionKey).GetOr("none"))
  }

  /** The parse in terms of the anchored matches: the defaults without one, else the leftmost. */
  lemma {:induction false} ParseLeftmostTags(content: string)
    ensures (forall j :: 0 <= j < |content| ==> TagAtStart(content[j..], ExpressionKey).None?) ==>
              ParseExpressionAndAction(content).0 == "neutral"
    ensures (forall j :: 0 <= j < |content| ==> TagAtStart(content[j..], ActionKey).None?) ==>
              ParseExpressionAndAction(content).1 == "none"
    ensures forall j :: 0 <= j < |content| && TagAtStart(content[j..], ExpressionKey).Some? &&
                        (forall k :: 0 <= k < j ==> TagAtStart(content[k..], ExpressionKey).None?)
                        ==> ParseExpressionAndAction(content).0 == TagAtStart(content[j..], ExpressionKey).value
    ensures forall j :: 0 <= j < |content| && TagAtStart(content[j..], ActionKey).Some? &&
                        (forall k :: 0 <= k < j ==> TagAtStart(content[k..], ActionKey).None?)
                        ==> ParseExpressionAndAction(content).1 == TagAtStart(content[j..], ActionKey).value
  {
    FindNone(content, ExpressionKey);
    FindNone(content, ActionKey);
    forall j | 0 <= j < |content| && TagAtStart(content[j..], ExpressionKey).Some? &&
               (forall k :: 0 <= k < j ==> TagAtStart(content[k..], ExpressionKey).None?)
      ensures Find(content, ExpressionKey) == TagAtStart(content[j..], ExpressionKey)
    {
      FindLeftmost(content, ExpressionKey, j);
    }
    forall j | 0 <= j < |content| && TagAtStart(content[j..], ActionKey).Some? &&
               (forall k :: 0 <= k < j ==> TagAtStart(content[k..], ActionKey).None?)
      ensures Find(content, ActionKey) == TagAtStart(content[j..], ActionKey)
    {
      FindLeftmost(content, ActionKey, j);
    }
  }

  /** Without a closing bracket no tag is complete, so the parse is the defaults. */
  lemma {:induction false} NoCloseDefaults(content: string)
    requires ']' !in content
    ensures ParseExpressionAndAction(content) == ("neutral", "none")
  {
    forall j, key | 0 <= j < |content| && IsKey(key)
      ensures TagAtStart(content[j..], key).None?
    {
      assert ']' !in content[j..];
    }
    FindNone(content, ExpressionKey);
    FindNone(content, ActionKey);
  }

  // ---------------------------------------------------------------------------
  // When appending text cannot change the anchored match
  // ---------------------------------------------------------------------------

  /**
   * The anchored match on `u` is settled inside `u`: either the key already
   * mismatches within `u`, or the key matches and the word ends before the end of `u`.
   */
  predicate Decided(u: string, key: string) {
    if |u| < |key| then Lower(u) != key[..|u|]
    else !KeyAt(u, key) || WordEnd(u, key) < |u|
  }

  /** A character that stops both runs and differs from every key character after the '['. */
  predicate Stopper(c: char, key: string) {
    |key| > 0 && !IsSpace(c) && !IsWord(c) && LowerChar(c) !in key[1..]
  }

  lemma KeyFacts(key: string)
    requires IsKey(key)
    ensures |key| >= 2 && key[0] == '['
    ensures Stopper('[', key) && Stopper(']', key) && Stopper(')', key)
  {
  }

  /** The keys are the lower-cased openings `[Expression:` and `[Action:`. */
  lemma KeyNames()
    ensures Lower("[" + "Expression" + ":") == ExpressionKey
    ensures Lower("[" + "Action" + ":") == ActionKey
  {
  }

  lemma LowerPrefix(u: string, n: nat)
    requires n <= |u|
    ensures Lower(u)[..n] == Lower(u[..n])
  {
  }

  /** A string that does not start with '[' has no match at its start. */
  lemma {:induction false} NoBracketNoMatch(u: string, key: string)
    requires IsKey(key)
    requires |u| == 0 || u[0] != '['
    ensures TagAtStart(u, key).None?
  {
    KeyFacts(key);
    if |key| <= |u| {
      assert Lower(u[..|key|])[0] != key[0];
    }
  }

  lemma {:induction false} TagStartsWithBracket(u: string, key: string)
    requires IsKey(key)
    requires TagAtStart(u, key).Some?
    ensures |u| > 0 && u[0] == '['
  {
    KeyFacts(key);
    assert Lower(u[..|key|])[0] == key[0];
  }

  lemma {:induction false} MatchIsDecided(u: string, key: string)
    requires TagAtStart(u, key).Some?
    ensures Decided(u, key)
  {
  }

  lemma {:induction false} KeyAtAppend(u: string, z: string, key: string)
    requires |key| <= |u|
    ensures KeyAt(u + z, key) == KeyAt(u, key)
  {
    assert (u + z)[..|key|] == u[..|key|];
  }

  /** A key mismatch inside a short `u` stays a mismatch whatever follows. */
  lemma {:induction false} ShortMismatchAppend(u: string, z: string, key: string)
    requires |u| < |key| && Lower(u) != key[..|u|]
    ensures !KeyAt(u + z, key) && Decided(u + z, key)
  {
    var w := u + z;
    assert w[..|u|] == u;
    if |w| < |key| {
      LowerPrefix(w, |u|);
      assert key[..|w|][..|u|] == key[..|u|];
    } else {
      LowerPrefix(w[..|key|], |u|);
      assert w[..|key|][..|u|] == u;
      assert key[..|u|] == key[..|key|][..|u|];
    }
  }

  /** Once the word ends inside `u`, appending moves neither end of it. */
  lemma {:induction false} WordAppend(u: string, z: string, key: string)
    requires |key| <= |u| && WordEnd(u, key) < |u|
    ensures WordStart(u + z, key) == WordStart(u, key)
    ensures WordEnd(u + z, key) == WordEnd(u, key)
  {
    var w := u + z;
    var r := u[|key|..];
    assert w[|key|..] == r + z;
    SpanAppend(r, z, IsSpace);
    var a := WordStart(u, key);
    assert w[a..] == u[a..] + z;
    SpanAppend(u[a..], z, IsWord);
  }

  /** Appending to a decided string changes neither the match nor decidedness. */
  lemma {:induction false} DecidedAppend(u: string, z: string, key: string)
    requires Decided(u, key)
    ensures TagAtStart(u + z, key) == TagAtStart(u, key)
    ensures Decided(u + z, key)
  {
    if |u| < |key| {
      ShortMismatchAppend(u, z, key);
    } else {
      KeyAtAppend(u, z, key);
      if KeyAt(u, key) {
        WordAppend(u, z, key);
        var a := WordStart(u, key);
        var b := WordEnd(u, key);
        assert (u + z)[a..b] == u[a..b];
      }
    }
  }

  /** A character that is neither space nor word character bounds both runs. */
  lemma {:induction false} StopWord(v: string, c: char, z: string, key: string)
    requires |key| <= |v| && !IsSpace(c) && !IsWord(c)
    ensures WordStart(v + [c] + z, key) == WordStart(v, key)
    ensures WordEnd(v + [c] + z, key) == WordEnd(v, key)
  {
    var u := v + [c] + z;
    var r := v[|key|..];
    assert u[|key|..] == r + ([c] + z);
    SpanAppend(r, [c] + z, IsSpace);
    var a := WordStart(v, key);
    assert u[a..] == v[a..] + ([c] + z);
    SpanAppend(v[a..], [c] + z, IsWord);
  }

  /** A key-mismatching stopper inside the first `|key|` characters rules the key out. */
  lemma {:induction false} StopBreaksKey(v: string, c: char, z: string, key: string)
    requires 0 < |v| < |key| && Stopper(c, key)
    ensures !KeyAt(v + [c] + z, key) && Decided(v + [c] + z, key)
  {
    var u := v + [c] + z;
    assert u[|v|] == c;
    assert key[|v|] in key[1..];
    if |u| < |key| {
      assert Lower(u)[|v|] != key[..|u|][|v|];
    } else {
      assert Lower(u[..|key|])[|v|] != key[|v|];
    }
  }

  /** A stopper after at least one character settles the anchored match. */
  lemma {:induction false} StopDecides(v: string, c: char, z: string, key: string)
    requires |v| > 0 && Stopper(c, key)
    ensures Decided(v + [c] + z, key)
  {
    if |v| < |key| {
      StopBreaksKey(v, c, z, key);
    } else {
      KeyAtAppend(v, [c] + z, key);
      assert v + [c] + z == v + ([c] + z);
      StopWord(v, c, z, key);
    }
  }

  /** A string whose match is still open has no match at its start. */
  lemma UndecidedNone(u: string, key: string)
    requires !Decided(u, key)
    ensures TagAtStart(u, key).None?
  {
  }

  /** An undecided string followed by a stopper other than ']' has no match at its start. */
  lemma {:induction false} StopRejects(v: string, c: char, z: string, key: string)
    requires |v| > 0 && Stopper(c, key) && c != ']'
    requires !Decided(v, key)
    ensures TagAtStart(v + [c] + z, key).None?
  {
    var u := v + [c] + z;
    if |v| < |key| {
      StopBreaksKey(v, c, z, key);
    } else {
      KeyAtAppend(v, [c] + z, key);
      assert u == v + ([c] + z);
      StopWord(v, c, z, key);
      assert u[|v|] == c;
    }
  }

  // ---------------------------------------------------------------------------
  // Search over concatenations
  // ---------------------------------------------------------------------------

  /** The anchored matches at the positions of `x` when `x` is followed by `y`. */
  function MatchesBefore(x: string, y: string, key: string): (ms: seq<Option<string>>)
    ensures |ms| == |x|
  {
    if x == [] then [] else [TagAtStart(x + y, key)] + MatchesBefore(x[1..], y, key)
  }

  lemma {:induction false} MatchesBeforeIndex(x: string, y: string, key: string, j: nat)
    requires j < |x|
    ensures MatchesBefore(x, y, key)[j] == TagAtStart(x[j..] + y, key)
  {
    if j > 0 {
      MatchesBeforeIndex(x[1..], y, key, j - 1);
      assert x[1..][j - 1..] == x[j..];
    }
  }

  lemma {:induction false} MatchesConcat(x: string, y: string, key: string)
    ensures Matches(x + y, key) == MatchesBefore(x, y, key) + Matches(y, key)
  {
    if x == [] {
      assert x + y == y;
    } else {
      MatchesConcat(x[1..], y, key);
      assert (x + y)[1..] == x[1..] + y;
    }
  }

  /** Every '[' in `p` starts an anchored match that `p` itself settles. */
  predicate Sealed(p: string, key: string) {
    forall j :: 0 <= j < |p| && p[j] == '[' ==> Decided(p[j..], key)
  }

  /** Appending to a sealed string changes no match at any of its positions. */
  lemma {:induction false} SealedBefore(p: string, z: string, key: string)
    requires IsKey(key) && Sealed(p, key)
    ensures MatchesBefore(p, z, key) == Matches(p, key)
  {
    forall j | 0 <= j < |p|
      ensures MatchesBefore(p, z, key)[j] == Matches(p, key)[j]
    {
      MatchesBeforeIndex(p, z, key, j);
      MatchesIndex(p, key, j);
      if p[j] == '[' {
        DecidedAppend(p[j..], z, key);
      } else {
        NoBracketNoMatch(p[j..] + z, key);
        NoBracketNoMatch(p[j..], key);
      }
    }
  }

  /** Search over `p + z` for a sealed `p`: the tag in `p` if there is one, else the one in `z`. */
  lemma {:induction false} FindConcat(p: string, z: string, key: string)
    requires IsKey(key) && Sealed(p, key)
    ensures Find(p + z, key) == if Find(p, key).Some? then Find(p, key) else Find(z, key)
  {
    FindIsFirstMatch(p + z, key);
    FindIsFirstMatch(p, key);
    FindIsFirstMatch(z, key);
    MatchesConcat(p, z, key);
    SealedBefore(p, z, key);
    FirstSomeAppend(Matches(p, key), Matches(z, key));
  }

  /** A position before a match, or the match itself, keeps its anchored match when text is appended. */
  lemma {:induction false} KeptBefore(s: string, t: string, key: string, j: nat, k: nat)
    requires IsKey(key) && k <= j < |s| && TagAtStart(s[j..], key).Some?
    ensures TagAtStart(s[k..] + t, key) == TagAtStart(s[k..], key)
  {
    if k == j {
      MatchIsDecided(s[j..], key);
    } else {
      TagStartsWithBracket(s[j..], key);
      KeyFacts(key);
      assert s[k..] == s[k..j] + [s[j]] + s[j + 1..];
      StopDecides(s[k..j], s[j], s[j + 1..], key);
    }
    DecidedAppend(s[k..], t, key);
  }

  /** Appending to `s` changes no match up to a matching position. */
  lemma {:induction false} MatchesKept(s: string, t: string, key: string, j: nat)
    requires IsKey(key) && j < |s| && TagAtStart(s[j..], key).Some?
    ensures forall k :: 0 <= k <= j ==> MatchesBefore(s, t, key)[k] == Matches(s, key)[k]
  {
    forall k | 0 <= k <= j
      ensures MatchesBefore(s, t, key)[k] == Matches(s, key)[k]
    {
      MatchesBeforeIndex(s, t, key, k);
      MatchesIndex(s, key, k);
      KeptBefore(s, t, key, j, k);
    }
  }

  /** Once a complete tag is present, appending text does not change what is found. */
  lemma {:induction false} FindExtend(s: string, t: string, key: string)
    requires IsKey(key) && Find(s, key).Some?
    ensures Find(s + t, key) == Find(s, key)
  {
    FindIsFirstMatch(s + t, key);
    FindIsFirstMatch(s, key);
    var ms := Matches(s, key);
    var j := FirstSomeWitness(ms);
    MatchesIndex(s, key, j);
    MatchesKept(s, t, key, j);
    MatchesConcat(s, t, key);
    var all := MatchesBefore(s, t, key) + Matches(t, key);
    assert forall k :: 0 <= k <= j ==> all[k] == ms[k];
    FirstSomeLeftmost(all, j);
  }

  lemma {:induction false} SealedConcat(p: string, q: string, key: string)
    requires Sealed(p, key) && Sealed(q, key)
    ensures Sealed(p + q, key)
  {
    forall j | 0 <= j < |p + q| && (p + q)[j] == '['
      ensures Decided((p + q)[j..], key)
    {
      if j < |p| {
        assert (p + q)[j..] == p[j..] + q;
        DecidedAppend(p[j..], q, key);
      } else {
        assert (p + q)[j..] == q[j - |p|..];
      }
    }
  }

  /** Text without '[' holds no tag and is sealed. */
  lemma {:induction false} NoBracket(x: string, key: string)
    requires IsKey(key) && '[' !in x
    ensures Sealed(x, key) && Find(x, key).None?
  {
    forall j | 0 <= j < |x|
      ensures TagAtStart(x[j..], key).None?
    {
      assert x[j] in x;
      NoBracketNoMatch(x[j..], key);
    }
    FindNone(x, key);
  }

  /** One position of `p` before a stopper: its match is kept or cut off, and it is settled. */
  lemma {:induction false} ClosedAt(p: string, c: char, z: string, key: string, j: nat)
    requires IsKey(key) && Stopper(c, key) && c != '[' && c != ']' && j < |p|
    ensures MatchesBefore(p, [c] + z, key)[j] == Matches(p, key)[j]
    ensures p[j] == '[' ==> Decided(p[j..] + [c] + z, key)
  {
    var q := [c] + z;
    MatchesBeforeIndex(p, q, key, j);
    MatchesIndex(p, key, j);
    assert p[j..] + q == p[j..] + [c] + z;
    StopDecides(p[j..], c, z, key);
    if p[j] != '[' {
      NoBracketNoMatch(p[j..] + q, key);
      NoBracketNoMatch(p[j..], key);
    } else if Decided(p[j..], key) {
      DecidedAppend(p[j..], q, key);
    } else {
      StopRejects(p[j..], c, z, key);
      UndecidedNone(p[j..], key);
    }
  }

  /** Before a stopper, every position of `p` keeps its match. */
  lemma {:induction false} ClosedMatches(p: string, c: char, z: string, key: string)
    requires IsKey(key) && Stopper(c, key) && c != '[' && c != ']'
    ensures MatchesBefore(p, [c] + z, key) == Matches(p, key)
  {
    forall j | 0 <= j < |p|
      ensures MatchesBefore(p, [c] + z, key)[j] == Matches(p, key)[j]
    {
      ClosedAt(p, c, z, key, j);
    }
  }

  /** Text closed by a stopper and then bracket-free text is sealed. */
  lemma {:induction false} ClosedSealed(p: string, c: char, z: string, key: string)
    requires IsKey(key) && Stopper(c, key) && c != '[' && c != ']' && '[' !in z
    ensures Sealed(p + [c] + z, key)
  {
    var q := [c] + z;
    var w := p + [c] + z;
    assert '[' !in q;
    NoBracket(q, key);
    forall j | 0 <= j < |w| && w[j] == '['
      ensures Decided(w[j..], key)
    {
      if j < |p| {
        ClosedAt(p, c, z, key, j);
        assert w[j..] == p[j..] + [c] + z;
      } else {
        assert false;
      }
    }
  }

  /**
   * Text closed by a stopper other than '[' or ']' and then bracket-free text is
   * sealed, and holds exactly the tags of the text before the stopper: a tag
   * still open at the stopper is cut off by it.
   */
  lemma {:induction false} ClosedBy(p: string, c: char, z: string, key: string)
    requires IsKey(key) && Stopper(c, key) && c != '[' && c != ']' && '[' !in z
    ensures Sealed(p + [c] + z, key)
    ensures Find(p + [c] + z, key) == Find(p, key)
  {
    var q := [c] + z;
    assert p + [c] + z == p + q;
    assert '[' !in q;
    NoBracket(q, key);
    ClosedSealed(p, c, z, key);
    ClosedMatches(p, c, z, key);
    FindIsFirstMatch(p + q, key);
    FindIsFirstMatch(p, key);
    FindIsFirstMatch(q, key);
    MatchesConcat(p, q, key);
    FirstSomeAppend(Matches(p, key), Matches(q, key));
  }

  /** The tag found in the first part of a list that holds one. */
  function FirstFind(parts: seq<string>, key: string): Option<string> {
    if parts == [] then None
    else if Find(parts[0], key).Some? then Find(parts[0], key)
    else FirstFind(parts[1..], key)
  }

  lemma {:induction false} FirstFindAppend(a: seq<string>, b: seq<string>, key: string)
    ensures FirstFind(a + b, key) == if FirstFind(a, key).Some? then FirstFind(a, key) else FirstFind(b, key)
  {
    if a == [] {
      assert a + b == b;
    } else {
      FirstFindAppend(a[1..], b, key);
      assert (a + b)[1..] == a[1..] + b;
    }
  }

  /** Joining sealed parts with a bracket-free separator gives sealed text. */
  lemma {:induction false} SealedJoin(parts: seq<string>, sep: string, key: string)
    requires IsKey(key) && '[' !in sep
    requires forall i :: 0 <= i < |parts| ==> Sealed(parts[i], key)
    ensures Sealed(Join(parts, sep), key)
  {
    if |parts| > 1 {
      SealedJoin(parts[1..], sep, key);
      NoBracket(sep, key);
      SealedConcat(sep, Join(parts[1..], sep), key);
      SealedConcat(parts[0], sep + Join(parts[1..], sep), key);
      assert Join(parts, sep) == parts[0] + (sep + Join(parts[1..], sep));
    } else if |parts| == 0 {
      assert Join(parts, sep) == "";
    }
  }

  /** Searching a joined list finds the tag of the first part that holds one. */
  lemma {:induction false} FindJoin(parts: seq<string>, sep: string, key: string)
    requires IsKey(key) && '[' !in sep
    requires forall i :: 0 <= i < |parts| - 1 ==> Sealed(parts[i], key)
    ensures Find(Join(parts, sep), key) == FirstFind(parts, key)
  {
    if |parts| == 1 {
      assert parts[1..] == [];
    } else if |parts| > 1 {
      var rest := Join(parts[1..], sep);
      FindJoin(parts[1..], sep, key);
      assert Join(parts, sep) == parts[0] + (sep + rest);
      FindConcat(parts[0], sep + rest, key);
      NoBracket(sep, key);
      FindConcat(sep, rest, key);
    }
  }

  // ---------------------------------------------------------------------------
  // The tag texts themselves
  // ---------------------------------------------------------------------------

  /** A non-empty run of ASCII word characters with no upper-case letter. */
  predicate IsLowerWord(w: string) {
    |w| > 0 && forall i :: 0 <= i < |w| ==> IsWord(w[i]) && !('A' <= w[i] <= 'Z')
  }

  /** The text `[<name>: <word>]`. */
  function TagText(name: string, word: string): string {
    "[" + name + ": " + word + "]"
  }

  /** The anchored match at the start of a tag under its own key is its word. */
  lemma {:induction false} OwnTagAtStart(name: string, word: string, key: string)
    requires Lower("[" + name + ":") == key && IsLowerWord(word)
    ensures TagAtStart(TagText(name, word), key) == Some(word)
  {
    var u := TagText(name, word);
    assert u[..|key|] == "[" + name + ":";
    var r := u[|key|..];
    assert r == [' '] + (word + "]");
    SpanAppend([' '], word + "]", IsSpace);
    assert Span(word + "]", IsSpace) == 0;
    var a := WordStart(u, key);
    assert u[a..] == word + "]";
    SpanAll(word, IsWord);
    SpanAppend(word, "]", IsWord);
    assert u[a..|u| - 1] == word;
    assert Lower(word) == word;
  }

  /** A tag under its own key is found, with its word. */
  lemma {:induction false} FindOwnTag(name: string, word: string, key: string)
    requires Lower("[" + name + ":") == key && IsLowerWord(word)
    ensures Find(TagText(name, word), key) == Some(word)
  {
    var u := TagText(name, word);
    OwnTagAtStart(name, word, key);
    assert u[0..] == u;
    FindLeftmost(u, key, 0);
  }

  /** Every tag text is sealed under every key. */
  lemma {:induction false} TagSealed(name: string, word: string, key: string)
    requires IsKey(key) && '[' !in name && IsLowerWord(word)
    ensures Sealed(TagText(name, word), key)
  {
    var u := TagText(name, word);
    KeyFacts(key);
    assert u == ['['] + name + ": " + word + "]";
    assert u[0..] == ("[" + name + ": " + word) + [']'] + "";
    StopDecides("[" + name + ": " + word, ']', "", key);
    forall j | 0 < j < |u|
      ensures u[j] != '['
    {
      if j <= |name| {
        assert u[j] == name[j - 1];
        assert name[j - 1] in name;
      } else if j > |name| + 2 && j < |u| - 1 {
        assert u[j] == word[j - |name| - 3];
      }
    }
  }

  /** A tag whose name does not start like the key is not found under it. */
  lemma {:induction false} ForeignTag(name: string, word: string, key: string)
    requires IsKey(key) && |name| > 0 && LowerChar(name[0]) != key[1]
    requires '[' !in name && IsLowerWord(word)
    ensures Find(TagText(name, word), key).None? && Sealed(TagText(name, word), key)
  {
    var u := TagText(name, word);
    KeyFacts(key);
    TagSealed(name, word, key);
    assert u == ['['] + name + ": " + word + "]";
    forall j | 0 <= j < |u|
      ensures TagAtStart(u[j..], key).None?
    {
      if j == 0 {
        assert u[0..] == u && u[1] == name[0];
        if |key| <= |u| {
          assert Lower(u[..|key|])[1] != key[1];
        }
      } else {
        if j <= |name| {
          assert u[j] == name[j - 1];
          assert name[j - 1] in name;
        } else if j > |name| + 2 && j < |u| - 1 {
          assert u[j] == word[j - |name| - 3];
        }
        NoBracketNoMatch(u[j..], key);
      }
    }
    FindNone(u, key);
  }

  /** An expression tag at the very start is what the expression key finds, whatever follows. */
  lemma {:induction false} LeadingExpressionTag(e: string, rest: string)
    requires IsLowerWord(e)
    ensures Find(TagText("Expression", e) + rest, ExpressionKey) == Some(e)
  {
    KeyNames();
    assert '[' !in "Expression";
    TagSealed("Expression", e, ExpressionKey);
    FindConcat(TagText("Expression", e), rest, ExpressionKey);
    FindOwnTag("Expression", e, ExpressionKey);
  }

  /** The action key passes over an expression tag and a space to the action tag after them. */
  lemma {:induction false} ActionAfterExpression(e: string, a: string, rest: string)
    requires IsLowerWord(e) && IsLowerWord(a)
    ensures Find(TagText("Expression", e) + (" " + (TagText("Action", a) + rest)), ActionKey) == Some(a)
  {
    var te := TagText("Expression", e);
    var ta := TagText("Action", a);
    KeyNames();
    assert '[' !in "Expression" && '[' !in "Action" && '[' !in " ";
    ForeignTag("Expression", e, ActionKey);
    FindConcat(te, " " + (ta + rest), ActionKey);
    NoBracket(" ", ActionKey);
    FindConcat(" ", ta + rest, ActionKey);
    TagSealed("Action", a, ActionKey);
    FindConcat(ta, rest, ActionKey);
    FindOwnTag("Action", a, ActionKey);
  }

  /**
   * Text that opens with an expression tag and then, after one space, an action
   * tag parses to the two words, whatever follows.
   */
  lemma {:induction false} LeadingTags(e: string, a: string, rest: string)
    requires IsLowerWord(e) && IsLowerWord(a)
    ensures ParseExpressionAndAction(TagText("Expression", e) + " " + TagText("Action", a) + rest) == (e, a)
  {
    var te := TagText("Expression", e);
    var ta := TagText("Action", a);
    assert te + " " + ta + rest == te + (" " + (ta + rest));
    LeadingExpressionTag(e, " " + (ta + rest));
    ActionAfterExpression(e, a, rest);
  }
}
