/**
 * String helpers that stand for the Python built-ins the core relies on:
 * `str.join`, `in` on strings, `str.lower`, `str.capitalize`, `str(int)`, and
 * the ASCII parts of the regular-expression classes `\s` and `\w`.
 */
module Text {
  import opened Optional

  /** `\s` restricted to ASCII: space, \t \n \v \f \r and the separators \x1c-\x1f. */
  predicate IsSpace(c: char) {
    c == ' ' || ('\t' <= c <= '\r') || ('\U{001C}' <= c <= '\U{001F}')
  }

  /** `\w` restricted to ASCII: letters, digits and underscore. */
  predicate IsWord(c: char) {
    ('a' <= c <= 'z') || ('A' <= c <= 'Z') || ('0' <= c <= '9') || c == '_'
  }

  /** ASCII case folding to lower case. */
  function LowerChar(c: char): char {
    if 'A' <= c <= 'Z' then (c as int + 32) as char else c
  }

  /** ASCII case folding to upper case. */
  function UpperChar(c: char): char {
    if 'a' <= c <= 'z' then (c as int - 32) as char else c
  }

  /** `s.lower()` on ASCII text. */
  function Lower(s: string): (r: string)
    ensures |r| == |s|
    ensures forall i :: 0 <= i < |s| ==> r[i] == LowerChar(s[i])
  {
    seq(|s|, i requires 0 <= i < |s| => LowerChar(s[i]))
  }

  /** `s.capitalize()` on ASCII text: first character upper case, the rest lower case. */
  function Capitalize(s: string): (r: string)
    ensures |r| == |s|
    ensures |s| > 0 ==> r[0] == UpperChar(s[0]) && r[1..] == Lower(s[1..])
  {
    if s == [] then [] else [UpperChar(s[0])] + Lower(s[1..])
  }

  /** `sep.join(parts)`. */
  function Join(parts: seq<string>, sep: string): string
  {
    if |parts| == 0 then ""
    else if |parts| == 1 then parts[0]
    else parts[0] + sep + Join(parts[1..], sep)
  }

  /** Joining a joined group into an outer join with the same separator flattens it. */
  lemma {:induction false} JoinFlatten(front: seq<string>, group: seq<string>, sep: string)
    requires |group| > 0
    ensures Join(front + [Join(group, sep)], sep) == Join(front + group, sep)
  {
    if |front| == 0 {
      assert front + [Join(group, sep)] == [Join(group, sep)];
      assert front + group == group;
    } else {
      JoinFlatten(front[1..], group, sep);
      assert (front + [Join(group, sep)])[1..] == front[1..] + [Join(group, sep)];
      assert (front + group)[1..] == front[1..] + group;
    }
  }

  /** Joining a list with one more element appends the separator and that element. */
  lemma {:induction false} JoinSnoc(parts: seq<string>, last: string, sep: string)
    requires |parts| > 0
    ensures Join(parts + [last], sep) == Join(parts, sep) + sep + last
  {
    if |parts| == 1 {
      assert parts + [last] == [parts[0], last];
    } else {
      JoinSnoc(parts[1..], last, sep);
      assert (parts + [last])[1..] == parts[1..] + [last];
    }
  }

  /** A join ends with its last part. */
  lemma {:induction false} JoinLast(parts: seq<string>, sep: string)
    requires |parts| > 0
    ensures var j := Join(parts, sep);
            |parts[|parts| - 1]| <= |j| && j[|j| - |parts[|parts| - 1]|..] == parts[|parts| - 1]
  {
    if |parts| > 1 {
      JoinLast(parts[1..], sep);
      assert Join(parts, sep) == (parts[0] + sep) + Join(parts[1..], sep);
    }
  }

  /** A join of a longer list begins with the join of its front and a separator. */
  lemma {:induction false} JoinFront(front: seq<string>, rest: seq<string>, sep: string)
    requires |front| > 0 && |rest| > 0
    ensures var j := Join(front, sep) + sep;
            |j| <= |Join(front + rest, sep)| && Join(front + rest, sep)[..|j|] == j
    decreases |front|
  {
    if |front| == 1 {
      assert (front + rest)[1..] == rest;
      assert front + rest == [front[0]] + rest;
    } else {
      JoinFront(front[1..], rest, sep);
      assert (front + rest)[1..] == front[1..] + rest;
      assert Join(front + rest, sep) == front[0] + sep + Join(front[1..] + rest, sep);
    }
  }

  /** `sub in s` for strings: `sub` occurs as a contiguous piece of `s`. */
  predicate Contains(s: string, sub: string)
    decreases |s|
  {
    (|sub| <= |s| && s[..|sub|] == sub) || (|s| > 0 && Contains(s[1..], sub))
  }

  /** `str(n)` for a non-negative integer: its decimal digits. */
  function NatToString(n: nat): (r: string)
    ensures |r| > 0
    ensures forall i :: 0 <= i < |r| ==> '0' <= r[i] <= '9'
  {
    if n < 10 then [Digit(n)] else NatToString(n / 10) + [Digit(n % 10)]
  }

  function Digit(d: nat): (c: char)
    requires d < 10
    ensures '0' <= c <= '9'
  {
    ('0' as int + d) as char
  }

  /** The f-string rendering of an optional count: the digits, or "None". */
  function ShowCount(c: Option<nat>): string {
    match c
    case Some(n) => NatToString(n)
    case None => "None"
  }

  /** A condition as 0 or 1, for counting the optional parts of a list. */
  function Count(b: bool): nat {
    if b then 1 else 0
  }

  /** Python truthiness of an optional count: present and non-zero. */
  predicate Truthy(c: Option<nat>) {
    c.Some? && c.value != 0
  }
}
