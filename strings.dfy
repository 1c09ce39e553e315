/**
 * The few java.lang.String and java.util.StringTokenizer operations the search
 * tool relies on, written over seq<char>.
 */
module Strings {

  type String = seq<char>

  /** `s.replace(a, b)`: every occurrence of the character `a` becomes `b`. */
  function Replace(s: String, a: char, b: char): (r: String)
    ensures |r| == |s|
    ensures forall i :: 0 <= i < |s| ==> r[i] == if s[i] == a then b else s[i]
  {
    if s == [] then [] else [if s[0] == a then b else s[0]] + Replace(s[1..], a, b)
  }

  /** After a replacement the replaced character is gone, and nothing but `b` is new. */
  lemma ReplaceRemoves(s: String, a: char, b: char, c: char)
    requires c == a || c !in s
    ensures c != b ==> c !in Replace(s, a, b)
  {
  }

  /** Replacing a character that does not occur changes nothing. */
  lemma ReplaceAbsent(s: String, a: char, b: char)
    requires a !in s
    ensures Replace(s, a, b) == s
  {
    assert forall i :: 0 <= i < |s| ==> Replace(s, a, b)[i] == s[i];
  }

  predicate StartsWith(s: String, prefix: String) {
    |prefix| <= |s| && s[..|prefix|] == prefix
  }

  predicate EndsWith(s: String, suffix: String) {
    |suffix| <= |s| && s[|s| - |suffix|..] == suffix
  }

  predicate OccursAt(s: String, t: String, i: int) {
    0 <= i && i + |t| <= |s| && s[i..i + |t|] == t
  }

  /** `s.contains(t)`. */
  predicate Contains(s: String, t: String) {
    exists i :: 0 <= i <= |s| - |t| && OccursAt(s, t, i)
  }

  lemma ContainsPrefix(s: String, t: String)
    requires StartsWith(s, t)
    ensures Contains(s, t)
  {
    assert OccursAt(s, t, 0);
  }

  /** `s.indexOf(c)`: the first position of `c`, or -1. */
  function IndexOf(s: String, c: char): (r: int)
    ensures -1 <= r < |s|
    ensures r == -1 <==> c !in s
    ensures r >= 0 ==> s[r] == c && c !in s[..r]
  {
    if s == [] then -1
    else if s[0] == c then 0
    else
      var k := IndexOf(s[1..], c);
      if k == -1 then -1
      else
        assert s[..k + 1] == [s[0]] + s[1..][..k];
        k + 1
  }

  /** The first position holding `c` is the one with no `c` before it. */
  lemma IndexOfIs(s: String, c: char, i: int)
    requires 0 <= i < |s| && s[i] == c && c !in s[..i]
    ensures IndexOf(s, c) == i
  {
  }

  /**
   * `s.lastIndexOf(c, from)`: the last position at or before `from` that holds
   * `c`, or -1. A `from` beyond the end searches the whole string.
   */
  function LastIndexAtOrBefore(s: String, c: char, from: int): (r: int)
    ensures -1 <= r < |s| && (r == -1 || r <= from)
    ensures r >= 0 ==> s[r] == c
    ensures forall j :: r < j < |s| && j <= from ==> s[j] != c
    decreases if from >= |s| then |s| + 1 else if from < 0 then 0 else from + 1
  {
    if from >= |s| then LastIndexAtOrBefore(s, c, |s| - 1)
    else if from < 0 then -1
    else if s[from] == c then from
    else LastIndexAtOrBefore(s, c, from - 1)
  }

  /** `s.lastIndexOf(c)`. */
  function LastIndexOf(s: String, c: char): (r: int)
    ensures -1 <= r < |s|
    ensures r == -1 <==> c !in s
    ensures r >= 0 ==> s[r] == c && c !in s[r + 1..]
  {
    LastIndexAtOrBefore(s, c, |s| - 1)
  }

  /** The part of `s` after its last character from `seps` (all of `s` when there is none). */
  function AfterLast(s: String, seps: String): (r: String)
    ensures EndsWith(s, r)
    ensures forall c :: c in r ==> c !in seps
    ensures r == s || s[|s| - |r| - 1] in seps
  {
    if s == [] then []
    else if s[|s| - 1] in seps then []
    else
      var r := AfterLast(s[..|s| - 1], seps);
      assert s[..|s| - 1][|s| - 1 - |r|..] == s[|s| - 1 - |r|..|s| - 1];
      r + [s[|s| - 1]]
  }

  /** The tokens a token in progress adds once it is closed. */
  function Close(pending: String): seq<String> {
    if pending == [] then [] else [pending]
  }

  /**
   * `new StringTokenizer(s, delims)`, read to the end: the maximal non-empty runs
   * of characters that are not among the characters of `delims`.
   */
  function Tokens(s: String, delims: String): seq<String> {
    TokensFrom(s, delims, [])
  }

  /** Tokenizing `s` when the characters in `pending` were already read into the current token. */
  function TokensFrom(s: String, delims: String, pending: String): seq<String>
    decreases |s|
  {
    if s == [] then Close(pending)
    else if s[0] in delims then Close(pending) + TokensFrom(s[1..], delims, [])
    else TokensFrom(s[1..], delims, pending + [s[0]])
  }

  predicate IsToken(t: String, delims: String) {
    |t| > 0 && forall c :: c in t ==> c !in delims
  }

  /** Every token is non-empty and holds no delimiter. */
  lemma {:induction false} TokensAreTokens(s: String, delims: String, pending: String)
    requires forall c :: c in pending ==> c !in delims
    ensures forall k :: 0 <= k < |TokensFrom(s, delims, pending)| ==> IsToken(TokensFrom(s, delims, pending)[k], delims)
    decreases |s|
  {
    if s == [] {
    } else if s[0] in delims {
      TokensAreTokens(s[1..], delims, []);
    } else {
      TokensAreTokens(s[1..], delims, pending + [s[0]]);
    }
  }

  /** A delimiter splits the tokenization in two: `a + [d] + b` gives the tokens of `a`, then those of `b`. */
  lemma {:induction false} TokensSplit(a: String, d: char, b: String, delims: String, pending: String)
    requires d in delims
    ensures TokensFrom(a + [d] + b, delims, pending) == TokensFrom(a, delims, pending) + Tokens(b, delims)
    decreases |a|
  {
    var s := a + [d] + b;
    if a == [] {
      assert s[0] == d && s[1..] == b;
    } else {
      assert s[0] == a[0] && s[1..] == a[1..] + [d] + b;
      if a[0] in delims {
        TokensSplit(a[1..], d, b, delims, []);
      } else {
        TokensSplit(a[1..], d, b, delims, pending + [a[0]]);
      }
    }
  }

  /** Text without delimiters is a single token (or none when it is empty). */
  lemma {:induction false} TokensOfPlain(s: String, delims: String, pending: String)
    requires forall c :: c in s ==> c !in delims
    ensures TokensFrom(s, delims, pending) == Close(pending + s)
    decreases |s|
  {
    if s != [] {
      assert s[1..] + [] == s[1..];
      TokensOfPlain(s[1..], delims, pending + [s[0]]);
      assert pending + [s[0]] + s[1..] == pending + s;
    } else {
      assert pending + s == pending;
    }
  }
}
