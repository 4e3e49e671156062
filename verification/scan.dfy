/** The pieces the modelled regular expressions are built from: maximal runs of a character
    class (what a greedy quantifier consumes when the next item cannot match inside the
    run), word boundaries, and the leftmost position at which a pattern matches. */
module Scan {
  import opened Wrappers

  /** `[A-Za-z0-9]`, which `[A-Z0-9]` becomes under the `i` flag. */
  predicate IsAlnum(c: char) {
    ('0' <= c <= '9') || ('A' <= c <= 'Z') || ('a' <= c <= 'z')
  }

  /** `\w`. */
  predicate IsWordChar(c: char) {
    IsAlnum(c) || c == '_'
  }

  predicate IsDigitChar(c: char) {
    '0' <= c <= '9'
  }

  /** `\b` before a word character at `p`: the start of the text or a non-word character
      before it. */
  predicate LeftBoundary(s: string, p: nat) {
    p == 0 || (p <= |s| && !IsWordChar(s[p - 1]))
  }

  /** `\b` after a word character ending at `e`: the end of the text or a non-word character
      at `e`. */
  predicate RightBoundary(s: string, e: nat) {
    e >= |s| || !IsWordChar(s[e])
  }

  /** The length of the maximal run of characters in class `P` starting at `i`. */
  function SpanWhile(s: string, i: nat, P: char -> bool): (n: nat)
    requires i <= |s|
    ensures i + n <= |s|
    ensures forall k :: i <= k < i + n ==> P(s[k])
    ensures i + n == |s| || !P(s[i + n])
    decreases |s| - i
  {
    if i == |s| || !P(s[i]) then 0 else 1 + SpanWhile(s, i + 1, P)
  }

  /** A run is maximal exactly when it is the span. */
  lemma SpanUnique(s: string, i: nat, P: char -> bool, n: nat)
    requires i + n <= |s|
    requires forall k :: i <= k < i + n ==> P(s[k])
    requires i + n == |s| || !P(s[i + n])
    ensures SpanWhile(s, i, P) == n
  {
  }

  /** The span over a slice whose characters are all in the class and that the class does
      not continue past. */
  lemma SpanOfSlice(s: string, i: nat, n: nat, P: char -> bool)
    requires i + n <= |s|
    requires forall c :: c in s[i..i + n] ==> P(c)
    requires i + n == |s| || !P(s[i + n])
    ensures SpanWhile(s, i, P) == n
  {
    forall k | i <= k < i + n ensures P(s[k]) {
      assert s[k] == s[i..i + n][k - i];
    }
    SpanUnique(s, i, P, n);
  }

  /** The leftmost position, from `from` on, at which the pattern `at` matches: what `match`
      and `exec` report for a regular expression without the `g` flag. */
  function FirstMatch(s: string, from: nat, at: (string, nat) -> bool): (r: Option<nat>)
    ensures r.Some? ==> from <= r.value <= |s| && at(s, r.value)
    ensures r.Some? ==> forall q :: from <= q < r.value ==> !at(s, q)
    ensures r.None? ==> forall q :: from <= q <= |s| ==> !at(s, q)
    decreases |s| + 1 - from
  {
    if from > |s| then None
    else if at(s, from) then Some(from)
    else FirstMatch(s, from + 1, at)
  }

  /** The leftmost match is determined by its defining property. */
  lemma FirstMatchIs(s: string, from: nat, at: (string, nat) -> bool, p: nat)
    requires from <= p <= |s| && at(s, p)
    requires forall q :: from <= q < p ==> !at(s, q)
    ensures FirstMatch(s, from, at) == Some(p)
  {
  }

  lemma FirstMatchNone(s: string, from: nat, at: (string, nat) -> bool)
    requires forall q :: from <= q <= |s| ==> !at(s, q)
    ensures FirstMatch(s, from, at) == None
  {
  }

  /** Positions where nothing matches can be skipped. */
  lemma FirstMatchSkip(s: string, from: nat, k: nat, at: (string, nat) -> bool)
    requires from <= k
    requires forall q :: from <= q < k ==> !at(s, q)
    ensures FirstMatch(s, from, at) == FirstMatch(s, k, at)
  {
  }
}
