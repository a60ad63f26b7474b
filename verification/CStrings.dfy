/** NUL-terminated strings inside character buffers. */
module CStrings {

  /** The characters from position p up to the first NUL. */
  function Text(b: seq<char>, p: nat): (s: string)
    requires p <= |b|
    ensures |s| <= |b| - p && s == b[p..p + |s|] && '\0' !in s
    ensures p + |s| == |b| || b[p + |s|] == '\0'
    decreases |b| - p
  {
    if p == |b| || b[p] == '\0' then [] else [b[p]] + Text(b, p + 1)
  }

  predicate Terminated(b: seq<char>, p: nat) {
    p <= |b| && p + |Text(b, p)| < |b|
  }

  /** A text is fixed by its characters and the NUL behind them. */
  lemma {:induction false} TextIs(b: seq<char>, p: nat, s: string)
    requires p + |s| < |b| && b[p..p + |s|] == s && '\0' !in s && b[p + |s|] == '\0'
    ensures Text(b, p) == s
    decreases |s|
  {
  }

  lemma AtEnd(b: seq<char>, p: nat, k: nat)
    requires Terminated(b, p) && k <= |Text(b, p)|
    ensures p + |Text(b, p)| < |b|
    ensures b[p + k] == '\0' <==> k == |Text(b, p)|
  {
  }

  lemma {:induction false} TextSuffix(b: seq<char>, p: nat, k: nat)
    requires p <= |b| && k <= |Text(b, p)|
    ensures Text(b, p + k) == Text(b, p)[k..] && (Terminated(b, p) ==> Terminated(b, p + k))
    decreases k
  {
  }

  /** The longest prefix of at most n characters. */
  function Cut(s: string, n: nat): (t: string)
    ensures t <= s && |t| <= n && (|t| == |s| || |t| == n)
  {
    if |s| <= n then s else s[..n]
  }
}
