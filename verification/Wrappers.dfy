/** Option, and facts about sequences that several modules use. */
module Wrappers {

  datatype Option<+T> = None | Some(value: T)

  lemma Associative<T>(a: seq<T>, b: seq<T>, c: seq<T>)
    ensures a + b + c == a + (b + c)
  {
  }

  /** Reading one more element of s: the prefix grows by it, the rest loses it. */
  lemma TakeNext<T>(s: seq<T>, n: nat)
    requires n < |s|
    ensures s[..n] + [s[n]] == s[..n + 1]
    ensures s[n..][0] == s[n] && s[n..][1..] == s[n + 1..]
  {
  }

  /** Positions of the tail of a sequence are one less than its own. */
  lemma TailSlices<T>(s: seq<T>, n: nat)
    requires n + 1 <= |s|
    ensures s[1..][n..] == s[n + 1..]
    ensures n + 1 < |s| ==> s[1..][n] == s[n + 1]
  {
  }
}
