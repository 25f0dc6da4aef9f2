/** Small facts about sequences that the decoders' loop proofs use at one index at a time. */
module Seqs {

  /** Dropping the head shifts every later index down by one. */
  lemma TailAt<T>(s: seq<T>, i: nat)
    requires 0 < i < |s|
    ensures s[1..][i - 1] == s[i]
  {
  }

  /** A sequence is its prefix, the element at `i`, and its suffix. */
  lemma SplitAround<T>(s: seq<T>, i: nat)
    requires i < |s|
    ensures s[..i] + ([s[i]] + s[i + 1..]) == s
  {
  }

  /** Updating index `i` leaves the prefix before it and the suffix after it alone. */
  lemma Replace<T>(s: seq<T>, i: nat, x: T)
    requires i < |s|
    ensures s[i := x][..i] == s[..i] && s[i := x][i + 1..] == s[i + 1..]
  {
  }

  /** Moving the element at `i` from the middle onto the prefix. */
  lemma PrefixGrows<T>(s: seq<T>, i: nat, t: seq<T>)
    requires i < |s|
    ensures s[..i] + ([s[i]] + t) == s[..i + 1] + t
  {
  }
}
