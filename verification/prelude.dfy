/** Shared vocabulary: optional values and octets. */
module Prelude {

  /** Rust's `Option<T>`. */
  datatype Option<+T> = None | Some(value: T)

  /** An octet, as held in a Rust `Vec<u8>` or `&[u8]`. */
  type byte = x: int | 0 <= x < 256

  /** The value the `n`-th call of an iterator's `next()` gives over `xs`. */
  function Nth<T>(xs: seq<T>, n: nat): (r: Option<T>)
    ensures r.Some? <==> n < |xs|
    ensures r.Some? ==> r.value == xs[n]
  {
    if n < |xs| then Some(xs[n]) else None
  }

  // Short sequences spelled out element by element. Kept as separate lemmas so
  // that proofs about encoders can use them without extensionality reasoning
  // in a large context.

  lemma Spell1<T>(s: seq<T>)
    requires |s| == 1
    ensures s == [s[0]]
  {
  }

  lemma Spell2<T>(s: seq<T>)
    requires |s| == 2
    ensures s == [s[0], s[1]]
  {
  }

  lemma Spell3<T>(s: seq<T>)
    requires |s| == 3
    ensures s == [s[0], s[1], s[2]]
  {
  }

  lemma Spell4<T>(s: seq<T>)
    requires |s| == 4
    ensures s == [s[0], s[1], s[2], s[3]]
  {
  }

  lemma Split<T>(s: seq<T>, n: nat)
    requires n <= |s|
    ensures s == s[..n] + s[n..]
  {
  }
}
