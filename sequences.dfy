/** Identities about sequences, each stated once so that a proof can use
    it without re-deriving it in a larger context. */
module Sequences {
  /** Taking one more element of a sequence. */
  lemma TakeNext<T>(xs: seq<T>, i: nat)
    requires i < |xs|
    ensures xs[..i + 1][..i] == xs[..i] && xs[..i + 1] == xs[..i] + [xs[i]]
  {
  }

  /** Taking every element. */
  lemma TakeAll<T>(xs: seq<T>)
    ensures xs[..|xs|] == xs
  {
  }

  /** A non-empty sequence is its front followed by its last element. */
  lemma SnocLast<T>(xs: seq<T>)
    requires |xs| >= 1
    ensures xs[..|xs| - 1] + [xs[|xs| - 1]] == xs
  {
  }

  /** Concatenation is associative. */
  lemma ConcatAssoc<T>(a: seq<T>, b: seq<T>, c: seq<T>)
    ensures (a + b) + c == a + (b + c)
  {
  }

  /** A non-empty sequence is its first element followed by the rest. */
  lemma ConsFirst<T>(xs: seq<T>)
    requires |xs| >= 1
    ensures [xs[0]] + xs[1..] == xs
  {
  }

  /** The empty sequence is a left unit of concatenation. */
  lemma EmptyConcat<T>(xs: seq<T>)
    ensures [] + xs == xs
  {
  }

  /** The empty sequence is a right unit of concatenation. */
  lemma ConcatEmpty<T>(xs: seq<T>)
    ensures xs + [] == xs
  {
  }

  /** Dropping the last element of a concatenation drops it from the
      second part. */
  lemma DropLastOfConcat<T>(xs: seq<T>, ys: seq<T>)
    requires |ys| >= 1
    ensures (xs + ys)[..|xs + ys| - 1] == xs + ys[..|ys| - 1]
    ensures (xs + ys)[|xs + ys| - 1] == ys[|ys| - 1]
  {
  }
}
