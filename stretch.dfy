/** A list found inside a longer list at a given position, and how a
    concatenation found there splits into its parts. */
module Stretch {
  /** `whole` appears in `xs` from position `offset` on. */
  ghost predicate Matches<T>(xs: seq<T>, offset: nat, whole: seq<T>) {
    && offset + |whole| <= |xs|
    && forall k :: offset <= k < offset + |whole| ==> xs[k] == whole[k - offset]
  }

  /** Where `[h] + a + b` appears, `h` comes first, */
  lemma {:induction false} MatchesHead<T>(xs: seq<T>, offset: nat, whole: seq<T>, h: T, a: seq<T>, b: seq<T>)
    requires whole == [h] + a + b && Matches(xs, offset, whole)
    ensures xs[offset] == h
  {
    assert xs[offset] == whole[0];
  }

  /** then `a`, */
  lemma {:induction false} MatchesMiddle<T>(xs: seq<T>, offset: nat, whole: seq<T>, h: T, a: seq<T>, b: seq<T>)
    requires whole == [h] + a + b && Matches(xs, offset, whole)
    ensures Matches(xs, offset + 1, a)
  {
    forall k | offset + 1 <= k < offset + 1 + |a|
      ensures xs[k] == a[k - (offset + 1)]
    {
      assert xs[k] == whole[k - offset];
    }
  }

  /** then `b`, from position `start` on. */
  lemma {:induction false} MatchesLast<T>(xs: seq<T>, offset: nat, whole: seq<T>, h: T, a: seq<T>, b: seq<T>, start: nat)
    requires whole == [h] + a + b && Matches(xs, offset, whole) && start == offset + 1 + |a|
    ensures Matches(xs, start, b)
  {
    forall k | start <= k < start + |b|
      ensures xs[k] == b[k - start]
    {
      assert xs[k] == whole[k - offset];
    }
  }
}
