/** Small facts about sequences, kept apart so that the proofs that use
    them do not have to rediscover them in a large context. */
module Sequences {

  lemma SeparatorThen<T>(a: seq<T>, sep: T, b: seq<T>)
    requires |a| == 0
    ensures (a + [sep] + b)[0] == sep && (a + [sep] + b)[1..] == b
  {
  }

  lemma FirstThen<T>(a: seq<T>, sep: T, b: seq<T>)
    requires |a| > 0
    ensures (a + [sep] + b)[0] == a[0] && (a + [sep] + b)[1..] == a[1..] + [sep] + b
  {
  }

  lemma DropFirst<T>(a: seq<T>, b: seq<T>)
    requires |a| > 0
    ensures (a + b)[0] == a[0] && (a + b)[1..] == a[1..] + b
  {
  }

  lemma Associative<T>(a: seq<T>, b: seq<T>, c: seq<T>)
    ensures a + (b + c) == (a + b) + c
  {
  }

  lemma EmptyRight<T>(a: seq<T>)
    ensures a + [] == a
  {
  }

  lemma PrefixAvoids<T>(r: seq<T>, s: seq<T>, c: T)
    requires r <= s && c !in s
    ensures c !in r
  {
    assert forall i :: 0 <= i < |r| ==> r[i] == s[i];
  }
}
