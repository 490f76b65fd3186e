/** Regroupings of sequences, kept apart so that proofs elsewhere meet them one at a time. */
module Sequences {
  lemma Assoc<T>(a: seq<T>, b: seq<T>, c: seq<T>)
    ensures a + b + c == a + (b + c)
  {
  }

  lemma SplitAt<T>(s: seq<T>, i: nat)
    requires i <= |s|
    ensures s == s[..i] + s[i..]
  {
  }

  lemma SplitAround<T>(s: seq<T>, i: nat)
    requires i < |s|
    ensures s == s[..i] + ([s[i]] + s[i + 1..])
  {
  }

  lemma UpdateSplits<T>(s: seq<T>, i: nat, x: T)
    requires i < |s|
    ensures s[i := x] == s[..i] + ([x] + s[i + 1..])
  {
  }

  lemma UpdateInContext<T>(pre: seq<T>, s: seq<T>, rest: seq<T>, i: nat, x: T)
    requires i < |s|
    ensures (pre + s + rest)[|pre| + i := x] == pre + s[i := x] + rest
  {
  }

  lemma SliceInContext<T>(pre: seq<T>, s: seq<T>, rest: seq<T>, i: nat)
    requires i <= |s|
    ensures (pre + s + rest)[..|pre| + i] == pre + s[..i]
    ensures (pre + s + rest)[|pre| + i..] == s[i..] + rest
  {
  }

  lemma TailOf<T>(s: seq<T>)
    requires s != []
    ensures multiset(s[1..]) == multiset(s) - multiset{s[0]}
  {
    assert s == [s[0]] + s[1..];
  }
}
