/** Facts about sequences that the verifier does not see by itself. */
module Seqs {

  lemma PlusNothing<T>(a: seq<T>)
    ensures a + [] == a
  {
  }

  lemma Associates<T>(a: seq<T>, b: seq<T>, c: seq<T>)
    ensures a + (b + c) == a + b + c
  {
  }

  lemma Regroup<T>(a: seq<T>, b: seq<T>, c: seq<T>, d: seq<T>)
    ensures a + b + c + d == a + (b + c + d) == a + (b + c) + d == a + b + (c + d)
  {
  }

  lemma PrefixOfLonger<T>(a: seq<T>, b: seq<T>, c: nat)
    requires c <= |a|
    ensures (a + b)[..c] == a[..c]
  {
  }

  lemma PrefixOfPrefix<T>(a: seq<T>, n: nat, k: nat)
    requires k <= n <= |a|
    ensures a[..n][..k] == a[..k]
  {
  }

  lemma RestOf<T>(a: seq<T>, b: seq<T>, c: seq<T>)
    requires a + b == c
    ensures c[|a|..] == b && [] + b == b
  {
  }

  lemma SameTail<T>(a: seq<T>, b: seq<T>, c: seq<T>)
    ensures a + b == a + c <==> b == c
  {
    if a + b == a + c {
      assert b == (a + b)[|a|..] && c == (a + c)[|a|..];
    }
  }
}
