/** Facts about sequences of any element type, kept apart from the game so that their proofs see nothing else. */
module Seqs {
  lemma SameElements<T>(a: seq<T>, b: seq<T>)
    requires |a| == |b| && forall i :: 0 <= i < |a| ==> a[i] == b[i]
    ensures a == b
  {
  }

  lemma HeadTail<T>(s: seq<T>)
    requires s != []
    ensures s == [s[0]] + s[1..]
  {
  }

  /** Two prefixes commute in front of a sequence when one of them is empty. */
  lemma SwapEmptyPrefix<T>(a: seq<T>, b: seq<T>, c: seq<T>)
    requires a == [] || b == []
    ensures a + (b + c) == b + (a + c)
  {
    if a == [] {
      assert a + (b + c) == b + c;
    } else {
      assert b + (a + c) == a + c;
    }
  }

  lemma EmptyPrefix<T>(s: seq<T>)
    ensures [] + s == s
  {
  }

  lemma SliceCons<T>(s: seq<T>, i: nat)
    requires i < |s|
    ensures s[i..] == [s[i]] + s[i + 1..]
  {
  }

  /** The multiset of four elements is the sum of their singletons. */
  lemma FourOf<T>(w: T, x: T, y: T, z: T)
    ensures multiset([w, x, y, z]) == multiset{w} + multiset{x} + multiset{y} + multiset{z}
  {
    assert [w, x, y, z] == [w] + [x] + [y] + [z];
    assert multiset([w]) == multiset{w};
    assert multiset([x]) == multiset{x};
    assert multiset([y]) == multiset{y};
    assert multiset([z]) == multiset{z};
  }

  lemma PrefixThenSlice<T>(s: seq<T>, a: nat, b: nat)
    requires a <= b <= |s|
    ensures s[..a] + s[a..b] == s[..b]
  {
  }

  lemma WholePrefix<T>(s: seq<T>)
    ensures s[..|s|] == s
  {
  }
}
