/** A minimum, and facts about sequences that the verifier does not find by itself. */
module Seqs {
  function Min(a: int, b: int): int {
    if a < b then a else b
  }

  lemma SliceOfSlice<T>(t: seq<T>, i: nat, j: nat, a: nat, b: nat)
    requires i <= j <= |t| && a <= b <= j - i
    ensures t[i..j][a..b] == t[i + a..i + b]
  {
    var x, y := t[i..j][a..b], t[i + a..i + b];
    forall k | 0 <= k < b - a ensures x[k] == y[k] {
      assert x[k] == t[i..j][a + k] == t[i + (a + k)];
    }
  }

  lemma Reassociate<T>(a: seq<T>, b: seq<T>, c: seq<T>)
    ensures a + (b + c) == a + b + c
  {
  }

  lemma Regroup<T>(a: seq<T>, b: seq<T>, c: seq<T>, d: seq<T>)
    ensures a + b + c + d == a + (b + c + d)
  {
  }

  lemma Regroup5<T>(a: seq<T>, b: seq<T>, c: seq<T>, d: seq<T>, e: seq<T>, f: seq<T>)
    ensures a + b + c + d + e + f == a + (b + c + d + e + f)
  {
  }

  lemma PrefixSplit<T>(a: seq<T>, b: seq<T>, t: seq<T>, i: nat)
    requires i <= |t| && a + b <= t[i..]
    ensures a <= t[i..] && i + |a| <= |t| && b <= t[i + |a|..]
  {
    assert t[i..][..|a|] == (a + b)[..|a|] == a;
    assert t[i..][|a|..] == t[i + |a|..];
    assert (a + b)[|a|..] == b;
  }

  lemma PrefixIsSlice<T>(a: seq<T>, t: seq<T>, i: nat)
    requires i <= |t| && a <= t[i..]
    ensures i + |a| <= |t| && t[i..i + |a|] == a
  {
    assert t[i..][..|a|] == a;
    assert t[i..][..|a|] == t[i..i + |a|];
  }

  lemma SliceIsPrefix<T>(a: seq<T>, t: seq<T>, i: nat)
    requires i + |a| <= |t| && t[i..i + |a|] == a
    ensures a <= t[i..]
  {
    assert t[i..][..|a|] == t[i..i + |a|];
  }
}
