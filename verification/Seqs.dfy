/** Identities of sequence slicing, stated once so that other proofs need not rediscover them. */
module Seqs {

  lemma Split<T>(s: seq<T>, m: int)
    requires 0 <= m <= |s|
    ensures s == s[..m] + s[m..]
  {
  }

  lemma Split3<T>(s: seq<T>, m: int, n: int)
    requires 0 <= m <= n <= |s|
    ensures s == s[..m] + s[m..n] + s[n..]
  {
  }

  lemma DropSlice<T>(s: seq<T>, e: int, i: int, j: int)
    requires 0 <= e && 0 <= i <= j && e + j <= |s|
    ensures s[e..][i..j] == s[e + i..e + j]
  {
  }

  lemma DropTake<T>(s: seq<T>, e: int, j: int)
    requires 0 <= e && 0 <= j && e + j <= |s|
    ensures s[e..][..j] == s[e..e + j]
  {
  }

  lemma DropDrop<T>(s: seq<T>, e: int, i: int)
    requires 0 <= e && 0 <= i && e + i <= |s|
    ensures s[e..][i..] == s[e + i..]
  {
  }

  lemma TakeDrop<T>(s: seq<T>, i: int, j: int)
    requires 0 <= i <= j <= |s|
    ensures s[..j][i..] == s[i..j]
  {
  }

  lemma Assoc<T>(a: seq<T>, b: seq<T>, c: seq<T>)
    ensures a + b + c == a + (b + c)
  {
  }

  lemma UpdateLast<T>(s: seq<T>, x: T)
    requires s != []
    ensures s[|s| - 1 := x] == s[..|s| - 1] + [x]
    ensures s[|s| - 1 := x][..|s| - 1] == s[..|s| - 1]
  {
  }

  function Reversed<T>(s: seq<T>): (r: seq<T>)
    ensures |r| == |s|
    ensures forall i :: 0 <= i < |s| ==> r[i] == s[|s| - 1 - i]
  {
    if s == [] then [] else [s[|s| - 1]] + Reversed(s[..|s| - 1])
  }

  lemma ReversedSuffix<T>(s: seq<T>, k: int, r: seq<T>)
    requires 0 <= k <= |s| && |r| == |s| - k
    requires forall i :: 0 <= i < |r| ==> r[i] == s[|s| - 1 - i]
    ensures Reversed(r) == s[k..]
  {
    forall i | 0 <= i < |r|
      ensures Reversed(r)[i] == s[k..][i]
    {
      assert Reversed(r)[i] == r[|r| - 1 - i];
    }
  }
}
