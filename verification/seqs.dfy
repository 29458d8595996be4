/** Sequence helpers used by the list model. */
module Seqs {

  /** The elements of s, last first. */
  function Reverse<T>(s: seq<T>): (r: seq<T>)
    ensures |r| == |s|
    ensures forall k :: 0 <= k < |s| ==> r[k] == s[|s| - 1 - k]
  {
    if |s| == 0 then [] else [s[|s| - 1]] + Reverse(s[..|s| - 1])
  }

  /** Reversing keeps every element with its multiplicity. */
  lemma {:induction false} ReverseMultiset<T>(s: seq<T>)
    ensures multiset(Reverse(s)) == multiset(s)
  {
    if |s| > 0 {
      ReverseMultiset(s[..|s| - 1]);
      assert s == s[..|s| - 1] + [s[|s| - 1]];
    }
  }

  /** s with x placed at index k; the elements before k and from k on keep their order. */
  function InsertAt<T>(s: seq<T>, k: nat, x: T): (r: seq<T>)
    requires k <= |s|
    ensures |r| == |s| + 1 && r[k] == x
    ensures r[..k] == s[..k] && r[k + 1..] == s[k..]
  {
    s[..k] + [x] + s[k..]
  }

  /** s without the element at index k. */
  function DeleteAt<T>(s: seq<T>, k: nat): (r: seq<T>)
    requires k < |s|
    ensures |r| + 1 == |s|
    ensures r[..k] == s[..k] && r[k..] == s[k + 1..]
    ensures multiset(r) + multiset{s[k]} == multiset(s)
  {
    assert s == s[..k] + [s[k]] + s[k + 1..];
    s[..k] + s[k + 1..]
  }

  /** Deleting what was just inserted gives the sequence back. */
  lemma DeleteInsert<T>(s: seq<T>, k: nat, x: T)
    requires k <= |s|
    ensures DeleteAt(InsertAt(s, k, x), k) == s
  {
    var t := InsertAt(s, k, x);
    assert DeleteAt(t, k) == t[..k] + t[k + 1..];
    assert s == s[..k] + s[k..];
  }
}
