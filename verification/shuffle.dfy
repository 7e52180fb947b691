/**
 * `shuffleArray` (js/script.js:39-46): a Fisher-Yates shuffle of a copy of the input. The
 * random draws are an input: `picks[i]` is the index `j` drawn when the loop is at `i`, with
 * `0 <= j <= i` as a draw scaled to `i + 1` and rounded down guarantees.
 */
module Shuffle {

  /** One draw per index, each within the range the loop at that index can produce. */
  predicate ValidPicks(picks: seq<nat>, n: nat)
  {
    |picks| == n && forall i :: 0 < i < n ==> picks[i] <= i
  }

  /** The elements at `i` and `j` exchanged. */
  function Swap<T>(s: seq<T>, i: nat, j: nat): (r: seq<T>)
    requires i < |s| && j < |s|
    ensures |r| == |s| && multiset(r) == multiset(s)
    ensures r[i] == s[j] && r[j] == s[i]
    ensures forall k :: 0 <= k < |s| && k != i && k != j ==> r[k] == s[k]
  {
    s[i := s[j]][j := s[i]]
  }

  /** The swaps the loop still has to make, at indices `hi - 1` down to 1. */
  function ShuffleDown<T>(s: seq<T>, picks: seq<nat>, hi: nat): (r: seq<T>)
    requires hi <= |s| && ValidPicks(picks, |s|)
    ensures |r| == |s| && multiset(r) == multiset(s)
    decreases hi
  {
    if hi <= 1 then s else ShuffleDown(Swap(s, hi - 1, picks[hi - 1]), picks, hi - 1)
  }

  /** The order `shuffleArray` returns for the draws `picks`: a permutation of `s`. */
  function Shuffled<T>(s: seq<T>, picks: seq<nat>): (r: seq<T>)
    requires ValidPicks(picks, |s|)
    ensures |r| == |s| && multiset(r) == multiset(s)
    ensures forall k :: 0 <= k < |r| ==> r[k] in s
  {
    var r := ShuffleDown(s, picks, |s|);
    assert forall k :: 0 <= k < |r| ==> r[k] in multiset(r);
    r
  }

  /** A prefix holds no element more often than the whole sequence. */
  lemma PrefixMultiset<T>(s: seq<T>, k: nat)
    requires k <= |s|
    ensures multiset(s[..k]) <= multiset(s)
  {
    assert s == s[..k] + s[k..];
  }

  /** The draw that always picks `j == i` makes every swap a no-op. */
  function IdentityPicks(n: nat): (p: seq<nat>)
    ensures ValidPicks(p, n)
  {
    seq(n, i => i)
  }

  lemma {:induction false} ShuffleDownIdentity<T>(s: seq<T>, hi: nat)
    requires hi <= |s|
    ensures ShuffleDown(s, IdentityPicks(|s|), hi) == s
    decreases hi
  {
    if hi > 1 {
      assert Swap(s, hi - 1, hi - 1) == s;
      ShuffleDownIdentity(s, hi - 1);
    }
  }

  /** When every draw lands on the current index, the order is unchanged. */
  lemma ShuffleIdentity<T>(s: seq<T>)
    ensures Shuffled(s, IdentityPicks(|s|)) == s
  {
    ShuffleDownIdentity(s, |s|);
  }

  /**
   * `shuffleArray`: the input array is copied and the copy is shuffled in
   * place by a descending loop; the input array is not modified.
   */
  method ShuffleArray<T>(arr: array<T>, picks: seq<nat>) returns (a: array<T>)
    requires ValidPicks(picks, arr.Length)
    ensures fresh(a)
    ensures a[..] == Shuffled(arr[..], picks)
    ensures multiset(a[..]) == multiset(arr[..])
  {
    a := new T[arr.Length](k requires 0 <= k < arr.Length reads arr => arr[k]);
    assert a[..] == arr[..];
    var i := a.Length - 1;
    while i > 0
      invariant -1 <= i < a.Length
      invariant a.Length == arr.Length
      invariant ShuffleDown(a[..], picks, i + 1) == Shuffled(arr[..], picks)
    {
      var j := picks[i];
      ghost var before := a[..];
      a[i], a[j] := a[j], a[i];
      assert a[..] == Swap(before, i, j);
      i := i - 1;
    }
  }
}
