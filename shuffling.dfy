/**
 * The payload permutation performed by list_shuffle, stated on the
 * sequence of payloads in list order.  The random source is a parameter:
 * rand(i) is the value returned by the i-th call to rand(), made in the
 * i-th iteration of the swap loop.
 */
module Shuffling {

  /** The payloads at positions i and j exchanged; every other position kept. */
  function Swapped<T>(s: seq<T>, i: nat, j: nat): (r: seq<T>)
    requires i < |s| && j < |s|
    ensures |r| == |s|
    ensures r[i] == s[j] && r[j] == s[i]
    ensures forall k :: 0 <= k < |s| && k != i && k != j ==> r[k] == s[k]
  {
    seq(|s|, k requires 0 <= k < |s| => if k == i then s[j] else if k == j then s[i] else s[k])
  }

  /** An exchange neither adds, loses nor duplicates a payload. */
  lemma SwappedPermutes<T>(s: seq<T>, i: nat, j: nat)
    requires i < |s| && j < |s|
    ensures multiset(Swapped(s, i, j)) == multiset(s)
  {
    assert Swapped(s, i, j) == s[i := s[j]][j := s[i]];
  }

  /** The swap index used in iteration i of a list of n payloads: rand() % n. */
  function SwapIndex(rand: nat -> nat, i: nat, n: nat): (j: nat)
    requires n > 0
    ensures j < n
  {
    rand(i) % n
  }

  /**
   * The payloads after the first n iterations of the swap loop over s:
   * iteration i exchanges position i with position SwapIndex(rand, i, |s|).
   */
  function Swaps<T>(s: seq<T>, n: nat, rand: nat -> nat): (r: seq<T>)
    requires n <= |s|
    ensures |r| == |s|
  {
    if n == 0 then s
    else Swapped(Swaps(s, n - 1, rand), n - 1, SwapIndex(rand, n - 1, |s|))
  }

  /** One iteration of the swap loop neither adds, loses nor duplicates a payload. */
  lemma SwapStepPermutes<T>(s: seq<T>, n: nat, rand: nat -> nat)
    requires 0 < n <= |s|
    ensures multiset(Swaps(s, n, rand)) == multiset(Swaps(s, n - 1, rand))
  {
    var before := Swaps(s, n - 1, rand);
    var j := SwapIndex(rand, n - 1, |s|);
    assert Swaps(s, n, rand) == Swapped(before, n - 1, j);
    SwappedPermutes(before, n - 1, j);
  }

  /** Any number of iterations is a sequence of exchanges, so it permutes its input. */
  lemma {:induction false} SwapsPermute<T>(s: seq<T>, n: nat, rand: nat -> nat)
    requires n <= |s|
    ensures multiset(Swaps(s, n, rand)) == multiset(s)
  {
    if n > 0 {
      SwapStepPermutes(s, n, rand);
      SwapsPermute(s, n - 1, rand);
    }
  }

  /** The payloads after list_shuffle: unchanged below two elements, else all size iterations. */
  function Shuffled<T>(s: seq<T>, rand: nat -> nat): (r: seq<T>)
    ensures |r| == |s|
  {
    if |s| < 2 then s else Swaps(s, |s|, rand)
  }

  /** Permutation closure: the shuffled payloads are the original ones, with multiplicity. */
  lemma {:induction false} ShuffledPermutes<T>(s: seq<T>, rand: nat -> nat)
    ensures multiset(Shuffled(s, rand)) == multiset(s)
  {
    if |s| >= 2 {
      SwapsPermute(s, |s|, rand);
    }
  }

  /**
   * The early return for fewer than two elements changes nothing: running
   * the swap loop on such a list would give back the same payloads.
   */
  lemma {:induction false} ShortListUnchanged<T>(s: seq<T>, rand: nat -> nat)
    requires |s| < 2
    ensures Swaps(s, |s|, rand) == s
    ensures Shuffled(s, rand) == s
  {
    if |s| == 1 {
      assert Swaps(s, 0, rand) == s;
      assert Swapped(s, 0, SwapIndex(rand, 0, 1)) == s;
    }
  }

  /**
   * Iterations whose draw lands on their own position exchange an item's
   * payload with itself, so they leave the payloads in their original order.
   */
  lemma {:induction false} FixedDrawsKeepOrder<T>(s: seq<T>, n: nat, rand: nat -> nat)
    requires n <= |s|
    requires forall k :: 0 <= k < n ==> rand(k) % |s| == k
    ensures Swaps(s, n, rand) == s
  {
    if n > 0 {
      FixedDrawsKeepOrder(s, n - 1, rand);
      assert Swapped(s, n - 1, SwapIndex(rand, n - 1, |s|)) == s;
    }
  }

  /** Payloads the shuffle receives are exactly the payloads it returns, with multiplicity. */
  lemma ShuffledKeepsMembers<T>(s: seq<T>, rand: nat -> nat, x: T)
    ensures x in Shuffled(s, rand) <==> x in s
  {
    var r := Shuffled(s, rand);
    ShuffledPermutes(s, rand);
    assert multiset(r)[x] == multiset(s)[x];
  }
}
