/**
 * The memory accesses list_destroy makes on node k of the chain (k counts
 * from the first node): Free(k) when destroy_item releases it, ReadNext(k)
 * when the loop reads its next field to advance the cursor.
 */
module Teardown {

  datatype Event = Free(k: nat) | ReadNext(k: nat)

  /** No node's next field is read after that node has been released. */
  ghost predicate NoUseAfterFree(es: seq<Event>)
  {
    forall i, j :: 0 <= i < j < |es| && es[i].Free? && es[j].ReadNext? ==> es[i].k != es[j].k
  }

  /** Every event of the first n iterations is about one of nodes 0 .. n-1. */
  ghost predicate Below(es: seq<Event>, n: nat)
  {
    forall i :: 0 <= i < |es| ==> es[i].k < n
  }

  /**
   * The loop as written: destroy_item(item) frees the node, and then the
   * increment `item = item->next` reads the freed node.
   */
  function AsWritten(n: nat): (es: seq<Event>)
    ensures |es| == 2 * n
  {
    if n == 0 then [] else AsWritten(n - 1) + [Free(n - 1), ReadNext(n - 1)]
  }

  /** The loop with the successor read into a local before destroy_item is called. */
  function Cached(n: nat): (es: seq<Event>)
    ensures |es| == 2 * n
  {
    if n == 0 then [] else Cached(n - 1) + [ReadNext(n - 1), Free(n - 1)]
  }

  /** The two events of iteration k of a teardown trace. */
  function Iteration(es: seq<Event>, k: nat): (w: seq<Event>)
    requires 2 * k + 2 <= |es|
    ensures |w| == 2 && w[0] == es[2 * k] && w[1] == es[2 * k + 1]
  {
    es[2 * k..2 * k + 2]
  }

  /**
   * As written, tearing down any non-empty list reads a freed node: every
   * iteration, on its own, reads the next field of the node it has just freed.
   */
  lemma AsWrittenReadsFreedNode(n: nat)
    requires n > 0
    ensures !NoUseAfterFree(AsWritten(n))
    ensures forall k :: 0 <= k < n ==> !NoUseAfterFree(Iteration(AsWritten(n), k))
  {
    var es := AsWritten(n);
    forall k | 0 <= k < n
      ensures !NoUseAfterFree(Iteration(es, k))
    {
      SameReleases(n, k);
      var w := Iteration(es, k);
      assert w[0] == Free(k) && w[1] == ReadNext(k);
    }
    SameReleases(n, 0);
    assert es[0] == Free(0) && es[1] == ReadNext(0);
  }

  lemma {:induction false} CachedBelow(n: nat)
    ensures Below(Cached(n), n)
  {
    if n > 0 {
      CachedBelow(n - 1);
    }
  }

  /** With the successor cached, no node is ever read after it is released. */
  lemma {:induction false} CachedIsSafe(n: nat)
    ensures NoUseAfterFree(Cached(n))
  {
    if n > 0 {
      var prefix := Cached(n - 1);
      var es := Cached(n);
      assert es == prefix + [ReadNext(n - 1), Free(n - 1)];
      CachedIsSafe(n - 1);
      CachedBelow(n - 1);
      forall i, j | 0 <= i < j < |es| && es[i].Free? && es[j].ReadNext?
        ensures es[i].k != es[j].k
      {
        if j < |prefix| {
          assert es[i] == prefix[i] && es[j] == prefix[j];
        } else {
          assert j == |prefix|;
          assert es[i] == prefix[i];
        }
      }
    }
  }

  /**
   * Iteration k of either loop consists of exactly one release of node k and
   * one read of its next field, in opposite orders: both loops release the
   * same nodes, each exactly once, in chain order.
   */
  lemma {:induction false} SameReleases(n: nat, k: nat)
    requires k < n
    ensures AsWritten(n)[2 * k] == Free(k) && AsWritten(n)[2 * k + 1] == ReadNext(k)
    ensures Cached(n)[2 * k] == ReadNext(k) && Cached(n)[2 * k + 1] == Free(k)
  {
    if k < n - 1 {
      SameReleases(n - 1, k);
      assert AsWritten(n)[2 * k] == AsWritten(n - 1)[2 * k];
      assert AsWritten(n)[2 * k + 1] == AsWritten(n - 1)[2 * k + 1];
      assert Cached(n)[2 * k] == Cached(n - 1)[2 * k];
      assert Cached(n)[2 * k + 1] == Cached(n - 1)[2 * k + 1];
    }
  }
}
