/**
 * The doubly-linked list of gridlab-d/core/list.c: a header (LIST) with
 * first, last and size, and a chain of items (LISTITEM) that each hold a
 * non-owning payload reference and links to their neighbours.
 *
 * The payload is the type parameter T; the list never looks inside it.
 * Memory allocation is Dafny's `new`; a failing malloc is the caller's
 * choice `alloc == false`, and the null result stands for ENOMEM.
 * A List carries two ghost views: `nodes`, the chain from first to last,
 * and `contents`, the payloads in that order.
 */
module LinkedList {
  import opened Shuffling
  import opened Teardown

  /**
   * A list item: a payload and the items before and after it.  The ghost
   * field `live` is true from allocation until destroy_item releases the
   * item; reading a released item is refused by the contracts.
   */
  class Node<T> {
    var data: T
    var prev: Node?<T>
    var next: Node?<T>
    ghost var live: bool

    constructor (data: T, prev: Node?<T>, next: Node?<T>)
      ensures this.data == data && this.prev == prev && this.next == next && live
    {
      this.data := data;
      this.prev := prev;
      this.next := next;
      live := true;
    }

    /** create_item: a new item with the given fields, or null when allocation fails. */
    static method Create(data: T, prev: Node?<T>, next: Node?<T>, alloc: bool) returns (item: Node?<T>)
      ensures item == null <==> !alloc
      ensures item != null ==> fresh(item) && item.data == data && item.prev == prev && item.next == next
      ensures item != null ==> item.live
    {
      if alloc {
        item := new Node(data, prev, next);
      } else {
        item := null;
      }
    }

    /**
     * destroy_item: splice this item out of its neighbours, so that its
     * predecessor and its successor point at each other, then release it:
     * afterwards it is no longer live.  Its memory itself is not reclaimed.
     */
    method Destroy()
      requires live
      modifies this`live, prev, next
      ensures !live
      ensures data == old(data) && prev == old(prev) && next == old(next)
      ensures old(prev) != null && old(prev) != this ==> old(prev).live == old(prev.live)
      ensures old(next) != null && old(next) != this ==> old(next).live == old(next.live)
      ensures old(prev) != null ==> old(prev).next == old(next) && old(prev).data == old(prev.data)
      ensures old(next) != null ==> old(next).prev == old(prev) && old(next).data == old(next.data)
      ensures old(prev) != null && old(prev) != old(next) ==> old(prev).prev == old(prev.prev)
      ensures old(next) != null && old(prev) != old(next) ==> old(next).next == old(next.next)
    {
      if prev != null {
        prev.next := next;
      }
      if next != null {
        next.prev := prev;
      }
      live := false;
    }

    /** The read `item->next` that advances a cursor: allowed on a live item only. */
    method Next() returns (n: Node?<T>)
      requires live
      ensures n == next
    {
      n := next;
    }
  }

  /**
   * The items of ns are linked front to back: the first has no predecessor,
   * the last no successor, and each adjacent pair points at each other.
   */
  ghost predicate Linked<T>(ns: seq<Node<T>>)
    reads ns`prev, ns`next
  {
    (ns != [] ==> ns[0].prev == null && ns[|ns| - 1].next == null) &&
    (forall i, j :: 0 <= i < |ns| && j == i + 1 < |ns| ==> ns[i].next == ns[j] && ns[j].prev == ns[i])
  }

  lemma {:induction false} ShiftedEqual<T>(ns: seq<Node<T>>, i: nat, j: nat, d: nat)
    requires Linked(ns) && i < j && j + d < |ns|
    ensures ns[i] == ns[j] ==> ns[i + d] == ns[j + d]
  {
    if d > 0 {
      ShiftedEqual(ns, i, j, d - 1);
    }
  }

  /** A linked chain has no cycle: it never visits the same item twice. */
  lemma {:induction false} LinkedDistinct<T>(ns: seq<Node<T>>)
    requires Linked(ns)
    ensures forall i, j :: 0 <= i < j < |ns| ==> ns[i] != ns[j]
  {
    forall i, j | 0 <= i < j < |ns|
      ensures ns[i] != ns[j]
    {
      var d := |ns| - 1 - j;
      ShiftedEqual(ns, i, j, d);
      assert ns[i + d].next == ns[i + d + 1];
      assert ns[j + d].next == null;
    }
  }

  /**
   * destroy_item applied to item k of a linked chain: the chain without
   * that item is again linked, the removed item keeps its own links, only
   * the two neighbours change, and no payload moves.
   */
  method SpliceOut<T>(ns: seq<Node<T>>, k: nat)
    requires Linked(ns) && k < |ns| && ns[k].live
    modifies ns
    ensures Linked(ns[..k] + ns[k + 1..])
    ensures ns[k].prev == old(ns[k].prev) && ns[k].next == old(ns[k].next)
    ensures forall m :: 0 <= m < |ns| && m + 1 != k && m != k + 1 ==> ns[m].prev == old(ns[m].prev) && ns[m].next == old(ns[m].next)
    ensures forall m :: 0 <= m < |ns| ==> ns[m].data == old(ns[m].data)
    ensures !ns[k].live && forall m :: 0 <= m < |ns| && m != k ==> ns[m].live == old(ns[m].live)
  {
    LinkedDistinct(ns);
    assert ns[k].prev == if k > 0 then ns[k - 1] else null;
    assert ns[k].next == if k + 1 < |ns| then ns[k + 1] else null;
    ns[k].Destroy();
    var rest := ns[..k] + ns[k + 1..];
    forall i, j | 0 <= i < |rest| && j == i + 1 < |rest|
      ensures rest[i].next == rest[j] && rest[j].prev == rest[i]
    {
      if j < k {
        assert rest[i] == ns[i] && rest[j] == ns[j];
      } else if i < k {
        assert rest[i] == ns[k - 1] && rest[j] == ns[k + 1];
      } else {
        assert rest[i] == ns[i + 1] && rest[j] == ns[j + 1];
      }
    }
  }

  /** A list header. */
  class List<T> {
    var first: Node?<T>
    var last: Node?<T>
    var size: nat
    ghost var nodes: seq<Node<T>>
    ghost var contents: seq<T>

    /** The representation invariant of a header and its chain. */
    ghost predicate Valid()
      reads this, nodes
      ensures Valid() ==> (first == null <==> size == 0) && (last == null <==> size == 0)
      ensures Valid() && size > 0 ==> first.prev == null && last.next == null
    {
      size == |nodes| && |contents| == |nodes| &&
      Linked(nodes) &&
      (nodes == [] ==> first == null && last == null) &&
      (nodes != [] ==> first == nodes[0] && last == nodes[|nodes| - 1]) &&
      (forall k :: 0 <= k < |nodes| ==> nodes[k].data == contents[k]) &&
      (forall k :: 0 <= k < |nodes| ==> nodes[k].live)
    }

    constructor ()
      ensures Valid() && first == null && last == null && size == 0
      ensures nodes == [] && contents == []
    {
      first := null;
      last := null;
      size := 0;
      nodes := [];
      contents := [];
    }

    /** list_create: a new empty list, or null when allocation fails. */
    static method Create(alloc: bool) returns (list: List?<T>)
      ensures list == null <==> !alloc
      ensures list != null ==> fresh(list) && list.Valid()
      ensures list != null ==> list.first == null && list.last == null && list.size == 0
      ensures list != null ==> list.nodes == [] && list.contents == []
    {
      if alloc {
        list := new List();
      } else {
        list := null;
      }
    }

    /** list_append: link a new item holding data after the last one. */
    method Append(data: T, alloc: bool) returns (item: Node?<T>)
      requires Valid()
      modifies this, last
      ensures Valid()
      ensures item == null <==> !alloc
      ensures item == null ==> unchanged(this) && (old(last) != null ==> unchanged(old(last)))
      ensures item != null ==> fresh(item) && last == item && item.data == data
      ensures item != null ==> item.prev == old(last) && item.next == null
      ensures item != null && old(last) != null ==> old(last).next == item
      ensures item != null ==> first == (if old(first) == null then item else old(first))
      ensures item != null ==> size == old(size) + 1
      ensures item != null ==> nodes == old(nodes) + [item] && contents == old(contents) + [data]
    {
      LinkedDistinct(nodes);
      item := Node.Create(data, last, null, alloc);
      if item != null {
        if first == null {
          first := item;
        }
        if last != null {
          last.next := item;
        }
        last := item;
        size := size + 1;
        nodes := nodes + [item];
        contents := contents + [data];
      }
    }

    /**
     * list_destroy: destroy every item from the first on.  The successor is
     * read (through Next, which needs a live item) before each item is
     * destroyed; `events` records those reads and releases in order.  As in
     * the source, the header is kept and first and last are left as they
     * were; the chain itself is gone.
     */
    method Destroy() returns (ghost events: seq<Event>)
      requires Valid()
      modifies this, nodes
      ensures size == 0 && nodes == [] && contents == []
      ensures first == old(first) && last == old(last)
      ensures forall k :: 0 <= k < |old(nodes)| ==> old(nodes)[k].prev == null
      ensures forall k :: 0 <= k < |old(nodes)| ==> old(nodes)[k].next == old(nodes[k].next)
      ensures forall k :: 0 <= k < |old(nodes)| ==> old(nodes)[k].data == old(nodes[k].data)
      ensures forall k :: 0 <= k < |old(nodes)| ==> !old(nodes)[k].live
      ensures events == Cached(old(size))
    {
      ghost var chain := nodes;
      ghost var n := |nodes|;
      LinkedDistinct(nodes);
      events := [];
      var item := first;
      ghost var c := 0;
      while item != null
        invariant 0 <= c <= n
        invariant size == n - c
        invariant nodes == chain[c..] && contents == old(contents)[c..]
        invariant item == if c < n then chain[c] else null
        invariant first == old(first) && last == old(last)
        invariant forall k :: 0 <= k < n ==>
          chain[k].prev == (if k <= c then null else old(chain[k].prev)) &&
          chain[k].next == old(chain[k].next) && chain[k].data == old(chain[k].data) &&
          chain[k].live == (c <= k)
        invariant events == Cached(c)
        decreases n - c
      {
        assert c + 1 < n ==> item.next == chain[c + 1];
        assert c + 1 == n ==> item.next == null;
        var next := item.Next();
        events := events + [ReadNext(c)];
        item.Destroy();
        events := events + [Free(c)];
        size := size - 1;
        nodes := nodes[1..];
        contents := contents[1..];
        item := next;
        c := c + 1;
      }
    }

    /** The index array of list_shuffle: the items in list order, one per element. */
    method BuildIndex() returns (index: array<Node<T>>)
      requires Valid() && size > 0
      ensures fresh(index) && index.Length == size && index[..] == nodes
    {
      var head: Node<T> := first;
      index := new Node<T>[size](_ => head);
      var i := 0;
      var item := first;
      while item != null
        invariant 0 <= i <= size
        invariant item == if i < size then nodes[i] else null
        invariant index[..i] == nodes[..i]
        decreases size - i
      {
        index[i] := item;
        i := i + 1;
        item := item.next;
      }
    }

    /**
     * One iteration of the swap loop of list_shuffle: exchange the payloads
     * of items i and j, reached through the index array.
     */
    method SwapAt(index: array<Node<T>>, i: nat, j: nat)
      requires Valid() && index[..] == nodes && i < size && j < size
      modifies this`contents, nodes`data
      ensures Valid() && nodes == old(nodes)
      ensures contents == Swapped(old(contents), i, j)
    {
      ghost var ns := nodes;
      LinkedDistinct(ns);
      var from := index[i];
      var to := index[j];
      assert from == ns[i] && to == ns[j];
      var temp := from.data;
      from.data := to.data;
      to.data := temp;
      contents := Swapped(contents, i, j);
      forall k | 0 <= k < |ns|
        ensures ns[k].data == contents[k]
      {
        if k != i && k != j {
          assert ns[k] != ns[i] && ns[k] != ns[j];
        }
      }
    }

    /**
     * The swap loop of list_shuffle: for each position i, exchange the
     * payloads of items i and SwapIndex(rand, i, size), that is rand(i) % size.
     */
    method SwapPayloads(index: array<Node<T>>, rand: nat -> nat)
      requires Valid() && index[..] == nodes
      modifies this`contents, nodes`data
      ensures Valid() && nodes == old(nodes)
      ensures contents == Swaps(old(contents), size, rand)
    {
      var i := 0;
      while i < size
        invariant 0 <= i <= size
        invariant Valid() && nodes == old(nodes)
        invariant contents == Swaps(old(contents), i, rand)
      {
        var j := SwapIndex(rand, i, size);
        assert Swaps(old(contents), i + 1, rand) == Swapped(contents, i, j);
        SwapAt(index, i, j);
        i := i + 1;
      }
    }

    /**
     * list_shuffle on a list: with fewer than two items nothing happens;
     * otherwise build the index array and run the swap loop.  The chain is
     * untouched and only payloads move.
     */
    method Shuffle(rand: nat -> nat)
      requires Valid()
      modifies this`contents, nodes`data
      ensures Valid()
      ensures first == old(first) && last == old(last) && size == old(size) && nodes == old(nodes)
      ensures forall k :: 0 <= k < |nodes| ==> nodes[k].prev == old(nodes[k].prev) && nodes[k].next == old(nodes[k].next)
      ensures contents == Shuffled(old(contents), rand)
      ensures multiset(contents) == multiset(old(contents))
      ensures old(size) < 2 ==> contents == old(contents)
    {
      if size < 2 {
        return;
      }
      var index := BuildIndex();
      SwapPayloads(index, rand);
      ShuffledPermutes(old(contents), rand);
    }
  }

  /** list_shuffle: a null list is left alone. */
  method ListShuffle<T>(list: List?<T>, rand: nat -> nat)
    requires list != null ==> list.Valid()
    modifies (if list == null then {} else {list})`contents
    modifies (if list == null then [] else list.nodes)`data
    ensures list != null ==> list.Valid() && list.contents == Shuffled(old(list.contents), rand)
    ensures list != null ==> list.first == old(list.first) && list.last == old(list.last)
    ensures list != null ==> list.size == old(list.size) && list.nodes == old(list.nodes)
  {
    if list == null {
      return;
    }
    list.Shuffle(rand);
  }

  /** Create, append 10, 20 and 30, fail one append, then destroy. */
  method Example() {
    var list := List<int>.Create(true);
    var a := list.Append(10, true);
    var b := list.Append(20, true);
    var c := list.Append(30, true);
    assert list.size == 3 && list.contents == [10, 20, 30];
    assert list.first.data == 10 && list.last.data == 30;
    var d := list.Append(40, false);
    assert d == null && list.size == 3 && list.contents == [10, 20, 30];
    ghost var events := list.Destroy();
    assert list.size == 0 && NoUseAfterFree(events) by {
      CachedIsSafe(3);
    }
  }
}
