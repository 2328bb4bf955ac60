# gridlab-d list management routines, modelled in Dafny

`gridlab-d/core/list.c` is the small doubly-linked list that the simulation
core uses in its rank indexes. A header (`LIST`) holds `first`, `last` and
`size`. Each item (`LISTITEM`) holds an opaque payload pointer and links to
its neighbours. The file provides these operations:

- `create_item` and `destroy_item`: allocate an item, or splice one out of
  its neighbours and free it;
- `list_create`: an empty header;
- `list_append`: link a new item after the last one;
- `list_destroy`: walk the chain and destroy every item;
- `list_shuffle`: copy the items into an index array, then swap payloads
  between position `i` and position `rand() % size` for every `i`.

The model has three modules:

- `LinkedList` (list.dfy) holds the classes.
  - `Node<T>` is an item and `List<T>` is a header.
  - The payload is the type parameter `T`.
  - A `List` carries two ghost views: `nodes`, the chain from `first` to
    `last`, and `contents`, the payloads in that order.
  - `List.Valid()` ties the pointers to those views: `size` is the chain
    length, `first`/`last` are null exactly when the list is empty, the end
    links are null, each adjacent pair points at each other, and every item
    is live. A `Node`'s ghost flag `live` is true from allocation until
    `destroy_item` releases it.
  - Every operation is a method that updates the fields in place, as the C
    code does.
- `Shuffling` (shuffling.dfy) specifies the swap loop of `list_shuffle` as a
  function on the payload sequence and proves that it permutes its input.
- `Teardown` (teardown.dfy) records, in order, the releases of items and
  the cursor's reads of their `next` fields in the `list_destroy` loop
  (the reads and writes that `destroy_item` makes on the neighbours are not
  recorded). It shows that the loop as written reads a freed item.

Allocation failure is an input, `alloc: bool`: when it is false, the
allocating operation returns null, which stands for `ENOMEM`. The random
source is an input `rand: nat -> nat`, where `rand(i)` is the value that
the i-th call to `rand()` returns.

## Model

| member | source | states |
|---|---|---|
| LinkedList.Node.Create | gridlab-d/core/list.c:19-33 | null exactly when allocation fails; otherwise a fresh item whose data, prev and next are the arguments |
| LinkedList.Node.Destroy | gridlab-d/core/list.c:37-44 | requires a live item; the predecessor's next becomes the item's next and the successor's prev becomes the item's prev, and the item is released (no longer live); nothing else changes, not even the item's own links, any payload or a neighbour's liveness |
| LinkedList.Node.Next | gridlab-d/core/list.c:70 | the cursor step `item->next` returns the item's successor and may only be taken on a live (not yet released) item |
| LinkedList.SpliceOut | gridlab-d/core/list.c:37-44 | destroying item k of a linked chain leaves the chain without item k linked (end links null, every adjacent pair mutually linked); only the two neighbours change and no payload moves |
| LinkedList.LinkedDistinct | gridlab-d/core/list.c:70 | the items of a chain linked front to back are pairwise distinct; this is what lets `Append`, `Destroy`, `SwapAt` and `SpliceOut` conclude that writing one item leaves every other item unchanged |
| LinkedList.List.Valid | gridlab-d/core/list.c:86-93 | the representation invariant (size is the chain length, the chain is linked, every item is live and holds its payload) implies that first and last are null exactly when size is 0, and that first.prev and last.next are null in a non-empty list |
| LinkedList.List.Create | gridlab-d/core/list.c:51-63 | null exactly when allocation fails; otherwise a fresh valid header with first and last null, size 0 and no items |
| LinkedList.List.Append | gridlab-d/core/list.c:83-96 | on success the new item is last, its prev is the old last and its next is null, the old last points at it, first changes only if the list was empty, size grows by one, and the payloads become the old ones followed by data; on failure null is returned and the header and old last item are unchanged; validity is preserved either way |
| LinkedList.List.Destroy | gridlab-d/core/list.c:67-76 | every item of the chain is destroyed (its prev cleared by the splice, its next and payload kept), size ends at 0 and the chain is empty; first and last keep their old values; every item ends released, and since each cursor step goes through `Node.Next`, which needs a live item, no item is read after its release; the trace of releases and cursor reads recorded beside them is `Cached(size)` |
| LinkedList.List.BuildIndex | gridlab-d/core/list.c:111-113 | the index array has exactly size entries, and they are the items in list order |
| LinkedList.List.SwapAt | gridlab-d/core/list.c:116-121 | one loop iteration exchanges the payloads at positions i and j of the list and nothing else; the chain and validity are kept |
| LinkedList.List.SwapPayloads | gridlab-d/core/list.c:114-122 | after the loop the payloads are `Swaps(old payloads, size, rand)`; the chain and validity are kept |
| LinkedList.List.Shuffle | gridlab-d/core/list.c:108-123 | first, last, size, the chain and every link are unchanged; the payloads become `Shuffled(old payloads, rand)`, a permutation of the old ones; with fewer than two items nothing changes |
| LinkedList.ListShuffle | gridlab-d/core/list.c:100-107 | a null list is left alone; otherwise the list stays valid, first, last, size and the item sequence are unchanged, and the payloads become `Shuffled(old payloads, rand)` |
| Shuffling.Swaps | gridlab-d/core/list.c:114-122 | the payloads after the first n iterations of the swap loop, iteration i exchanging positions i and `rand(i) % size`; its contract keeps the length, and `SwapsPermute` proves it a permutation |
| Shuffling.Shuffled | gridlab-d/core/list.c:106-122 | the payloads after list_shuffle: unchanged below two items, else all size iterations of the swap loop; its contract keeps the length, and `ShuffledPermutes` proves it a permutation |
| Shuffling.Swapped | gridlab-d/core/list.c:118-121 | positions i and j exchange their payloads and every other position is kept |
| Shuffling.SwappedPermutes | gridlab-d/core/list.c:118-121 | an exchange keeps the multiset of payloads |
| Shuffling.SwapIndex | gridlab-d/core/list.c:117 | the swap index `rand() % size` always lies in [0, size) |
| Shuffling.SwapStepPermutes | gridlab-d/core/list.c:114-122 | one more iteration of the swap loop keeps the multiset of payloads |
| Shuffling.SwapsPermute | gridlab-d/core/list.c:114-122 | any number of iterations keeps the multiset of payloads |
| Shuffling.ShuffledPermutes | gridlab-d/core/list.c:108-122 | the shuffled payloads are a permutation of the originals |
| Shuffling.ShortListUnchanged | gridlab-d/core/list.c:108-109 | with fewer than two payloads the early return matches the swap loop, which would change nothing anyway |
| Shuffling.FixedDrawsKeepOrder | gridlab-d/core/list.c:117-121 | if every draw lands on its own position (each swap is of an item with itself) the payloads stay in their original order |
| Shuffling.ShuffledKeepsMembers | gridlab-d/core/list.c:114-122 | a payload is in the shuffled list exactly when it was in the original list |
| Teardown.AsWritten | gridlab-d/core/list.c:70-72 | the releases and cursor reads of the loop as written, `Free(k)` then `ReadNext(k)` for each item k in chain order; its contract gives two events per item, and `SameReleases` fixes every slot |
| Teardown.Cached | gridlab-d/core/list.c:70-72 | the releases and cursor reads of the loop with the successor read first, `ReadNext(k)` then `Free(k)` for each item k in chain order; its contract gives two events per item, and `SameReleases` fixes every slot |
| Teardown.AsWrittenReadsFreedNode | gridlab-d/core/list.c:70-72 | for every non-empty list, the loop as written reads the next field of an item it has just freed; in fact every single iteration k frees item k and then reads its next field |
| Teardown.CachedIsSafe | gridlab-d/core/list.c:70-72 | reading the successor before destroying each item never touches a freed item |
| Teardown.SameReleases | gridlab-d/core/list.c:70-72 | iteration k of either loop is exactly one release of item k and one read of its next field (as written: release first; corrected: read first), so the correction releases the same items, each once, in the same order |

## Left out

- Reclaiming memory (`free` in `destroy_item` and `list_shuffle`) is not modelled. A released item only has its ghost flag `live` cleared. `List.Destroy` drops the items from the ghost views and leaves the objects allocated.
- `malloc` and `errno` become Dafny's `new` plus the `alloc` flag.
- The result of the index `malloc` in `list_shuffle` is not checked by the code. The model assumes it succeeds.
- `rand()` and its global seed are replaced by the parameter `rand`. The statistical quality of the shuffle is not a property the model states.
- The fixed width of `size` (declared in list.h) and of the `unsigned int` counters `i` and `j` of `list_shuffle` is not modelled. `size` is a `nat`, and `size--`/`size++` cannot wrap.
- `gridlab-d/core/list.h` is not part of this model. The fields of `LIST` and `LISTITEM` are taken from their uses in list.c.
- The header is never freed by `list_destroy`, and `first` and `last` are left pointing at released items. The model follows the code and states both: callers must release the header themselves.
- LinkedList.List.Destroy: models the loop with the successor read before `destroy_item`, not the as-written order of accesses. The as-written order is `Teardown.AsWritten` (see Findings).
- LinkedList.List.Destroy: the ghost trace `events` is appended beside each read and release, not derived from them; the read-before-release order itself is enforced by `Node.Next` requiring a live item.
- Concurrency: there is none in this file.

## Findings

| source | as written | input that shows it | evidently intended | confidence | as-written member | corrected member |
|---|---|---|---|---|---|---|
| gridlab-d/core/list.c:70-72 | the loop increment `item=item->next` runs after `destroy_item(item)` has freed `item`, so each step reads freed memory | any list with at least one item: every iteration, the first included, frees its item and then reads its `next` field | read the successor into a local before destroying the item | high, not executed | Teardown.AsWrittenReadsFreedNode | Teardown.CachedIsSafe |
