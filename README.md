# Verified models of the wub exercises

This project models the sequential core of a collection of small C++ and Python exercises: data structures, owning pointers, value numbering, expression templates, reactive computation graphs, a state machine and a few string transforms. It proves in Dafny what each of them promises. Each group has its own module:

- **Broadcast** (`queue/naive_broadcast.cpp`): the broadcaster's subscriber registry with weak handles, and each subscriber's FIFO queue and one-way `active` flag. `broadcast` enqueues the item once into every live, active subscriber and drops every dead or inactive entry in the same pass, keeping the survivors in order.
- **OpenAddressing** (`cppdsa/wub_open_addressing_hashtable.cpp`; the `cpputils/` copy is byte-identical): a linear-probing table over `Option<(K, V)>` slots with an abstract hash function. It doubles at load 0.75 before an insert, and after a removal it resets to 8 slots when empty or halves at load 0.25. The count of stored entries equals the number of occupied slots, and a free slot always remains. **HashTableScenarios** replays the test file's sequences.
- **RingBuffer** (`cppdsa/wub_ring_buffer.cpp`, byte-identical in `cpputils/`): a bounded single-producer single-consumer buffer with one sentinel slot. Its contents are the slots from `tail_` up to `head_`, modulo the number of slots, and the requested `size_t` is taken modulo 2^64.
- **IntrusiveList** (`cpputils/intrusive_ll.cpp`): a circular doubly-linked ring of `ListHead` objects with a ghost sequence giving the ring's order. `add` and `add_tail` splice a node in after or before the head, and `remove` unlinks it and makes it a self-loop.
- **SharedPointer** (`cpputils/wub_shared_ptr.cpp`) and **UniquePointer** (`cppdsa/wub_unique_ptr.cpp`): owning handles over pointees that have a ghost `freed` flag. The shared count is a heap cell, and its value is the number of live handles sharing it.
- **TimerListModel** (`cppdsa/timer_linked_list.cpp`, byte-identical in `cpputils/`): a sorted singly-linked timer list. `addTimer` inserts by expiration time, and the expiry step of `tick` pops the longest due prefix in order.
- **ValueNumbering** (`cse/cse.cpp`): constants, variables and binary operations. Their text form and their 32-bit evaluation come with a decimal parser, so that a rendering can be read back. A canonical key is commutative for `+` and `*`, and the memo table hands out one node per key. **Decimal** holds the integer rendering and its parser, which `cse.cpp`'s `std::to_string` and `cachename.py`'s date formatting share.
- **TemplateExpr** (`cpplang_feature/crtp/template_expr.cpp`): `Matrix` over `int` entries in an N×N array, the lazy `MatrixAdd`/`MatrixMul` element formulas, assignment from an expression, and the direct `matrix_add`/`matrix_mul` loops; the fused and direct computations agree.
- **HybridGraph** (`python/wub_graph/g_hybrid.py`): task nodes with LAZY, EAGER and CACHED modes, dirty and computed flags, override stacks and `can_set`. It also has the DAG's Kahn sort, eager run, execute and reset. **TopoSort** is Kahn's algorithm, which this file and `g_tensorflow.py` share. **Reachability** is the set of transitive dependents that dirty-marking reaches.
- **LazyGraph** (`python/wub_graph/g_lazy_dyanmic.py`), **PyTorchGraph** (`python/wub_graph/g_pytorch.py`) and **TFGraph** (`python/wub_graph/g_tensorflow.py`): the three other graph styles. They are the dirty-flag reactive nodes with the CACHED/COMPUTED factory; the recompute-on-read nodes with a save-and-restore override; and the symbolic graph executed in Kahn order.
- **MarketFsm** (`python/fsm/automat_example.py`): the market-data listener's sixteen-entry transition table, and the outputs that update its state, symbol set and attempt counter.
- **CacheName** (`python/cachename.py`), **Lstm** (`python/dl/lstm.py`) and **Transpile** (`python/pycpp_transpile/transpile.py`): `expand_filenames`, the sliding windows of `create_dataset`, and `map_type`/`transpile`/`transpile_code` over a pre-parsed syntax tree.

Every graph file stores its node objects in an arena: a sequence indexed by creation order. A node's dependencies were created before it, so they sit at lower positions. User functions are abstract total functions. Values are reals in LazyGraph, PyTorchGraph and TFGraph, and an arbitrary type in HybridGraph. In all four files, each `get_value` (and TFGraph's `execute`) is proved against a ghost reference definition of what it reports, written over the arena before the read. A read is also shown to leave unchanged what every node reports.

## Model

| member | source | states |
|---|---|---|
| Broadcast.Subscriber.constructor | queue/naive_broadcast.cpp:13-16 | a new subscriber is active, owned and has an empty queue |
| Broadcast.Subscriber.Receive | queue/naive_broadcast.cpp:20-22 | an empty queue yields nothing and stays empty; otherwise the oldest message is returned and removed |
| Broadcast.Subscriber.Drain | queue/naive_broadcast.cpp:77-81 | calling `receive` until it reports nothing returns the whole queue in order and empties it |
| Broadcast.Subscriber.DropHandles | queue/naive_broadcast.cpp:38 | once every owning handle is gone the registry's weak reference no longer locks |
| Broadcast.Flags | queue/naive_broadcast.cpp:38-39 | an entry is kept exactly when its weak reference locks and it is active |
| Broadcast.Subscriber.IsActive | queue/naive_broadcast.cpp:24-26 | `is_active` is false once `unsubscribe` cleared the latch, and then the entry is not kept; while a handle is held it is true exactly when the next broadcast keeps and delivers to the entry |
| Broadcast.Filter | queue/naive_broadcast.cpp:37-48 | the entries whose flag is set, in their original order, and never more entries than before (with FilterStep, FilterSound and FilterComplete it is exactly the flagged ones) |
| Broadcast.Broadcaster.constructor | queue/naive_broadcast.cpp:30 | a new hub has an empty registry |
| Broadcast.Broadcaster.Subscribe | queue/naive_broadcast.cpp:51-56 | a fresh active subscriber with an empty queue is appended at the end of the registry |
| Broadcast.Broadcaster.Unsubscribe | queue/naive_broadcast.cpp:58-60 | only the subscriber's active flag is cleared |
| Broadcast.Broadcaster.Broadcast | queue/naive_broadcast.cpp:34-49 | the registry becomes its kept entries in their old order; every kept subscriber has the item appended to its queue, every other queue is unchanged, and no flag changes |
| Broadcast.Broadcaster.Deliver | queue/naive_broadcast.cpp:37-48 | the loop visits each entry once, queues the item for exactly the kept ones and collects them in order |
| Broadcast.FilterStep | queue/naive_broadcast.cpp:41-46 | considering one more entry appends it to the kept entries exactly when its flag is set |
| Broadcast.FilterSound | queue/naive_broadcast.cpp:43-46 | every entry that survives the pass has its flag set |
| Broadcast.FilterComplete | queue/naive_broadcast.cpp:38-41 | every entry whose flag is set survives the pass |
| Broadcast.FilterDistinct | queue/naive_broadcast.cpp:43-46 | erasing entries keeps the registry free of duplicates |
| Broadcast.AllKept | queue/naive_broadcast.cpp:38-41 | when every entry is alive and active the pass erases none |
| Broadcast.NoneKept | queue/naive_broadcast.cpp:43-46 | when no entry is alive and active the pass erases all of them |
| Broadcast.BroadcastToBoth | queue/naive_broadcast.cpp:96-97 | one broadcast to two live, active subscribers queues the item for both and keeps both registered |
| Broadcast.SubscribeTwiceBroadcastTwice | queue/naive_broadcast.cpp:74-97 | two subscriptions and two broadcasts give both subscribers the queue [1, 2] |
| Broadcast.UnsubscribeScenario | queue/naive_broadcast.cpp:58-60 | after the first subscriber unsubscribes, the next broadcast reaches only the second: they drain [1, 2] and [1, 2, 3] |
| Broadcast.BroadcastToDropped | queue/naive_broadcast.cpp:45-46 | a broadcast erases an entry whose handles are gone and queues nothing for it |
| Broadcast.DroppedHandleScenario | queue/naive_broadcast.cpp:37-48 | a subscriber whose handles were all dropped leaves an empty registry and no pending messages after the next broadcast |
| OpenAddressing.NextSlot | cppdsa/wub_open_addressing_hashtable.cpp:24 | one more probe step, `(index + 1) % table.size()`, is the next slot of the wrapped probe sequence |
| OpenAddressing.Dist | cppdsa/wub_open_addressing_hashtable.cpp:19-25 | every slot is reached by the probe from any home slot within fewer steps than there are slots |
| OpenAddressing.ProbeFrom | cppdsa/wub_open_addressing_hashtable.cpp:19-25 | the lookup loop passes only occupied slots holding other keys and stops at an empty slot or at the key, or goes all the way round |
| OpenAddressing.VacancyFrom | cppdsa/wub_open_addressing_hashtable.cpp:77-79 | the re-insertion loop passes only occupied slots and stops at the first empty one, or goes all the way round |
| OpenAddressing.ProbeStops | cppdsa/wub_open_addressing_hashtable.cpp:19-25 | with a free slot anywhere, the lookup loop stops before going round |
| OpenAddressing.VacancyStops | cppdsa/wub_open_addressing_hashtable.cpp:77-79 | with a free slot anywhere, the re-insertion loop stops before going round |
| OpenAddressing.ProbeFinds | cppdsa/wub_open_addressing_hashtable.cpp:30-39 | in a chained table with distinct keys the lookup loop ends on the key exactly when the key is stored |
| OpenAddressing.PlaceKeepsChain | cppdsa/wub_open_addressing_hashtable.cpp:26 | filling the empty slot a probe stopped at keeps every stored key reachable |
| OpenAddressing.OverwriteKeepsChain | cppdsa/wub_open_addressing_hashtable.cpp:20-22 | overwriting the value of a stored key moves no key |
| OpenAddressing.StoreEntry | cppdsa/wub_open_addressing_hashtable.cpp:20-27 | storing a pair where the key is, or in an empty slot when it is absent, replaces that key's entry, keeps keys distinct and counts one more slot only in the second case |
| OpenAddressing.ClearEntry | cppdsa/wub_open_addressing_hashtable.cpp:45-47 | emptying an occupied slot drops exactly that key's entry and one from the count |
| OpenAddressing.EmptySlots | cppdsa/wub_open_addressing_hashtable.cpp:73 | a new vector of `n` optional slots is `n` empty slots with no entries |
| OpenAddressing.ResizeEmpty | cppdsa/wub_open_addressing_hashtable.cpp:87-89 | `resize(8)` of a table of empty slots, truncating or padding, is eight empty slots |
| OpenAddressing.EmptyTable | cppdsa/wub_open_addressing_hashtable.cpp:9 | a table of empty slots has no entries and keeps every invariant |
| OpenAddressing.RebuildStep | cppdsa/wub_open_addressing_hashtable.cpp:74-81 | re-inserting the next occupied slot of the old table at the first vacancy of its probe extends the rebuilt prefix |
| OpenAddressing.RebuildSkip | cppdsa/wub_open_addressing_hashtable.cpp:75 | an empty slot of the old table adds nothing to the rebuilt table |
| OpenAddressing.RebuildDone | cppdsa/wub_open_addressing_hashtable.cpp:83 | once every old slot is processed the new table holds exactly the old entries, each reachable |
| OpenAddressing.HomeStore | cppdsa/wub_open_addressing_hashtable.cpp:18-26 | when no other key shares the key's home slot, the lookup stops at once and storing there keeps every entry at home |
| OpenAddressing.RebuildAtHome | cppdsa/wub_open_addressing_hashtable.cpp:76-80 | with distinct home slots, each re-inserted entry finds its home slot empty |
| OpenAddressing.Vacancy | cppdsa/wub_open_addressing_hashtable.cpp:76-79 | the re-insertion probe returns the first empty slot of the probe sequence |
| OpenAddressing.Rehashed | cppdsa/wub_open_addressing_hashtable.cpp:73-82 | the rebuilt table has the new size and exactly the old entries, each reachable by probing, and every entry is at home when no two keys share a home slot |
| OpenAddressing.HashTable.constructor | cppdsa/wub_open_addressing_hashtable.cpp:9 | a new table has the requested number of empty slots and no entries |
| OpenAddressing.HashTable.Probe | cppdsa/wub_open_addressing_hashtable.cpp:18-25 | the lookup loop stops at a slot that is empty or holds the key, and in a valid table it holds the key exactly when the key is stored |
| OpenAddressing.HashTable.Find | cppdsa/wub_open_addressing_hashtable.cpp:30-39 | in a valid table the result is the value stored under the key, and none exactly when the key is absent |
| OpenAddressing.HashTable.Rebuild | cppdsa/wub_open_addressing_hashtable.cpp:92-102 | rebuilding into more slots than entries keeps the entries and the count and makes every key reachable |
| OpenAddressing.HashTable.Rehash | cppdsa/wub_open_addressing_hashtable.cpp:71-84 | the table doubles its slots and keeps its entries and count |
| OpenAddressing.HashTable.Reset | cppdsa/wub_open_addressing_hashtable.cpp:87-89 | an empty table goes back to eight empty slots |
| OpenAddressing.HashTable.RehashIfNeeded | cppdsa/wub_open_addressing_hashtable.cpp:86-104 | the slot count becomes eight when empty, half when the load is at most 1/4 with more than eight slots, and stays otherwise with the table unchanged; entries and count are kept |
| OpenAddressing.HashTable.GrowIfLoaded | cppdsa/wub_open_addressing_hashtable.cpp:15-17 | at load 3/4 or more the slots double; afterwards the load is below 3/4 and the entries are kept |
| OpenAddressing.HashTable.Store | cppdsa/wub_open_addressing_hashtable.cpp:18-27 | below load 3/4, the key's entry is replaced by the new pair, in the slot the lookup stopped at, and the count grows only for a new key |
| OpenAddressing.HashTable.Insert | cppdsa/wub_open_addressing_hashtable.cpp:14-28 | the entries become the old ones with the key's entry replaced by the new pair; the count grows by one exactly for a new key; the slots double exactly at load 3/4 or more |
| OpenAddressing.HashTable.Remove | cppdsa/wub_open_addressing_hashtable.cpp:41-56 | corrected removal: the key's entry is dropped, the count falls by one exactly when the key was stored, every other key stays reachable, and an absent key changes nothing |
| OpenAddressing.HashTable.RemoveAsWritten | cppdsa/wub_open_addressing_hashtable.cpp:41-56 | the removal as written: the slot the lookup stops at is emptied and the count falls by one when it held the key, then `rehashIfNeeded` resizes; reachability of the other keys is kept only when every entry is at home |
| HashTableScenarios.CollidingPair | cppdsa/wub_open_addressing_hashtable.cpp:18-27 | keys 0 and 8 share home slot 0 of eight slots: 0 is stored in slot 0 and 8 in slot 1 |
| HashTableScenarios.LostKeyAsWritten | cppdsa/wub_open_addressing_hashtable.cpp:41-56 | after removing 0 as written, 8 is still stored but `find(8)` stops at the emptied slot 0 and returns nothing |
| HashTableScenarios.KeptKeyCorrected | cppdsa/wub_open_addressing_hashtable.cpp:41-56 | after the corrected removal of 0, `find(8)` returns its value |
| HashTableScenarios.OneTwo | cppdsa/tests/test_wub_open_addressing_hashtable.cpp:12-13 | two inserts give exactly the two entries |
| HashTableScenarios.OneTwoThree | cppdsa/tests/test_wub_open_addressing_hashtable.cpp:12-14 | three inserts give exactly the three entries |
| HashTableScenarios.InsertAndFind | cppdsa/tests/test_wub_open_addressing_hashtable.cpp:11-19 | `find(2)` after the three inserts returns "two" |
| HashTableScenarios.RemoveTwo | cppdsa/tests/test_wub_open_addressing_hashtable.cpp:22-31 | `find(2)` after removing 2 returns nothing |
| HashTableScenarios.RehashOnInsert | cppdsa/tests/test_wub_open_addressing_hashtable.cpp:34-43 | seven inserts leave seven entries in sixteen slots, the table having doubled at the seventh; the eighth does not grow it |
| HashTableScenarios.SmallKeysAtHome | cppdsa/tests/test_wub_open_addressing_hashtable.cpp:35-36 | keys smaller than the slot count have distinct home slots |
| HashTableScenarios.TopKeysHomes | cppdsa/tests/test_wub_open_addressing_hashtable.cpp:50-52 | keys 6 to 9 have distinct home slots among eight |
| HashTableScenarios.InsertNext | cppdsa/tests/test_wub_open_addressing_hashtable.cpp:47-49 | one insert of the loop adds key `i` with its text, doubling from eight to sixteen slots at the seventh key |
| HashTableScenarios.RemoveNext | cppdsa/tests/test_wub_open_addressing_hashtable.cpp:50-52 | one removal as written drops key `i`, halving from sixteen to eight slots when it leaves four keys, and every key stays at home |
| HashTableScenarios.ResetAfterRemovals | cppdsa/tests/test_wub_open_addressing_hashtable.cpp:46-57 | ten inserts and ten removals leave no entries in eight slots |
| RingBuffer.SlotCount | cppdsa/wub_ring_buffer.cpp:10 | `size + 1` in `size_t` arithmetic: below 2^64, and one more than the request for every request that fits |
| RingBuffer.RejectedSizes | cpputils/tests/test_wub_ring_buffer.cpp:77-80 | fewer than two slots result exactly for a requested size of 0, and of -1 through wrap-around |
| RingBuffer.Next | cppdsa/wub_ring_buffer.cpp:18 | `(i + 1) % size_` stays an index of the buffer |
| RingBuffer.Span | cppdsa/wub_ring_buffer.cpp:18-41 | the items from `tail_` forward to `head_` are as many as `(head_ - tail_) mod size_` |
| RingBuffer.LocklessRingBuffer.Contents | cppdsa/wub_ring_buffer.cpp:10-57 | a buffer with `size_` slots holds at most `size_ - 1` items |
| RingBuffer.LocklessRingBuffer.Init | cppdsa/wub_ring_buffer.cpp:10 | `size + 1` fresh slots with `head_` and `tail_` at 0, so nothing is stored |
| RingBuffer.LocklessRingBuffer.Create | cppdsa/wub_ring_buffer.cpp:10-14 | `invalid_argument` exactly when fewer than two slots would result; otherwise an empty buffer with `size + 1` slots |
| RingBuffer.LocklessRingBuffer.Push | cppdsa/wub_ring_buffer.cpp:16-29 | succeeds exactly when fewer than `size` items are stored, and then appends the item at the back; when full it returns false and changes nothing |
| RingBuffer.LocklessRingBuffer.Pop | cppdsa/wub_ring_buffer.cpp:31-43 | `nullopt` exactly when empty, with nothing changed; otherwise the oldest item, which leaves the queue |
| RingBuffer.LocklessRingBuffer.IsEmpty | cppdsa/wub_ring_buffer.cpp:45-47 | true exactly when `head_ == tail_`, which is exactly when nothing is stored |
| RingBuffer.LocklessRingBuffer.IsFull | cppdsa/wub_ring_buffer.cpp:49-51 | true exactly when the number stored equals the requested size |
| RingBuffer.SpanPush | cppdsa/wub_ring_buffer.cpp:26-27 | writing at `head_` and advancing it appends the item to the stored items |
| RingBuffer.SpanPop | cppdsa/wub_ring_buffer.cpp:40-41 | when `tail_ != head_` the slot at `tail_` is the oldest item and advancing `tail_` drops it |
| RingBuffer.FullBufferReopensAfterPop | cpputils/tests/test_wub_ring_buffer.cpp:63-75 | a full one-item buffer refuses a second push, yields its oldest item, and then accepts a push again |
| IntrusiveList.ListHead.constructor | cpputils/intrusive_ll.cpp:7 | a new node links to itself in both directions |
| IntrusiveList.ListHead.InsertBetween | cpputils/intrusive_ll.cpp:10-15 | after the four link writes both neighbours point at the node, and a ring with the two neighbours adjacent becomes the ring with the node spliced between them |
| IntrusiveList.ListHead.Add | cpputils/intrusive_ll.cpp:18-20 | the node becomes the head's successor: the ring `[head] + rest` becomes `[head, node] + rest` |
| IntrusiveList.ListHead.AddTail | cpputils/intrusive_ll.cpp:23-25 | the node becomes the head's predecessor: the ring `nodes` becomes `nodes + [node]` |
| IntrusiveList.ListHead.Remove | cpputils/intrusive_ll.cpp:28-33 | the old neighbours are linked to each other, the node becomes a self-loop, and the rest of a ring of two or more stays a ring in the same order |
| IntrusiveList.EmptyIffAlone | cpputils/intrusive_ll.cpp:36-38 | the head of a ring is empty exactly when the ring holds only the head |
| IntrusiveList.Traverse | cpputils/tests/test_intrusive_ll.cpp:91-99 | following `next` from the head until it returns visits exactly the ring's other nodes, in order |
| IntrusiveList.SpliceDistinct | cpputils/intrusive_ll.cpp:10-15 | splicing a node from outside into a sequence of distinct nodes keeps them distinct |
| IntrusiveList.SpliceIsRing | cpputils/intrusive_ll.cpp:10-15 | the links left by `insert_between` make the spliced sequence a ring |
| IntrusiveList.UnlinkDistinct | cpputils/intrusive_ll.cpp:28-33 | taking one node out of distinct nodes leaves them distinct |
| IntrusiveList.UnlinkIsRing | cpputils/intrusive_ll.cpp:28-33 | the links left by `remove` make the remaining sequence a ring |
| IntrusiveList.EmptyInitially | cpputils/tests/test_intrusive_ll.cpp:20-22 | a fresh head is empty |
| IntrusiveList.TwoAdded | cpputils/tests/test_intrusive_ll.cpp:25-30 | two `add`s give the ring head, second, first |
| IntrusiveList.TwoAddedAtTail | cpputils/tests/test_intrusive_ll.cpp:46-56 | two `add_tail`s give the ring head, first, second |
| IntrusiveList.AddGivesStackOrder | cpputils/tests/test_intrusive_ll.cpp:33-43 | three `add`s are traversed newest first and the head's predecessor is the oldest |
| IntrusiveList.AddTailGivesQueueOrder | cpputils/tests/test_intrusive_ll.cpp:86-100 | three `add_tail`s are traversed oldest first and the head's predecessor is the newest |
| IntrusiveList.RemoveLeavesNeighbour | cpputils/tests/test_intrusive_ll.cpp:59-70 | removing one of two items leaves the other as the head's only neighbour, and removing it too leaves the head empty |
| SharedPointer.Managed.constructor | cpputils/tests/test_wub_shared_ptr.cpp:9 | a `new` object is live and has no counter yet |
| SharedPointer.RefCount.constructor | cpputils/wub_shared_ptr.cpp:7 | `new int(1)`: a live counter of 1 whose only owner is the new handle |
| SharedPointer.SharedPtr.constructor | cpputils/wub_shared_ptr.cpp:7 | a non-null pointer gets a fresh counter whose only owner is this handle; null gets no counter |
| SharedPointer.SharedPtr.Copy | cpputils/wub_shared_ptr.cpp:10-14 | the copy shares the pointer and the counter, and the count goes up by one as the copy joins the owners |
| SharedPointer.SharedPtr.Move | cpputils/wub_shared_ptr.cpp:17-20 | pointer and counter move over with the count unchanged, the new handle replaces `other` among the owners, and `other` is null |
| SharedPointer.SharedPtr.Get | cpputils/wub_shared_ptr.cpp:57 | `get` is the stored pointer |
| SharedPointer.SharedPtr.UseCount | cpputils/wub_shared_ptr.cpp:63 | 0 for a null handle, otherwise the number of handles sharing the counter, at least 1 |
| SharedPointer.SharedPtr.Unique | cpputils/wub_shared_ptr.cpp:60 | true exactly when a counter exists and this handle is its only owner |
| SharedPointer.SharedPtr.CopyAssign | cpputils/wub_shared_ptr.cpp:23-34 | self-assignment changes nothing; otherwise the old share is released (deleting the object exactly when it was the last one) and `other`'s pointer and counter are shared |
| SharedPointer.SharedPtr.Share | cpputils/wub_shared_ptr.cpp:27-31 | a null handle joins `other`'s owners and the count goes up by one |
| SharedPointer.SharedPtr.MoveAssign | cpputils/wub_shared_ptr.cpp:37-47 | self-assignment changes nothing; otherwise the old share is released, `other`'s pointer and counter are taken with the count unchanged, and `other` is nulled |
| SharedPointer.SharedPtr.TakeOver | cpputils/wub_shared_ptr.cpp:41-44 | a null handle takes `other`'s place among the owners and `other` is null |
| SharedPointer.SharedPtr.Release | cpputils/wub_shared_ptr.cpp:67-76 | the count goes down by one and the handle leaves the owners; object and counter are deleted exactly when the count was 1; the handle is null; the other owners stay consistent |
| SharedPointer.UniqueCount | cpputils/wub_shared_ptr.cpp:60 | for a non-null handle, a count of 1 means it is the only owner |
| SharedPointer.BasicConstruction | cpputils/tests/test_wub_shared_ptr.cpp:8-12 | the pointee reads 10 and the count is 1 |
| SharedPointer.CopyConstruction | cpputils/tests/test_wub_shared_ptr.cpp:15-23 | after a copy both handles report 2 and share the pointee |
| SharedPointer.MoveConstruction | cpputils/tests/test_wub_shared_ptr.cpp:26-34 | after a move the source is null and the target reports 1 and the value 30 |
| SharedPointer.CopyAssignment | cpputils/tests/test_wub_shared_ptr.cpp:37-46 | copy assignment into a null handle gives two owners |
| SharedPointer.MoveAssignment | cpputils/tests/test_wub_shared_ptr.cpp:49-57 | move assignment into a null handle nulls the source and keeps the count at 1 |
| SharedPointer.UniqueOwnership | cpputils/tests/test_wub_shared_ptr.cpp:60-67 | a sole owner is unique; once a copy exists neither handle is |
| SharedPointer.ReleaseOwnership | cpputils/tests/test_wub_shared_ptr.cpp:70-79 | releasing one of two handles nulls it with count 0, and the other reports 1 |
| SharedPointer.NullBehaviour | cpputils/tests/test_wub_shared_ptr.cpp:88-93 | a null handle has no pointee, count 0, and is not unique |
| UniquePointer.Owned.constructor | cppdsa/tests/test_wub_unique_ptr.cpp:17 | a `new` object is live and owned by no handle yet |
| UniquePointer.UniquePtr.constructor | cppdsa/wub_unique_ptr.cpp:8 | the handle owns exactly the pointer it is given (null allowed), which stays live |
| UniquePointer.UniquePtr.Move | cppdsa/wub_unique_ptr.cpp:14-16 | the new handle takes `other`'s pointer, and `other` is left null |
| UniquePointer.UniquePtr.MoveAssign | cppdsa/wub_unique_ptr.cpp:19-26 | a self-move keeps the pointer and its pointee; otherwise the old pointee is deleted, `other`'s pointer is taken and `other` is nulled |
| UniquePointer.UniquePtr.Get | cppdsa/wub_unique_ptr.cpp:37 | `get` is the stored pointer |
| UniquePointer.UniquePtr.Release | cppdsa/wub_unique_ptr.cpp:40-42 | the old pointer is returned undeleted and adoptable again, and the handle is null |
| UniquePointer.UniquePtr.Reset | cppdsa/wub_unique_ptr.cpp:45-48 | the current pointee is deleted and the handle owns `p` (null allowed) |
| UniquePointer.UniquePtr.Destroy | cppdsa/wub_unique_ptr.cpp:11 | the destructor deletes the pointee |
| UniquePointer.AtMostOneOwner | cppdsa/wub_unique_ptr.cpp:29-30 | two valid handles with the same non-null pointee are the same handle |
| UniquePointer.DefaultIsNull | cppdsa/tests/test_wub_unique_ptr.cpp:11-14 | a default handle is null |
| UniquePointer.MoveConstruction | cppdsa/tests/test_wub_unique_ptr.cpp:21-26 | after a move construction the source is null and the target is not |
| UniquePointer.MoveAssignment | cppdsa/tests/test_wub_unique_ptr.cpp:28-60 | move assignment nulls the source and fills the target; a self-move keeps the pointer |
| UniquePointer.ReleaseAndReset | cppdsa/tests/test_wub_unique_ptr.cpp:36-54 | `release` returns the pointee and nulls the handle; `reset` with a new object stores it, and with null empties the handle |
| TimerListModel.TimerNode.constructor | cppdsa/timer_linked_list.cpp:31-32 | a node holds its expiration time and callback and links to nothing |
| TimerListModel.TimerList.constructor | cppdsa/timer_linked_list.cpp:38 | a new list is empty, well formed and has fired nothing |
| TimerListModel.TimerList.AddTimer | cppdsa/timer_linked_list.cpp:40-56 | the new node expires at `start + intervalMillis`; the chain is the old chain with exactly that node inserted at `InsertPos`, so old nodes keep their order; the list stays linked and sorted and nothing fires |
| TimerListModel.TimerList.PushFront | cppdsa/timer_linked_list.cpp:45-47 | the node becomes the head in front of the old chain |
| TimerListModel.TimerList.FindPredecessor | cppdsa/timer_linked_list.cpp:49-52 | the walk stops at the chain node right before the insertion point |
| TimerListModel.TimerList.LinkAfter | cppdsa/timer_linked_list.cpp:53-54 | the node is spliced in right after the node the walk stopped at, and the chain stays linked |
| TimerListModel.TimerList.ExpireDue | cppdsa/timer_linked_list.cpp:63-68 | the pass removes exactly the leading `DuePrefix` nodes, fires their callbacks in list order, and leaves an empty list or a head that expires after `now` |
| TimerListModel.TimerList.PopFront | cppdsa/timer_linked_list.cpp:64-67 | one pass fires the head's callback and unlinks the head |
| TimerListModel.InsertPosBounds | cppdsa/timer_linked_list.cpp:45-52 | every time before the insertion point is not after the new one, and the time at the insertion point is not before it |
| TimerListModel.ScanFinds | cppdsa/timer_linked_list.cpp:50-52 | the walk from the head ends at the first later index that ends the list or holds a time not below the new one |
| TimerListModel.InsertKeepsSorted | cppdsa/timer_linked_list.cpp:45-55 | inserting at the insertion point keeps nondecreasing times nondecreasing |
| TimerListModel.InsertedSorted | cppdsa/timer_linked_list.cpp:45-55 | the chain after an insertion at the insertion point has nondecreasing times |
| TimerListModel.EqualTimeAfterHead | cppdsa/timer_linked_list.cpp:45 | a time equal to the head's does not replace the head; it goes right after it, in front of later equal times |
| TimerListModel.LinkedCons | cppdsa/timer_linked_list.cpp:46-47 | a fresh node linked in front of a chain gives a chain |
| TimerListModel.LinkedSplice | cppdsa/timer_linked_list.cpp:53-54 | a fresh node linked in after any node of a chain gives a chain |
| TimerListModel.DuePrefixMaximal | cppdsa/timer_linked_list.cpp:63 | the expired prefix holds only times not after `now` and is followed by a time after `now` or by the end |
| TimerListModel.DuePrefixSorted | cppdsa/timer_linked_list.cpp:63-68 | on a sorted list a timer lies in the expired prefix exactly when it is due |
| ValueNumbering.Apply | cse/cse.cpp:75-86 | `+ - * /` on two `int` values fail only as undefined behaviour (a result outside the 32-bit range, or a zero divisor, which always fails) |
| ValueNumbering.TruncDivRemainder | cse/cse.cpp:83 | the quotient C++ `/` gives leaves a remainder smaller than the divisor with the sign of the dividend, i.e. it truncates toward zero |
| ValueNumbering.ConstantRoundTrip | cse/cse.cpp:20-26 | a `Constant` evaluates to its value, and its `std::to_string` text reads back as that value |
| ValueNumbering.VariableReadsLatest | cse/cse.cpp:40-49 | a variable whose name was never set fails with the runtime error; after `setVariableValue(n, v)` it evaluates to `v`, and other names keep their value |
| ValueNumbering.EvaluateCommutes | cse/cse.cpp:76-81 | `+` and `*` give the same outcome (value or error) with their operands exchanged |
| ValueNumbering.Unambiguous | cse/cse.cpp:71-73 | the rendering of a well-formed expression followed by a boundary character determines the expression and what follows it |
| ValueNumbering.ToStringInjective | cse/cse.cpp:71-73 | distinct well-formed expressions have distinct `toString` texts |
| ValueNumbering.LexTotal | cse/cse.cpp:97 | `std::string` `>` is a strict total order: of two different strings exactly one is the smaller |
| ValueNumbering.KeyCommutes | cse/cse.cpp:93-98 | the key of `+` or `*` does not depend on the order of the operands |
| ValueNumbering.KeyInjective | cse/cse.cpp:92-102 | equal keys of well-formed operations have the same operator and the same operands in key order |
| ValueNumbering.DistinctOperatorKeys | cse/cse.cpp:92-102 | operations with different operators never share a key |
| ValueNumbering.KeyKeepsOrder | cse/cse.cpp:100-101 | for an operator other than `+` and `*`, swapping two different operands changes the key |
| ValueNumbering.EqualKeysEvaluateAlike | cse/cse.cpp:92-102 | two operations with the same key evaluate to the same outcome under every variable map |
| ValueNumbering.CachedNodeSound | cse/cse.cpp:114-116 | the node cached under the key of `l op r` evaluates like `l op r` itself |
| ValueNumbering.VariableStore.constructor | cse/cse.cpp:59 | the variable map starts empty |
| ValueNumbering.VariableStore.SetVariableValue | cse/cse.cpp:47-49 | one binding inserted or overwritten, all others unchanged |
| ValueNumbering.ValueNumberTable.constructor | cse/cse.cpp:90 | the value-numbering map starts empty |
| ValueNumbering.ValueNumberTable.ProcessBinaryOperation | cse/cse.cpp:111-124 | on a key hit it returns the cached node and leaves the map unchanged; on a miss it stores exactly one new `BinaryOperation` under the key and returns it; the node returned always evaluates like `l op r` |
| ValueNumbering.Demonstration | cse/cse.cpp:126-141 | with `a = 5`, `b = a + 10` evaluates to 15, and `b * 2` requested twice (and as `2 * b`) yields one node, which evaluates to 30 |
| Decimal.IntToString | cse/cse.cpp:22 | `std::to_string` of an `int`: a minus sign exactly for negative values, then digits only |
| Decimal.ParseIntToString | cse/cse.cpp:22 | reading the decimal text of an integer back gives the integer |
| Decimal.IntToStringInjective | cse/cse.cpp:22 | distinct integers have distinct decimal texts |
| TemplateExpr.Matrix.constructor | cpplang_feature/crtp/template_expr.cpp:28-32 | every entry of a default matrix is zero |
| TemplateExpr.Matrix.FromRows | cpplang_feature/crtp/template_expr.cpp:34-39 | each entry the initializer list reaches holds the list's value |
| TemplateExpr.Matrix.Assign | cpplang_feature/crtp/template_expr.cpp:45-53 | when the target is not an operand, every entry becomes the expression's value at that entry |
| TemplateExpr.EvalAt | cpplang_feature/crtp/template_expr.cpp:65-85 | the element operator returns the operand's entry, the sum of the operands' entries, or the sum over k of the products of row i and column j |
| TemplateExpr.SumTimes | cpplang_feature/crtp/template_expr.cpp:89-97 | `(A + B) * D` builds a well-formed expression that reads exactly the three operands |
| TemplateExpr.DirectAdd | cpplang_feature/crtp/template_expr.cpp:100-107 | every entry of C is the sum of the entries of A and B before the call, even when C is A or B |
| TemplateExpr.DirectMul | cpplang_feature/crtp/template_expr.cpp:109-119 | when C is neither operand, every entry of C is the dot product of row i of A and column j of B |
| TemplateExpr.DotInto | cpplang_feature/crtp/template_expr.cpp:113-116 | the accumulation loop sets entry (i, j) to the dot product and leaves every other entry alone |
| TemplateExpr.DotLeftCongruence | cpplang_feature/crtp/template_expr.cpp:79-85 | the product's entry depends on its left operand only through row i |
| TemplateExpr.DotIdentity | cpplang_feature/crtp/template_expr.cpp:79-85 | multiplying by the identity on the right gives back the left operand's entry |
| TemplateExpr.ThroughTemporary | cpplang_feature/crtp/template_expr.cpp:132-134 | a temporary holding A + B, multiplied by D directly, gives the fused expression's entries |
| TemplateExpr.FusedAgreesWithDirect | cpplang_feature/crtp/template_expr.cpp:128-150 | the direct evaluation through a temporary and the fused expression template give the same matrix, entry by entry |
| TemplateExpr.SumTimesIdentity | cpplang_feature/crtp/template_expr.cpp:125 | with D the identity, `(A + B) * D` is A + B entry by entry |
| TemplateExpr.MainExample | cpplang_feature/crtp/template_expr.cpp:121-169 | with the matrices of `main`, both evaluations give a matrix of tens |
| TopoSort.Pigeonhole | python/wub_graph/g_hybrid.py:484 | a repetition-free list of nodes has at most as many entries as the graph has nodes, and holds every node when it has exactly that many |
| TopoSort.BuildGraph | python/wub_graph/g_hybrid.py:442-455 | each node's adjacency list names every dependent exactly as often as that dependent lists the node, and each in-degree is the length of the node's dependency list |
| TopoSort.AppendEverywhere | python/wub_graph/g_hybrid.py:452-453 | the inner loop appends the node once to the list of each dependency, per occurrence, and changes nothing else |
| TopoSort.Release | python/wub_graph/g_hybrid.py:478-481 | each dependent's in-degree falls by its number of edges from the emitted node, and exactly the dependents brought to zero are enqueued, once each, after the old queue |
| TopoSort.Kahn | python/wub_graph/g_hybrid.py:467-481 | the sort emits distinct nodes, each after everything it depends on, and emits exactly the closure of the start nodes under release |
| TopoSort.KahnReady | python/wub_graph/g_hybrid.py:474-476 | the popped node has not been emitted, and every in-degree still covers its edges from that node |
| TopoSort.KahnStep | python/wub_graph/g_hybrid.py:474-481 | emitting the popped node and enqueueing what it released keeps the loop's invariant |
| TopoSort.StepFresh | python/wub_graph/g_hybrid.py:480-481 | a node the step enqueues was not seen before |
| TopoSort.StepReached | python/wub_graph/g_hybrid.py:479-481 | after the step a node is seen exactly when it was seen before or its in-degree was just brought to zero |
| TopoSort.StepWaiting | python/wub_graph/g_hybrid.py:479-481 | every queued node still has all its dependencies emitted |
| TopoSort.StepOrdered | python/wub_graph/g_hybrid.py:474-475 | emitting the front of the queue keeps the output in dependency order |
| TopoSort.CompleteIsPermutation | python/wub_graph/g_hybrid.py:484 | a sort that emits as many distinct nodes as the graph has emits every node exactly once |
| TopoSort.ForwardGraphSorts | python/wub_graph/g_hybrid.py:470-481 | when every dependency precedes its node and every node without dependencies starts the queue, the sort emits every node |
| TopoSort.Sources | python/wub_graph/g_hybrid.py:470 | the starting queue lists, in node order and once each, exactly the nodes whose in-degree is zero |
| TopoSort.StuckIff | python/wub_graph/g_hybrid.py:483-486 | a stuck set is a nonempty set of nodes each of which depends on a member of the set |
| TopoSort.IncompleteIsStuck | python/wub_graph/g_hybrid.py:483-486 | a sort seeded with every node without dependencies that stops short leaves a stuck set behind, so the cycle error names a real cycle |
| TopoSort.OrderedAvoids | python/wub_graph/g_hybrid.py:475 | no member of a stuck set can appear in a listing in dependency order |
| TopoSort.OrderedNotStuck | python/wub_graph/g_hybrid.py:484-488 | when a listing in dependency order holds every node, every self-blocking set is empty |
| TopoSort.CompleteUnlessStuck | python/wub_graph/g_hybrid.py:483-488 | seeded with every node without dependencies, the sort emits every node exactly when the graph has no stuck set |
| TopoSort.CompleteNotStuck | python/wub_graph/g_hybrid.py:488 | a graph whose nodes are all listed in dependency order has no stuck set |
| TopoSort.NotStuck | python/wub_graph/g_hybrid.py:488 | no particular set of nodes is stuck in a graph that is listed completely in dependency order |
| Reachability.ReachStep | python/wub_graph/g_hybrid.py:164-165 | marking one more dependent adds exactly what is downstream of it |
| Reachability.ReachAll | python/wub_graph/g_hybrid.py:164-165 | marking all dependents reaches what is downstream of any of them, and marking none reaches nothing |
| Reachability.ReachBounds | python/wub_graph/g_hybrid.py:164-165 | whatever marking reaches lies in the graph after the starting node |
| Reachability.DownstreamBounds | python/wub_graph/g_hybrid.py:159-165 | everything downstream of a node lies at or after it, so marking terminates |
| Reachability.ReachHas | python/wub_graph/g_hybrid.py:164-165 | marking from a dependent reaches everything downstream of that dependent |
| Reachability.ReachElim | python/wub_graph/g_hybrid.py:164-165 | whatever marking reaches is downstream of one of the dependents |
| Reachability.DownstreamTransitive | python/wub_graph/g_hybrid.py:159-165 | whatever is downstream of something downstream of a node is downstream of the node |
| Reachability.DownstreamClosed | python/wub_graph/g_hybrid.py:164-165 | a dependent of anything downstream of a node is itself downstream of the node |
| Reachability.DownstreamDependers | python/wub_graph/g_hybrid.py:59-61 | a node that depends on something downstream of a node is itself downstream of it |
| Reachability.Copies | python/wub_graph/g_hybrid.py:60-61 | a node registered once per occurrence appears that many times and nothing else appears |
| Reachability.Enrolled | python/wub_graph/g_hybrid.py:59-61 | after a new node registers with each of its dependencies, each dependency's list gains the new node once per occurrence |
| Reachability.EnrolledNone | python/wub_graph/g_hybrid.py:59-61 | registering with no dependencies changes no list |
| Reachability.EnrolledStep | python/wub_graph/g_hybrid.py:60-61 | one more dependency appends the new node to that dependency's list |
| Reachability.EnrolledForward | python/wub_graph/g_hybrid.py:59-61 | adding a node whose dependencies all exist keeps every dependent after the node it depends on |
| Reachability.EnrolledMirrors | python/wub_graph/g_hybrid.py:59-61 | adding a node keeps the dependency lists and the dependents lists mirror images |
| HybridGraph.Registry.constructor | python/wub_graph/g_hybrid.py:190-194 | a new registry has no nodes and no keys |
| HybridGraph.Registry.AddTask | python/wub_graph/g_hybrid.py:46-61 | a new node is dirty, uncomputed and without override or dependents, and each of its dependencies gains it as a dependent once per listing; nothing else changes |
| HybridGraph.Registry.Register | python/wub_graph/g_hybrid.py:288 | the name maps to the node; a new name is appended to the keys and an existing one keeps its place |
| HybridGraph.Registry.Compute | python/wub_graph/g_hybrid.py:63-97 | without force a clean computed node returns its cached result and nothing changes; otherwise, after fetching every dependency, a None among them returns None and leaves the node as it was, and else the user function's result is stored with the node computed and clean |
| HybridGraph.Registry.FetchAll | python/wub_graph/g_hybrid.py:78 | the dependency values are fetched in order with `get_value`, each dependency being settled at the value fetched |
| HybridGraph.Registry.GetValue | python/wub_graph/g_hybrid.py:99-114 | the value returned is `Eval` of the arena before the read. `Eval` gives the top override if there is one. For a dirty lazy or cached node it gives the user function applied to the dependencies' own `Eval` values, or the stored result when one of those is None. Any other node gives its stored result, and then the read changes nothing. Only unsettled nodes change, in their results and flags. The read changes no node's `Eval` value, and afterwards the node is settled at the returned value |
| HybridGraph.Registry.SetValue | python/wub_graph/g_hybrid.py:116-133 | a node that cannot be set raises ValueError and nothing changes; otherwise the value is stored, the node marked computed and clean, and every transitive dependent marked dirty |
| HybridGraph.Registry.OverrideEnter | python/wub_graph/g_hybrid.py:148-151 | entering an override pushes the value and marks every transitive dependent dirty |
| HybridGraph.Registry.OverrideExit | python/wub_graph/g_hybrid.py:153-155 | leaving an override pops the stack and marks every transitive dependent dirty; popping an empty stack is an IndexError |
| HybridGraph.Registry.MarkDirty | python/wub_graph/g_hybrid.py:159-165 | the node and everything downstream of it are marked dirty and nothing else changes |
| HybridGraph.Registry.MarkDependentsDirty | python/wub_graph/g_hybrid.py:167-170 | everything downstream of the node, but not the node, is marked dirty |
| HybridGraph.Registry.MarkNext | python/wub_graph/g_hybrid.py:169-170 | `mark_dirty` on one more dependent marks its downstream on top of what was marked |
| HybridGraph.Registry.ResetTask | python/wub_graph/g_hybrid.py:172-178 | only a computed node is reset: uncomputed, dirty and without overrides |
| HybridGraph.Registry.Reset | python/wub_graph/g_hybrid.py:412-416 | every node the registry names is reset and every other node is unchanged |
| HybridGraph.Registry.NameGraph | python/wub_graph/g_hybrid.py:442-455 | building the graph succeeds exactly when every dependency's name is a key, giving the name graph over key positions; otherwise KeyError names a missing key |
| HybridGraph.Registry.DepRow | python/wub_graph/g_hybrid.py:452-453 | one node's dependency names are looked up in order, failing with KeyError at the first one that is not a key |
| HybridGraph.Dag.constructor | python/wub_graph/g_hybrid.py:425-433 | a new DAG has not run its eager phase |
| HybridGraph.Dag.TopologicalSort | python/wub_graph/g_hybrid.py:457-488 | an unregistered dependency name is a KeyError; otherwise the sort succeeds exactly when the name graph has no cycle, listing every key once after its dependencies, and fails with ValueError on a cycle |
| HybridGraph.Dag.RunEagerNodes | python/wub_graph/g_hybrid.py:490-519 | after a completed phase nothing happens. A KeyError propagates with nothing computed. A cycle is swallowed with nothing changed and the phase not recorded. Otherwise the nodes are visited in a topological order of names, one `EagerTurn` each: an eager node not yet computed is computed at its function of its dependencies' `Eval` values, or left as it was when one of them is None, and every other node is passed over. Each eager node keeps the state its own turn left, and the phase is recorded |
| HybridGraph.Dag.GetNodeValue | python/wub_graph/g_hybrid.py:521-534 | an unknown name is a ValueError and changes nothing; otherwise the result is `Eval` of the named node in the arena before the call, and no node's `Eval` value changes |
| HybridGraph.Dag.Execute | python/wub_graph/g_hybrid.py:536-563 | an unknown target is a ValueError and changes nothing. A KeyError from the eager phase propagates. Otherwise the eager phase takes its turns over a topological order (none after a completed phase or on a cycle), and the result is `Eval` of the target in the arena the phase leaves |
| HybridGraph.Dag.EagerStep | python/wub_graph/g_hybrid.py:508-512 | one turn of the eager loop at a node: exactly the `EagerTurn` described for `run_eager_nodes` |
| HybridGraph.EagerRunStep | python/wub_graph/g_hybrid.py:508-512 | a turn at a node no other name in the order stands for extends the run, and leaves every eager node still to come as the phase found it |
| HybridGraph.SettledEval | python/wub_graph/g_hybrid.py:106-114 | on a settled node `get_value` would report what the node already shows |
| HybridGraph.Dag.Reset | python/wub_graph/g_hybrid.py:565-568 | every registered node is reset and the eager phase may run again |
| HybridGraph.OverrideRestores | python/wub_graph/g_hybrid.py:147-155 | leaving an override restores the state entering it left, up to the same dirty marks |
| HybridGraph.DirtyReachesDependers | python/wub_graph/g_hybrid.py:159-165 | dirty marking reaches every node that transitively depends on the marked one |
| HybridGraph.SettledKept | python/wub_graph/g_hybrid.py:74-75 | a settled node stays settled while only unsettled nodes change |
| HybridGraph.SettledBlocks | python/wub_graph/g_hybrid.py:80-83 | a stale node that is settled is held back by a dependency that stays None |
| HybridGraph.BlockedSettles | python/wub_graph/g_hybrid.py:80-83 | a stale node whose dependencies are settled and one of them None is itself settled |
| HybridGraph.ComputedStep | python/wub_graph/g_hybrid.py:92-94 | storing the function's result on the fetched values leaves the node computed at the function of its dependencies' values |
| HybridGraph.AddedWired | python/wub_graph/g_hybrid.py:59-61 | creating a node keeps dependencies below and dependents above each node, and the two lists mirror each other |
| HybridGraph.IndexOf | python/wub_graph/g_hybrid.py:445-453 | a key's position in the key listing holds that key |
| HybridGraph.SortedOrder | python/wub_graph/g_hybrid.py:467-488 | the key listing of a complete Kahn order is a topological order of names |
| LazyGraph.Args | python/wub_graph/g_lazy_dyanmic.py:36 | the argument list holds each dependency's reported value, in order |
| LazyGraph.EvalBelow | python/wub_graph/g_lazy_dyanmic.py:28-40 | what a node's `get_value` reports depends only on the nodes at or below it |
| LazyGraph.EvalAgree | python/wub_graph/g_lazy_dyanmic.py:28-40 | changing one node without changing what it reports changes what no node reports |
| LazyGraph.StoreComputed | python/wub_graph/g_lazy_dyanmic.py:39-40 | storing a stale node's computed value and clearing its dirty flag leaves it reporting the function of its dependencies' values |
| LazyGraph.ComputedStep | python/wub_graph/g_lazy_dyanmic.py:35-40 | once the dependencies are fetched, storing the result keeps what every lower node reports and changes only the node's value and dirty flag |
| LazyGraph.FetchedStep | python/wub_graph/g_lazy_dyanmic.py:36 | one more dependency fetched keeps every reported value and extends the argument list by that dependency's value |
| LazyGraph.EvalLocal | python/wub_graph/g_lazy_dyanmic.py:28-40 | a node reports the same value in two arenas when it is the same node there and its dependencies report the same values |
| LazyGraph.ArgsBelow | python/wub_graph/g_lazy_dyanmic.py:36 | two arenas that agree below a node give its dependencies the same values |
| LazyGraph.DirtiedTwice | python/wub_graph/g_lazy_dyanmic.py:42-46 | marking one set of nodes dirty and then another is marking their union |
| LazyGraph.MarkedStep | python/wub_graph/g_lazy_dyanmic.py:49-50 | `mark_dirty` on the next dependent marks the downstream of one more dependent |
| LazyGraph.NodeArgs | python/wub_graph/g_lazy_dyanmic.py:94 | the dependencies of a COMPUTED call are exactly its node arguments, in order |
| LazyGraph.StoredFound | python/wub_graph/g_lazy_dyanmic.py:77 | an input stored under a name and date is found under them, and every other lookup is as before |
| LazyGraph.WubGraph.constructor | python/wub_graph/g_lazy_dyanmic.py:72-73 | a new graph has no nodes and no inputs |
| LazyGraph.WubGraph.AddNode | python/wub_graph/g_lazy_dyanmic.py:10-20 | a new node is dirty with no override and the given value, and it is appended to each dependency's dependents once per listing |
| LazyGraph.WubGraph.GetValue | python/wub_graph/g_lazy_dyanmic.py:28-33 | the value returned is the reference value of the node in the state the call starts in, and afterwards every node reports what it did; a node that is not stale (an override, no compute function, or clean) returns its shown value with nothing changed |
| LazyGraph.WubGraph.Recompute | python/wub_graph/g_lazy_dyanmic.py:35-40 | a None among the dependency values leaves the node as it was; otherwise the function's result is stored and the node marked clean |
| LazyGraph.WubGraph.FetchAll | python/wub_graph/g_lazy_dyanmic.py:36 | fetching the dependencies in order returns their reported values and changes what no node reports |
| LazyGraph.WubGraph.MarkDirty | python/wub_graph/g_lazy_dyanmic.py:42-46 | the node and everything downstream of it are marked dirty and nothing else changes |
| LazyGraph.WubGraph.MarkDependentsDirty | python/wub_graph/g_lazy_dyanmic.py:48-50 | everything downstream of the node, but not the node itself, is marked dirty |
| LazyGraph.WubGraph.MarkNext | python/wub_graph/g_lazy_dyanmic.py:49-50 | `mark_dirty` on one more dependent marks its downstream on top of what was marked |
| LazyGraph.WubGraph.SetValueAsWritten | python/wub_graph/g_lazy_dyanmic.py:22-26 | as written: a node that cannot be set raises ValueError; otherwise the value is stored, the node's own dirty flag is left alone and everything downstream is marked dirty |
| LazyGraph.WubGraph.SetValue | python/wub_graph/g_lazy_dyanmic.py:22-26 | corrected: as written, but the node is also marked clean |
| LazyGraph.WubGraph.OverrideEnter | python/wub_graph/g_lazy_dyanmic.py:56-59 | entering an override pushes the value and marks everything downstream dirty |
| LazyGraph.WubGraph.OverrideExit | python/wub_graph/g_lazy_dyanmic.py:61-63 | leaving an override pops the stack and marks everything downstream dirty; an empty stack is an IndexError |
| LazyGraph.WubGraph.Input | python/wub_graph/g_lazy_dyanmic.py:75-78 | a settable dirty node without a compute function holding the value is created and stored under the name and date |
| LazyGraph.WubGraph.GetInput | python/wub_graph/g_lazy_dyanmic.py:80-81 | the node stored under the name and date, if any; looking up an unknown name leaves an empty entry for it |
| LazyGraph.WubGraph.Fn | python/wub_graph/g_lazy_dyanmic.py:83-99 | CACHED creates a node without dependencies that loads the function's name from disk; COMPUTED creates a node over the node arguments only; any other mode raises ValueError and creates nothing |
| LazyGraph.SetLostAsWritten | python/wub_graph/g_lazy_dyanmic.py:22-33 | as written, setting a node that `get_value` would recompute does not change what it reports unless a dependency reports None: the recomputation overwrites the value set |
| LazyGraph.SetShown | python/wub_graph/g_lazy_dyanmic.py:22-30 | with the node marked clean, a node without an override reports the value just set |
| LazyGraph.OverrideShown | python/wub_graph/g_lazy_dyanmic.py:55-63 | while an override is active the node reports it; leaving it gives back the arena that marking the same nodes dirty gives without the override |
| LazyGraph.ExampleValues | python/wub_graph/g_lazy_dyanmic.py:101-107 | read from disk, spot is 100.0, fx 0.95 and usd_price 95.0 |
| LazyGraph.Loaded | python/wub_graph/g_lazy_dyanmic.py:90-92 | a dirty CACHED node without an override reports what the disk holds for its name |
| LazyGraph.ExampleArgs | python/wub_graph/g_lazy_dyanmic.py:130 | usd_price's node arguments are spot and fx |
| LazyGraph.SingleArg | python/wub_graph/g_lazy_dyanmic.py:94 | a call with one node argument depends on that node alone |
| LazyGraph.ExampleDependents | python/wub_graph/g_lazy_dyanmic.py:19-20 | spot and fx each list usd_price as their dependent |
| LazyGraph.ExampleBelow | python/wub_graph/g_lazy_dyanmic.py:48-50 | only usd_price lies downstream of fx |
| LazyGraph.ExampleOverridden | python/wub_graph/g_lazy_dyanmic.py:134-135 | with fx overridden by 1.0, usd_price reports 100.0 |
| LazyGraph.ExampleRestoredShape | python/wub_graph/g_lazy_dyanmic.py:61-63 | leaving the override gives back fx's node and the arena's shape, with usd_price stale |
| LazyGraph.ExampleRestored | python/wub_graph/g_lazy_dyanmic.py:61-63 | once the override is left every node reports what it did before it |
| LazyGraph.ExampleInputs | python/wub_graph/g_lazy_dyanmic.py:115-121 | the two CACHED calls create disk-loading nodes, the second settable |
| LazyGraph.ExampleGraph | python/wub_graph/g_lazy_dyanmic.py:128-130 | the three decorated calls build the example graph, with usd_price depending on spot and fx |
| LazyGraph.ExampleOverride | python/wub_graph/g_lazy_dyanmic.py:134-135 | inside the override usd_price reads 100.0, and afterwards every node reports what it did |
| LazyGraph.UsageExample | python/wub_graph/g_lazy_dyanmic.py:112-135 | usd_price reads 95.0, then 100.0 inside the override, then 95.0 again |
| LazyGraph.SetBeforeReadAsWritten | python/wub_graph/g_lazy_dyanmic.py:22-33 | as written, a settable CACHED node set to 1.0 before its first read still reads 0.95 |
| LazyGraph.SetBeforeRead | python/wub_graph/g_lazy_dyanmic.py:22-33 | with the corrected `set_value`, the value set before the first read is the one read |
| PyTorchGraph.Args | python/wub_graph/g_pytorch.py:24 | the argument list holds each dependency's reported value, in order |
| PyTorchGraph.EvalLocal | python/wub_graph/g_pytorch.py:22-32 | a node reports the same value in two arenas when it is the same node there and its dependencies report the same values |
| PyTorchGraph.EvalBelow | python/wub_graph/g_pytorch.py:22-32 | what a node's `get_value` reports depends only on the nodes at or below it |
| PyTorchGraph.EvalAgree | python/wub_graph/g_pytorch.py:22-32 | changing one node without changing what it reports changes what no node reports |
| PyTorchGraph.StoredIgnored | python/wub_graph/g_pytorch.py:22-31 | when no dependency reports None, what a node with a compute function reports does not depend on its stored value |
| PyTorchGraph.InputsDecide | python/wub_graph/g_pytorch.py:22-32 | when no dependency reports None anywhere, what every node reports is decided by the nodes without a compute function alone |
| PyTorchGraph.FetchedStep | python/wub_graph/g_pytorch.py:24 | one more dependency fetched keeps every reported value and extends the argument list by that dependency's value |
| PyTorchGraph.ArgsBelow | python/wub_graph/g_pytorch.py:24 | two arenas that agree below a node give its dependencies the same values |
| PyTorchGraph.StoreComputed | python/wub_graph/g_pytorch.py:25-26 | storing the function of the dependencies' values changes what no node reports, and the stored value is what the node reports |
| PyTorchGraph.ComputedStep | python/wub_graph/g_pytorch.py:22-27 | once the dependencies are fetched, storing the result keeps what every node reports and changes only the node's stored value |
| PyTorchGraph.WubGraphPyTorch.constructor | python/wub_graph/g_pytorch.py:55-56 | a new graph has no nodes and no inputs |
| PyTorchGraph.WubGraphPyTorch.AddNode | python/wub_graph/g_pytorch.py:10-14 | a new node holds the given compute function, dependencies, value and settability |
| PyTorchGraph.WubGraphPyTorch.SetValue | python/wub_graph/g_pytorch.py:16-19 | a node that cannot be set raises ValueError and nothing changes; otherwise its stored value is replaced and nothing else changes |
| PyTorchGraph.WubGraphPyTorch.GetValue | python/wub_graph/g_pytorch.py:29-32 | the value returned is the reference value of the node in the state the call starts in; it is the node's stored value afterwards, inputs are untouched and every node reports what it did |
| PyTorchGraph.WubGraphPyTorch.Compute | python/wub_graph/g_pytorch.py:22-27 | the value returned is the reference value of the node and is stored in it; only nodes with a compute function change and every node reports what it did |
| PyTorchGraph.WubGraphPyTorch.FetchAll | python/wub_graph/g_pytorch.py:24 | fetching the dependencies in order returns their reported values and changes what no node reports |
| PyTorchGraph.WubGraphPyTorch.Override | python/wub_graph/g_pytorch.py:34-49 | a fresh context for the node holding the temporary value, with no saved value yet |
| PyTorchGraph.WubGraphPyTorch.Input | python/wub_graph/g_pytorch.py:58-61 | a settable node without a compute function holding the value is created and stored under the name, replacing any earlier one |
| PyTorchGraph.WubGraphPyTorch.Fn | python/wub_graph/g_pytorch.py:63-67 | a call creates a node computing the function over the node arguments only, in order, not settable |
| PyTorchGraph.OverrideContext.constructor | python/wub_graph/g_pytorch.py:37-39 | a context holds its node and the temporary value, with no saved value |
| PyTorchGraph.OverrideContext.Enter | python/wub_graph/g_pytorch.py:41-44 | entering saves the node's stored value, stores the temporary one and returns the node |
| PyTorchGraph.OverrideContext.Exit | python/wub_graph/g_pytorch.py:46-47 | leaving stores the saved value back and changes nothing else |
| PyTorchGraph.InputShown | python/wub_graph/g_pytorch.py:16-19 | an input whose stored value is replaced, by `set_value` or by entering an override, reports the new value |
| PyTorchGraph.OverrideRestores | python/wub_graph/g_pytorch.py:41-47 | entering an override, any reads, then leaving it: every node reports what it did before, provided no dependency reported None beforehand |
| PyTorchGraph.ExampleValues | python/wub_graph/g_pytorch.py:73-81 | usd_price reports 100.0 times fx, and no dependency reports None |
| PyTorchGraph.ExampleGraph | python/wub_graph/g_pytorch.py:71-81 | the example's calls build two settable inputs, spot holding 100.0 and fx 0.95, and usd_price over them |
| PyTorchGraph.ExampleOverride | python/wub_graph/g_pytorch.py:85-86 | inside the override usd_price reads 100.0, and afterwards fx holds 0.95 again |
| PyTorchGraph.UsageExample | python/wub_graph/g_pytorch.py:71-88 | usd_price reads 95.0, then 100.0 inside the override, then 95.0 again |
| PyTorchGraph.DoublingValues | python/wub_graph/g_pytorch.py:22-27 | a node doubling an input reports twice the input, or what it has stored while the input is None |
| PyTorchGraph.OverrideOverMissing | python/wub_graph/g_pytorch.py:22-47 | leaving an override need not restore what a node reports: over an input holding None, a doubling node reports None, reads 2.0 inside the override and keeps 2.0 afterwards |
| TFGraph.LookupAll | python/wub_graph/g_tensorflow.py:33 | looking names up in order succeeds exactly when every name is a key, giving their values in order; otherwise it names the first missing key, all keys before it present |
| TFGraph.InsertKeyed | python/wub_graph/g_tensorflow.py:27-28 | assigning a key keeps a dict's keys distinct and in step with its map: a new key goes last, a present one keeps its place |
| TFGraph.InputKeeps | python/wub_graph/g_tensorflow.py:25-29 | `input` keeps the two dicts consistent with the arena |
| TFGraph.FnKeeps | python/wub_graph/g_tensorflow.py:31-37 | `fn` keeps the two dicts consistent, its node's inputs lying below it and replacing whatever its name held |
| TFGraph.VisitStep | python/wub_graph/g_tensorflow.py:42 | iterating `symbolic_nodes.values()` visits one new node per key |
| TFGraph.BuiltStep | python/wub_graph/g_tensorflow.py:43-45 | entering a node appends it to each input's list once per occurrence and raises its in-degree by its number of inputs |
| TFGraph.DepsClosed | python/wub_graph/g_tensorflow.py:39-46 | the dependency graph names only nodes of the arena |
| TFGraph.BuiltAll | python/wub_graph/g_tensorflow.py:39-46 | once every registered node is entered, the lists and in-degrees are those of the registered nodes' inputs |
| TFGraph.Args | python/wub_graph/g_tensorflow.py:80 | the input values of an operation exist exactly when every input has a value, and then are those values in order |
| TFGraph.FedMap | python/wub_graph/g_tensorflow.py:71-73 | the fed values go only to inputs, and every fed name that is an input gets a value |
| TFGraph.RawGraph.constructor | python/wub_graph/g_tensorflow.py:21-23 | a new graph has no nodes and both dicts are empty |
| TFGraph.RawGraph.Input | python/wub_graph/g_tensorflow.py:25-29 | a new node without an operation or inputs is stored under its name in both dicts |
| TFGraph.RawGraph.Fn | python/wub_graph/g_tensorflow.py:31-37 | a missing argument name is a KeyError naming the first one and changes nothing; otherwise a new node with the function and the named nodes as inputs is stored under the function's name in `symbolic_nodes` only |
| TFGraph.RawGraph.BuildDependencyGraph | python/wub_graph/g_tensorflow.py:39-46 | each registered node's list holds the registered nodes using it, once per use, and each in-degree is the number of inputs |
| TFGraph.RawGraph.TopologicalSort | python/wub_graph/g_tensorflow.py:48-64 | succeeds exactly when it emits as many nodes as `symbolic_nodes` holds, else the cycle ValueError; on success it lists exactly the emittable nodes, once each, each after all of its inputs |
| TFGraph.RawGraph.InputsDistinct | python/wub_graph/g_tensorflow.py:50 | the inputs dict holds distinct nodes of the arena, exactly those it stores, each without inputs |
| TFGraph.RawGraph.SortedEmits | python/wub_graph/g_tensorflow.py:53-59 | what Kahn's loop leaves is exactly the emittable nodes, each after its inputs |
| TFGraph.RawGraph.Execute | python/wub_graph/g_tensorflow.py:66-86 | the sort's ValueError first; then a fed name that is not an input is a ValueError naming it; then it succeeds exactly when every emitted operation has a value, the failure otherwise a KeyError; on success every registered name maps to its fed value, its computed value, or None when the sort never reached it |
| TFGraph.RawGraph.FedInputs | python/wub_graph/g_tensorflow.py:71-73 | only inputs are fed |
| TFGraph.RawGraph.ComputableIff | python/wub_graph/g_tensorflow.py:78-82 | every emitted operation has a value exactly when every operation in the sorted list has one |
| TFGraph.RawGraph.ResultsReported | python/wub_graph/g_tensorflow.py:85 | the results dict built with `node_outputs.get` gives each registered name what it reports |
| TFGraph.Feed | python/wub_graph/g_tensorflow.py:71-75 | the first fed name that is not an input is a ValueError naming it; otherwise each input gets its fed value, a later item winning |
| TFGraph.Evaluate | python/wub_graph/g_tensorflow.py:78-82 | succeeds exactly when every listed operation has a value, the failure a KeyError; then the outputs are the fed inputs and the listed operations, each holding its value |
| TFGraph.EvalStep | python/wub_graph/g_tensorflow.py:79-82 | one turn of the loop: an input adds nothing, an operation adds its value, or a KeyError when it has no value |
| TFGraph.Skipped | python/wub_graph/g_tensorflow.py:79 | an input in the sorted list adds no output |
| TFGraph.Applied | python/wub_graph/g_tensorflow.py:80-82 | an operation whose inputs all have outputs gets its function applied to them, which is its value |
| TFGraph.Unfed | python/wub_graph/g_tensorflow.py:80 | an operation with an input lacking an output has no value |
| TFGraph.StartReady | python/wub_graph/g_tensorflow.py:50 | the sort's queue starts with exactly the inputs `symbolic_inputs` holds, distinct and without inputs |
| TFGraph.Seeds | python/wub_graph/g_tensorflow.py:50 | the queue holds the listed nodes of in-degree zero, in order, distinct when the list is |
| TFGraph.ReleasedEmits | python/wub_graph/g_tensorflow.py:53-59 | a node is emitted exactly when it is a held input or a registered operation with inputs, all of them emitted |
| TFGraph.UniqueCount | python/wub_graph/g_tensorflow.py:25-37 | with no name registered twice, `symbolic_nodes` has one key per node |
| TFGraph.AllEmit | python/wub_graph/g_tensorflow.py:53-59 | with no name registered twice and no operation without inputs, every node is emitted |
| TFGraph.UniqueEmits | python/wub_graph/g_tensorflow.py:61-62 | with no name registered twice, the sort succeeds exactly when no operation has zero inputs, and such an operation is never emitted, so the cycle error is never caused by a cycle |
| TFGraph.EmittedAll | python/wub_graph/g_tensorflow.py:53-61 | with no name registered twice and no operation without inputs, the emitted nodes are the whole arena |
| TFGraph.ZeroInputs | python/wub_graph/g_tensorflow.py:50-59 | an operation without inputs is never emitted |
| TFGraph.AllValued | python/wub_graph/g_tensorflow.py:78-82 | when every input is fed, every node has a value |
| TFGraph.CleanRun | python/wub_graph/g_tensorflow.py:66-86 | a graph with no name registered twice and no operation without inputs, fed every input and nothing else, executes and maps each name to its node's value |
| TFGraph.Example | python/wub_graph/g_tensorflow.py:90-114 | fed 100.0 and 0.95 the example gives usd_price_raw 95.0; fed 100.0 and 1.0 it gives 100.0 |
| TFGraph.ExampleRun | python/wub_graph/g_tensorflow.py:108-109 | one execute of the example graph with spot at 100.0 returns spot, fx and their product |
| TFGraph.ExampleLookup | python/wub_graph/g_tensorflow.py:100 | the call `usd_price_raw("spot", "fx")` finds spot and fx |
| TFGraph.ExampleValues | python/wub_graph/g_tensorflow.py:96-100 | the example's values are spot, fx and their product |
| TFGraph.ExampleFed | python/wub_graph/g_tensorflow.py:108 | the example's feed dict gives spot 100.0 and fx the rate |
| TFGraph.ExampleOutcome | python/wub_graph/g_tensorflow.py:85 | the results dict of the example names spot, fx and usd_price_raw with their values |
| TFGraph.RedefinedInput | python/wub_graph/g_tensorflow.py:25-64 | a name registered as an input and then as an operation without inputs: the sort counts the stale input in place of the operation, does not fail, and the operation is reported as None |
| TFGraph.RedefinedFacts | python/wub_graph/g_tensorflow.py:48-85 | in the redefined graph only the stale input is emitted, the feed is accepted and the operation reports None |
| TFGraph.RedefinedOutcome | python/wub_graph/g_tensorflow.py:85 | the results dict of the redefined graph maps the name to None |
| MarketFsm.SixteenTransitions | python/fsm/automat_example.py:130-145 | of the 48 (state, input) pairs the transition table admits exactly sixteen |
| MarketFsm.MarketDataListener.constructor | python/fsm/automat_example.py:15-22 | a new listener is disconnected in both the machine and its field, with no symbols and no attempts |
| MarketFsm.MarketDataListener.ConnectionSuccess | python/fsm/automat_example.py:87-91 | admitted exactly from connecting; then connected with the attempt count reset, otherwise nothing changes |
| MarketFsm.MarketDataListener.ConnectionFailure | python/fsm/automat_example.py:93-96 | admitted exactly from connecting; then in error with the attempt count kept, otherwise nothing changes |
| MarketFsm.MarketDataListener.SubscriptionSuccess | python/fsm/automat_example.py:108-112 | admitted exactly from subscribing; then subscribed with the symbol added, otherwise nothing changes |
| MarketFsm.MarketDataListener.SubscriptionFailure | python/fsm/automat_example.py:114-117 | admitted exactly from subscribing; then in error with the symbols kept, otherwise nothing changes |
| MarketFsm.MarketDataListener.StartConnection | python/fsm/automat_example.py:76-85 | the attempt is counted; below three attempts the listener ends connected with the count reset, otherwise in error |
| MarketFsm.MarketDataListener.StartSubscription | python/fsm/automat_example.py:98-106 | with fewer than two symbols the listener ends subscribed with the symbol added, otherwise in error with the symbols kept |
| MarketFsm.MarketDataListener.Connect | python/fsm/automat_example.py:130 | admitted exactly from disconnected and error; the first attempt then succeeds, so the listener ends connected with its symbols kept |
| MarketFsm.MarketDataListener.Subscribe | python/fsm/automat_example.py:133 | admitted exactly from connected and subscribed; ends subscribed with the symbol added below two symbols, in error otherwise |
| MarketFsm.MarketDataListener.Disconnect | python/fsm/automat_example.py:137-138 | admitted exactly from connected, subscribed and error; ends disconnected with no symbols |
| MarketFsm.MarketDataListener.ErrorOccurred | python/fsm/automat_example.py:140-144 | admitted from every state but error; ends in error with the symbols kept |
| MarketFsm.ExampleSession | python/fsm/automat_example.py:148-155 | the example session ends subscribed to AAPL alone: the third subscription fails and reconnecting starts with no symbols |
| CacheName.Split | python/cachename.py:5 | `str.split('.')` gives at least one piece, and no piece contains the separator |
| CacheName.JoinSplit | python/cachename.py:5-10 | joining the split pieces with the separator gives the base name back |
| CacheName.NextDay | python/cachename.py:24 | `+ timedelta(days=1)` gives the valid date whose day number is one more, and fails exactly at 31 December 9999 |
| CacheName.YearLength | python/cachename.py:24 | a Gregorian year has 366 days when it is a leap year and 365 otherwise |
| CacheName.MonthTable | python/cachename.py:24 | the month lengths add up to 337 days plus February |
| CacheName.LeapDays | python/cachename.py:24 | the day count before year `y + 1` adds 366 days for a leap year, 365 otherwise |
| CacheName.Quarters | python/cachename.py:24 | counting years divisible by 4 up to `p + 1` adds one exactly when `p + 1` is such a year |
| CacheName.Centuries | python/cachename.py:24 | the same for years divisible by 100 |
| CacheName.QuadCenturies | python/cachename.py:24 | the same for years divisible by 400 |
| CacheName.NotAfterIsOrdinalOrder | python/cachename.py:20 | `current_date <= end` on dates is `<=` on their day numbers, and equal dates have equal day numbers |
| CacheName.OrdinalOrderAcrossYears | python/cachename.py:20 | a date in an earlier year has a smaller day number |
| CacheName.OrdinalOrderAcrossMonths | python/cachename.py:20 | a date in an earlier month of the same year has a smaller day number |
| CacheName.FormatDate | python/cachename.py:21 | `strftime("%Y%m%d")` of a date in years 1 to 9999 is exactly eight digits |
| CacheName.ParseDate | python/cachename.py:12-13 | `strptime(.., "%Y%m%d")` yields only valid calendar dates |
| CacheName.ParseFormat | python/cachename.py:12-21 | parsing the eight digits `strftime` writes gives the date back |
| CacheName.DaysAfter | python/cachename.py:19-24 | the date reached after `k` steps of one day has day number `k` more than the start |
| CacheName.DaysAfterStep | python/cachename.py:24 | one more loop step reaches the next day |
| CacheName.NamesSnoc | python/cachename.py:21-23 | appending the file name of the current day keeps `names[i]` the file name of the `i`-th day from the start |
| CacheName.NotAfterLast | python/cachename.py:20 | every valid date is on or before 31 December 9999 |
| CacheName.RangeStart | python/cachename.py:20 | the range has a first day exactly when start is on or before end |
| CacheName.RangeAdvance | python/cachename.py:20-24 | after the `n`-th day the loop goes on exactly while `n + 1` days are still in the range |
| CacheName.LastDay | python/cachename.py:20-24 | a range that reaches 31 December 9999 ends there, so the next step overflows |
| CacheName.DailyNames | python/cachename.py:18-26 | one file name per calendar day from start to end inclusive, in increasing order, `dir/identifier/identifier_YYYYMMDD.pqt`; empty when start is after end; the date overflow error when the range reaches 31 December 9999 |
| CacheName.ExpandFilenames | python/cachename.py:4-26 | the errors in the source's order (fewer than 3 name parts, bad start date, bad end date, a frequency other than `Daily`); otherwise the directory is every part but the last joined with `/`, the identifier the last part, and the result is the day-by-day list, as long as the range |
| Decimal.PadNat | python/cachename.py:21 | zero-padding gives digits only, as many as the number has or the width, whichever is more |
| Decimal.NatToStringShort | python/cachename.py:21 | a number below `10^k` has at most `k` digits, so a year, month and day fill their fields |
| Decimal.ParsePadNat | python/cachename.py:12-21 | reading zero-padded digits back gives the number |
| Lstm.CreateDataset | python/dl/lstm.py:15-20 | the number of windows is `max(0, len - nIn - nOut + 1)`; window `i` of `x` is `data[i..i+nIn]` and of `y` is `data[i+nIn..i+nIn+nOut]`, always in range, so every `x` window has length `nIn` and every `y` window length `nOut` |
| Transpile.ParamTexts | python/pycpp_transpile/transpile.py:25 | one `type name` text per parameter; a parameter without a name annotation fails, and only with `AttributeError` |
| Transpile.Renderings | python/pycpp_transpile/transpile.py:47-48 | the rendering of each node of a sequence, in order |
| Transpile.TranspileCode | python/pycpp_transpile/transpile.py:42-50 | the loop's accumulated text is the concatenation of the renderings of the top-level nodes in order, or the first node's error |
| Transpile.CollectFailureSticks | python/pycpp_transpile/transpile.py:47-48 | once a prefix of the renderings fails, the whole sequence fails with that error |
| Transpile.CollectSucceeds | python/pycpp_transpile/transpile.py:47-48 | a sequence renders exactly when each of its nodes renders |
| Transpile.CollectAppend | python/pycpp_transpile/transpile.py:48 | appending a rendered node appends its text |
| Transpile.MapTypeTable | python/pycpp_transpile/transpile.py:4-21 | `int`, `float`, `str` and `list` map to `int`, `double`, `std::string` and `std::vector<double>`; every other name maps to itself; mapping twice is mapping once |
| Transpile.UnknownOperatorFails | python/pycpp_transpile/transpile.py:12-32 | an operator outside `+ - * /` fails with `KeyError` once the left operand has rendered |
| Transpile.MissingAnnotationFails | python/pycpp_transpile/transpile.py:25 | a function without a return annotation, or with a parameter without one, fails with `AttributeError` |
| Transpile.ParamTextsFails | python/pycpp_transpile/transpile.py:25 | any unannotated parameter makes the parameter list fail |
| Transpile.FunctionText | python/pycpp_transpile/transpile.py:24-26 | a function whose parts render is the mapped return type, the name, the comma-separated mapped typed parameters in parentheses, ` {` and a newline, the concatenated body, then `}` and a newline |
| Transpile.UnsupportedIsSilent | python/pycpp_transpile/transpile.py:40-48 | a node of any other kind adds nothing to the module text |
| Transpile.AddSignature | python/pycpp_transpile/transpile.py:25 | the parameters `a: int, b: int` render as `int a, int b` |
| Transpile.AddBody | python/pycpp_transpile/transpile.py:28-38 | `return a + b` renders as `    return a + b;` and a newline |
| Transpile.AddExample | python/pycpp_transpile/transpile.py:70-76 | the source's `add(a: int, b: int) -> int` renders as `int add(int a, int b) {`, its return line, and `}` |
| Transpile.GroupingNotRendered | python/pycpp_transpile/transpile.py:31-32 | `(a + b) * c` and `a + (b * c)` are different trees with the same text `a + b * c` |

## Left out

- Threads, mutexes, atomics and memory orders (the broadcaster's registry lock, the ring buffer's `std::atomic` indices): every public operation is modelled as one atomic sequential step.
- The consumer spin loops, `safePrint`, every `print`, logging, `time.sleep` and the demo `main`s: these are output and timing only.
- The moodycamel concurrent queue is a plain sequence, and a weak pointer's expiry is an `alive` field that the caller's handles switch off.
- The timer runtime: the outer `tick` loop with its clock reads, the `stop` flag, `yield`, the mutex, and the OHLCV aggregation in `main`. Callbacks are identified by number, and firing one appends that number to a ghost log.
- `ListEntry::from_list_head`: the `offsetof`/`reinterpret_cast` arithmetic has no Dafny counterpart.
- `displayValueNumberMap` and `displayVariableMap` are printing only. Shared C++ expression nodes are modelled as tree values, because the nodes never change once built.
- ValueNumbering.Evaluate: a result outside the `int` range and division by zero make `Undefined` errors. In C++ they are undefined behaviour, with no error.
- Doubles: the expression templates use `int` entries, and the graph files use mathematical reals. Floating-point rounding is not modelled.
- TemplateExpr.Matrix.FromRows requires at most N rows of at most N entries each, because a longer initializer list writes past the array.
- TemplateExpr.Matrix.Assign states the entries it writes only when the target matrix is not one of the expression's operands. The aliased case reads entries that are already overwritten.
- TemplateExpr.DirectMul states its entries only when the output matrix is neither input, for the same reason.
- OpenAddressing.HashTable.constructor requires at least four slots. With one to three slots the table can fill up, and `find` of an absent key then never stops; zero slots is a modulo by zero.
- The load factor is compared as exact rationals (`4 * size >= 3 * capacity`, `4 * size <= capacity`) instead of by `double` division.
- UniquePointer.UniquePtr.Reset requires the pointer handed over to be unowned and not deleted. Resetting to a pointer another handle owns is a double delete in C++.
- CacheName.ParseDate accepts only eight-digit `YYYYMMDD` text naming a real calendar date. `strptime`'s other accepted spellings are not modelled.
- `load` and `store` in `python/cachename.py` are parquet I/O.
- Lstm.CreateDataset takes window lengths as natural numbers, so negative `n_steps_in` or `n_steps_out` are not modelled. The JAX model, the training and the metrics are left out.
- Transpile: float constants are left out, because their Python `str` form is not modelled. Parsing with `ast` and `compile_and_execute`, which uses cppyy, are outside the model.
- The `DAGRegistry` decorator plumbing of `g_hybrid.py` (`functools.wraps`, the sniffing of `dt` from args and kwargs) and `cached_values`.
- HybridGraph.Dag.Execute leaves out the final `_print_state` call. That call is not output only: it runs `get_value` on every computed node, which recomputes dirty lazy and cached ones after the target has been read. It is left out because it is logging code, and its reads do not change the value `execute` returns.
- OpenAddressing.HashTable.Insert requires a table whose probe chains are intact (`Valid`). After `RemoveAsWritten` only the bookkeeping (`Basic`) is guaranteed, so an insert on such a table is not modelled. In the source, that insert can store a second copy of a key that the broken chain hides: with the colliding pair of the first finding, remove 0 and then insert 8, and 8 is stored twice with `size` 2.
- User functions in all graph files are abstract total functions. Exceptions they raise, and calls with the wrong arity, are not modelled.
- TFGraph: the unused `output` field and `__repr__` are left out. The decorator and the call of its wrapper are one `Fn` method.
- TFGraph.RawGraph.Execute: when an operation's input has no output, the model does not say which missing input the KeyError names. It also leaves out the order of the results dict's keys.
- MarketFsm: the `MethodicalMachine` library is not shown. A (state, input) pair missing from the table is modelled as a rejected input that changes nothing. A re-entrant input made from an output goes through the same table.
- The other files of the repository are not part of this model: the shared-memory, network, benchmark and concurrency demos, `cpputils/rdtscp.cpp`, `cpputils/log.cpp`, `python/dag.py`, and the script-style `python/pycpp_transpile/cse.py` and `vn.py`.

## Findings

| source | as written | input that shows it | evidently intended | confidence | as-written member | corrected member |
|---|---|---|---|---|---|---|
| cppdsa/wub_open_addressing_hashtable.cpp:41-56 | `remove` empties the slot it finds without a tombstone or re-placing the rest of the probe chain, so later keys on that chain can no longer be found | 8 slots and a hash placing keys 0 and 8 both at slot 0: insert 0, insert 8 (stored at slot 1), remove 0; `find(8)` now stops at the empty slot 0 and returns nothing although 8 is stored | after a removal every remaining key stays findable | not executed | OpenAddressing.HashTable.RemoveAsWritten, HashTableScenarios.LostKeyAsWritten | OpenAddressing.HashTable.Remove, HashTableScenarios.KeptKeyCorrected |
| python/wub_graph/g_lazy_dyanmic.py:22-26 | `set_value` stores the value but leaves the node's own dirty flag set, so on a node with a compute function the next `get_value` recomputes and overwrites the value just set | the usage example's `fx_rate` (CACHED, `can_set=True`): `fx.set_value(1.0)` before the first read, then `fx.get_value()` reads 0.95 from disk | a value set on a settable node is the value it reports | not executed | LazyGraph.WubGraph.SetValueAsWritten, LazyGraph.SetLostAsWritten, LazyGraph.SetBeforeReadAsWritten | LazyGraph.WubGraph.SetValue, LazyGraph.SetShown, LazyGraph.SetBeforeRead |

Other behaviours of the code as written, proved where they follow and not treated as defects:

- PyTorchGraph.OverrideOverMissing: leaving a `g_pytorch.py` override gives back what every node reported only when no dependency read None beforehand (PyTorchGraph.OverrideRestores). Otherwise a value computed inside the override survives it.
- TFGraph.RedefinedInput: `g_tensorflow.py`'s sort compares counts, not memberships. A name registered first as an input and then as an operation without inputs makes the sort succeed, and the operation is reported as None.
- TFGraph.UniqueEmits: each node can only take earlier nodes as inputs, so no cycle can be built. When no name is registered twice, the cycle error is raised exactly when some operation has no inputs.
