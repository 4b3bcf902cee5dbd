# Verified model of a replicated key-value store

The repository holds student projects on distributed systems. This Dafny project models their five
parts that carry state, and proves properties over all inputs and all runs:

- **The replicated queue of Part 4** (`TaskQueue`, `QueueHeap`, `Replication`). Clients append writes to a
  FIFO; a consumer thread executes them and forwards each successful one to a backup that runs the same
  code. The steps are the stretches of code that `queue_lock` makes atomic, in any interleaving. `ServerMap` ties
  what clients read to a map.
- **The election of Part 4** (`Election`). Each ZooKeeper call is one step, so that servers can overtake
  one another between any two calls.
- **The search tree of Parts 1 and 4** (`Tree`, `TreeDelete`, `TreeShape`, `TreeSharing`, `TreeRuns`, `TreeObjects`,
  `TreeHeap`). Its comparison is not an order, and its deletions are not always right; both facts are stated exactly.
- **The coalesced hash table of Part 1** (`Table`, `TableProofs`, `TableRuns`, `TableHeap`).
- **The binary message format of Part 1** (`Message`, `MessageBuffer`).

The modules named `...Heap` and `MessageBuffer` keep the source's form: nodes, arrays and buffers changed in
place by loops. Each procedure there is tied to a function on values, and the theorems are about those
functions. `CStrings` holds bytes, C strings and `strcmp`.

`dafny verify dfyconfig.toml` checks everything.

## What turned out false

Where a promise of the code does not hold, the code is modelled as it is, an input shows the failure, and
the exact condition under which the promise holds is proved.

- Deletion removes exactly one key only for some shapes of the node that holds it (`DeleteRemovesExactlyIff`,
  `DeleteIsExactIff`; failures in `PartFourLosesAChild` and `SuccessorHidesLeftChild`).
- Deleting an absent key is not always harmless: Part 1 frees a placeholder at which the search ends and leaves the
  pointer to it, in its parent or in the caller. Part 4 does not (`DeleteAnswers`; failure in
  `DeletingFromANewTree`).
- A deletion that is right for every search may still store another key twice, which `tree_size` counts
  (`DeleteIsRepeatableIff`; failure in `SearchesAgreeButSizeDoesNot`). `RunAgreesIff` says when a whole run
  agrees with a map in everything, `SearchesAgreeIff` and `FirstUnsafeDeletionIff` when its searches do.
- The project's README says that `verify x` tells whether operation x reached the backup
  (Parte 4/grupo19-projeto4/grupo19/README.txt:30-32). The client sends the request to the backup, which
  numbers only the successes (`AskingTheBackupIsRightIff`; failure in `AskingTheBackupGoesWrong`).
- A message survives the trip only within the bounds of its length fields: 65535 bytes for a lone key,
  32767 for a key of a list or an entry; an entry without data is refused by the parser
  (`RoundTripIff`; failure in `EmptyEntryIsRefused`).
- A value of length zero is stored in the hash table as NULL and cannot be read back, and the table may end up
  full with free slots (`PutThenGetIff`, `PutIsRight`; failures in `EmptyValueIsLost` and
  `EmptyValueWastesASlot`).
- Updating an absent key of the hash table may dereference NULL (`UpdateIsRight`; failure in
  `UpdateRunsOffTheChain`).
- Listing the keys of a tree fails once a deletion has left a placeholder child (`ListingExistsIff`;
  failures in `ListingFaultsAfterDeletion` and `ListingFaultsAboveLostKeys`). It also has room for four keys only,
  since the size of the array is computed from the size of an int (`ListingSurvivesIff`; every run of puts of five or more
  distinct keys fails, by `ShapeAfterPuts`).
- The parser does not refuse every message with an opcode out of bounds: it may free a pointer that was never
  set (`OpcodeOutOfBounds`).

## Model

| member | source | states |
|---|---|---|
| `Replication.ReplicasAgree` | Parte 4/grupo19-projeto4/grupo19/src/tree_skel.c:279-325 | in every history until a promotion, the backup has queued exactly the primary's successful operations in id order, except one in flight; once drained its tree is the primary's tree, or the tree that the operation in flight turns into it |
| `Replication.DroppingFailuresKeepsTree` | Parte 4/grupo19-projeto4/grupo19/src/tree_skel.c:297-314 | leaving the failed operations out of a log does not change the tree it produces; of the deletion code this needs only that a failed call changes nothing |
| `Replication.SuccessesSucceed` | Parte 4/grupo19-projeto4/grupo19/src/tree_skel.c:297-314 | every operation of the forwarded log succeeds again at the backup |
| `Replication.HistoryKeepsInv` | Parte 4/grupo19-projeto4/grupo19/src/tree_skel.c:279-325 | the invariant that ties the two servers together holds after every event of every history: a crash at any step, even between the delivery of a write and its reply, and a delivery after the crash or after the promotion |
| `Replication.CrashLosesAtMostOne` | Parte 4/grupo19-projeto4/grupo19/src/tree_skel.c:295-319 | whatever the promoted backup does later, its log starts with everything that succeeded on the dead primary, or with everything but the last operation, which was then in flight; if that one was read from the socket after the promotion, it is in the log too, behind its place |
| `Replication.OneOperationIsLost` | Parte 4/grupo19-projeto4/grupo19/src/tree_skel.c:295-319 | a history in which the promoted backup does not know an operation that the primary reported as done |
| `Replication.LostOperationComesBack` | Parte 4/grupo19-projeto4/grupo19/src/tree_skel.c:295-319 | one in which that operation reaches the promoted backup behind a later write of a client |
| `Replication.BackupShowsThePast` | Parte 4/grupo19-projeto4/grupo19/src/tree_client.c:119-130 | reads at the backup: at every moment its tree is one that the primary had after some prefix of its log, and at a later moment of the same history that prefix is no shorter |
| `Replication.BackupNeverFails` | Parte 4/grupo19-projeto4/grupo19/src/tree_skel.c:256-277 | verify at the backup never answers 2 before a promotion |
| `Replication.IdTranslation` | Parte 4/grupo19-projeto4/grupo19/src/tree_skel.c:297-314 | a forwarded operation gets as its backup id the number of earlier successes; the two ids coincide exactly when no earlier operation failed |
| `Replication.ForwardingGetsThrough` | Parte 4/grupo19-projeto4/grupo19/src/tree_skel.c:295-319 | the synchronous forwarding never blocks for good: the backup can take the write at once or after one turn of its own consumer, and then the primary can go on |
| `Replication.WakingIsHarmless` | Parte 4/grupo19-projeto4/grupo19/src/tree_skel.c:282-286 | a wake-up without a signal, at either server, leaves the system as it was once that consumer sleeps again |
| `Replication.DoneMeansReplicated` | Parte 4/grupo19-projeto4/grupo19/README.txt:30-32 | an operation that the primary reports as done stands in the backup's queue, at the place given by the number of successes before it, unless it is the one in flight |
| `Replication.AskingTheBackupIsRightIff` | Parte 4/grupo19-projeto4/grupo19/src/tree_client.c:209-219 | the client asks the backup about an id that the primary gave; once all is settled the answers are right for every id if and only if no success follows a failure |
| `Replication.AskingTheBackupGoesWrong` | Parte 4/grupo19-projeto4/grupo19/src/tree_client.c:209-219 | a history in which the backup reports as done an id that failed, and denies the id that is done |
| `TaskQueue.ExactlyOnceInOrder` | Parte 4/grupo19-projeto4/grupo19/src/tree_skel.c:279-325 | after any run, the queue is the enqueued operations with their positions as ids, then one placeholder, and the tree is the replay of the executed prefix, each operation once and in id order |
| `TaskQueue.RunKeepsInv` | Parte 4/grupo19-projeto4/grupo19/src/tree_skel.c:363-500 | every interleaving of producers and consumer stays inside the queue invariant, and the log only grows |
| `TaskQueue.Step` | Parte 4/grupo19-projeto4/grupo19/src/tree_skel.c:377-402 | every enabled step leaves a list on which no later step follows a NULL pointer |
| `TaskQueue.VerifyIsTruthful` | Parte 4/grupo19-projeto4/grupo19/src/tree_skel.c:256-277 | verify answers -1 exactly for an unassigned id, 0 until the operation is executed, then 1 or 2 by its outcome in the replay |
| `TaskQueue.StatusStep` | Parte 4/grupo19-projeto4/grupo19/src/tree_skel.c:256-277 | one step moves a status at most from -1 to 0, or from 0 to 1 or 2 |
| `TaskQueue.StatusNeverRegresses` | Parte 4/grupo19-projeto4/grupo19/src/tree_skel.c:256-277 | along any run 1 and 2 are final and 0 never goes back to -1 |
| `TaskQueue.NoLostWakeUp` | Parte 4/grupo19-projeto4/grupo19/src/tree_skel.c:282-288 | whenever a write is waiting the consumer can take a step: it is never left asleep without a signal |
| `TaskQueue.QueueDrains` | Parte 4/grupo19-projeto4/grupo19/src/tree_skel.c:282-323 | left alone, the consumer executes everything that is queued and only then sleeps; the tree is the replay of the whole log and every status is final |
| `TaskQueue.ClientGetsIn` | Parte 4/grupo19-projeto4/grupo19/src/tree_skel.c:363-400 | after any run a client can enqueue at once, or after one turn of the consumer if this is between executing a task and releasing its locks |
| `TaskQueue.WakingUnaskedIsHarmless` | Parte 4/grupo19-projeto4/grupo19/src/tree_skel.c:282-286 | a consumer that wakes without a signal finds nothing to do and sleeps again, with nothing changed |
| `ServerMap.ServerAnswersAsMap` | Parte 4/grupo19-projeto4/grupo19/src/tree_skel.c:279-325 | after any run of a server whose executed operations are safe on its tree, tree_get answers every key as the map after these operations, tree_size counts it, and verify answers 1 about an executed operation if it is a put or deletes a key then in the map, and 2 otherwise |
| `ServerMap.LogAgreesIff` | Parte 4/grupo19-projeto4/grupo19/src/tree_skel.c:295-314 | the tree of a server agrees with the map after every prefix of its log, in searches and size, if and only if every deletion of the log is safe when its turn comes |
| `ServerMap.SucceedsIff` | Parte 4/grupo19-projeto4/grupo19/src/tree_skel.c:297-314 | on any log, safe or not: a put is recorded as done, a deletion as done exactly if a search finds its key in the tree it is executed on |
| `ServerMap.BackupAnswersAsMap` | Parte 4/grupo19-projeto4/grupo19/src/tree_client.c:119-130 | until a promotion the backup answers every key as the map after a prefix of the operations that the primary has executed, as far as these are safe |
| `QueueHeap.TaskList.LastNode` | Parte 4/grupo19-projeto4/grupo19/src/tree_skel.c:377-380 | the walk along next pointers ends at the last node of the list |
| `QueueHeap.TaskList.NodeNumber` | Parte 4/grupo19-projeto4/grupo19/src/tree_skel.c:288-292 | op_count links from the head lead to task number op_count |
| `QueueHeap.TaskList.Append` | Parte 4/grupo19-projeto4/grupo19/src/tree_skel.c:381-398 | filling the last node and hanging a newly allocated one behind it appends to the sequence of tasks |
| `QueueHeap.TaskList.VerifyId` | Parte 4/grupo19-projeto4/grupo19/src/tree_skel.c:256-277 | the walk of verify computes the status function |
| `QueueHeap.Skeleton.InvokeWrite` | Parte 4/grupo19-projeto4/grupo19/src/tree_skel.c:363-500 | the linked list, the counters and the tree after an enqueue are those of the enqueue step; the id returned can never equal last_assigned, so the error reply after the unlock is never sent |
| `QueueHeap.Skeleton.ProcessTask` | Parte 4/grupo19-projeto4/grupo19/src/tree_skel.c:279-314 | list, counters and heap tree after one locked pass of the consumer are those of the consume step, and the write to forward is the executed one if it succeeded |
| `QueueHeap.Skeleton.Consumer` | Parte 4/grupo19-projeto4/grupo19/src/tree_skel.c:279-323 | from wherever the consumer thread stands, its next turn on the heap, the release of the locks and op_count++ included, is the consume step |
| `QueueHeap.Skeleton.PerformAll` | Parte 4/grupo19-projeto4/grupo19/src/tree_skel.c:279-500 | clients and consumer in any interleaving that the lock allows: list, counters and tree on the heap are those of the machine after the same run |
| `QueueHeap.Serve` | Parte 4/grupo19-projeto4/grupo19/src/tree_skel.c:130-500 | a server from its start through any run: its heap is the state that the theorems about runs speak of, and satisfies their invariant |
| `QueueHeap.Skeleton.InvokeGet` | Parte 4/grupo19-projeto4/grupo19/src/tree_skel.c:423-440 | a read answers from the tree on the heap as the search on values does |
| `QueueHeap.ServeThenGet` | Parte 4/grupo19-projeto4/grupo19/src/tree_skel.c:423-440 | a read after any run of a new server returns what the map of its executed operations holds, as far as these are safe |
| `Election.AtMostOnePrimary` | Parte 4/grupo19-projeto4/grupo19/src/tree_skel.c:158-207 | for any number of servers and any interleaving of calls, watcher events and lost sessions, at most one server with a live session holds the primary role |
| `Election.PrimaryIsStable` | Parte 4/grupo19-projeto4/grupo19/src/tree_skel.c:54-113 | a live primary stays the only primary until its own session ends, whatever the others do |
| `Election.RoleAtStartUp` | Parte 4/grupo19-projeto4/grupo19/src/tree_skel.c:149-208 | for every state of the nodes, the world after the start of a server whose calls are not overtaken: primary if the root is missing or there is neither primary nor backup, backup if there is only a primary, no role if there is only a backup, and exit if both are there or the primary node without the root |
| `Election.WatcherTakesOverIff` | Parte 4/grupo19-projeto4/grupo19/src/tree_skel.c:69-83 | a watcher that is not overtaken becomes primary and the backup node goes if the backup node is alone; otherwise nothing changes |
| `Election.BackupTakesOver` | Parte 4/grupo19-projeto4/grupo19/src/tree_skel.c:69-83 | after the session of the primary has ended, the watching backup becomes primary and the next server to start its backup |
| `Election.BackupIsReplaced` | Parte 4/grupo19-projeto4/grupo19/src/tree_skel.c:195-205 | after the session of the backup has ended, the next server to start takes its place |
| `Election.DeadSessionSettles` | Parte 4/grupo19-projeto4/grupo19/src/tree_skel.c:149-208 | a server whose session has ended touches no node and gets no role, and exits or only watches, depending on the call it was about to make |
| `Election.HistoryKeepsInv` | Parte 4/grupo19-projeto4/grupo19/src/tree_skel.c:130-243 | who owns the role nodes, in every history |
| `Tree.RouteCases` | Parte 4/grupo19-projeto4/grupo19/src/tree.c:67-74 | the unsigned length difference: only keys of equal length are compared by strcmp, every other key goes right |
| `CStrings.StrCmpIsLexicographic` | Parte 4/grupo19-projeto4/grupo19/src/tree.c:69 | strcmp is the order of a dictionary: at the first difference the smaller byte, or the end of a string, decides |
| `Tree.RouteIsNotAnOrder` | Parte 4/grupo19-projeto4/grupo19/src/tree.c:67-74 | two keys go to the right of each other exactly when their lengths differ |
| `Tree.FindIffStored` | Parte 4/grupo19-projeto4/grupo19/src/tree.c:111-144 | in a routed tree the search reaches every stored key and no other |
| `Tree.PutKeepsWellFormed` | Parte 4/grupo19-projeto4/grupo19/src/tree.c:53-100 | put keeps the routing invariant and adds exactly its key |
| `Tree.FindAfterPut` | Parte 4/grupo19-projeto4/grupo19/src/tree.c:53-144 | after a put every search answers as a map would |
| `Tree.GetAfterPut` | Parte 4/grupo19-projeto4/grupo19/src/tree.c:53-144 | after a put tree_get returns all the data put for the key, and for any other key what it returned before |
| `TreeDelete.DeleteRemovesExactlyIff` | Parte 4/grupo19-projeto4/grupo19/src/tree.c:150-206 | on a well-formed tree, deleting a stored key removes that key and nothing else if and only if its node has a removable shape, for both versions of the procedure |
| `TreeDelete.DeleteIsExactIff` | Parte 4/grupo19-projeto4/grupo19/src/tree.c:150-206 | the same question on a tree in which copied entries shadow keys: exact if and only if no stored key that a search finds is in the part that the deletion hides, and the key is not stored again where the deletion would bring it to light |
| `TreeRuns.DeleteIsRepeatableIff` | Parte 1/SO_PROJECT/src/tree.c:166-191 | on a well-formed tree a deletion removes exactly its key and takes one off tree_size if and only if its node has no live child or, in Part 1, a NULL child; and then the tree is well formed again |
| `TreeDelete.DeleteAnswers` | Parte 1/SO_PROJECT/src/tree.c:150-195 | on any tree: a call of Part 4 always answers, one of Part 1 unless its search ends at a placeholder, which it frees and leaves linked; the answer is 0 exactly when the search finds the key, and a call that answers -1 changes nothing |
| `TreeRuns.RunAgreesIff` | Parte 1/SO_PROJECT/src/tree.c:50-200 | over any run of puts and deletions, every search, every answer and tree_size agree with a map from start to end, and no linked node is freed, if and only if every deletion, when its turn comes, has a repeatable shape and, in Part 1, a search that does not end at a placeholder |
| `TreeRuns.GetAfterRun` | Parte 4/grupo19-projeto4/grupo19/src/tree.c:111-144 | after a run whose searches agree with a map throughout, tree_get returns for every key what the map holds, NULL if nothing |
| `TreeRuns.SearchesAgreeIff` | Parte 1/SO_PROJECT/src/tree.c:50-200 | the same for searches and answers alone, in runs that store keys twice and share entries between nodes: they agree with a map, on trees without keys below a placeholder, if and only if every deletion passes a shape test, LooseShape, when its turn comes |
| `TreeDelete.DeleteStaysLooseIff` | Parte 1/SO_PROJECT/src/tree.c:150-200 | a single deletion on such a tree is exact and leaves such a tree again if and only if it passes that test |
| `TreeRuns.FirstLooselyUnsafeDeletionIff` | Parte 1/SO_PROJECT/src/tree.c:150-200 | after a run that passes the test throughout, one more deletion keeps the searches right if and only if it is exact |
| `TreeRuns.ClearingAShadowedChild` | Parte 4/grupo19-projeto4/grupo19/src/tree.c:172-192 | four puts and two deletions of Part 4, of which the second clears a child that holds a shadowed key: every search stays right |
| `TreeRuns.FirstUnsafeDeletionIff` | Parte 1/SO_PROJECT/src/tree.c:150-195 | after a safe run of any length, the searches still agree after one more deletion if and only if its node has a removable shape and, in Part 1, its search does not end at a placeholder |
| `TreeRuns.DeletingFromANewTree` | Parte 1/SO_PROJECT/src/tree.c:151-155 | Part 1 frees the root of a new tree from which a key is deleted, so that no put may follow; Part 4 does not |
| `TreeRuns.SearchesAgreeButSizeDoesNot` | Parte 1/SO_PROJECT/src/tree.c:184-191 | three puts and a deletion after which every search is right and tree_size is not |
| `TreeSharing.FindAfterPutShared` | Parte 4/grupo19-projeto4/grupo19/src/tree.c:76-79 | a put into an entry that several nodes point to changes what a search answers for its key alone |
| `TreeSharing.GetAfterPutShared` | Parte 4/grupo19-projeto4/grupo19/src/tree.c:76-79 | the same for what tree_get returns |
| `TreeSharing.FoundEntryIsUnsharedIff` | Parte 4/grupo19-projeto4/grupo19/src/tree.c:166-192 | the key of a deleted node is held by no other node exactly when it is not stored again in the right subtree |
| `TreeObjects.NoFreedEntryIsHeld` | Parte 4/grupo19-projeto4/grupo19/src/tree.c:166-192 | with entries as objects in memory: in every run of either version, whatever the shapes of the deleted nodes, an entry that a deletion frees was held by one node, and no node points to it afterwards |
| `TreeObjects.ObjectsFollowTheRun` | Parte 4/grupo19-projeto4/grupo19/src/tree.c:53-206 | as long as every deletion passes the shape test, nodes with equal keys are nodes that share one entry, and the run on objects is the run whose searches SearchesAgreeIff describes |
| `TreeRuns.PutsBehaveAsMap` | Parte 4/grupo19-projeto4/grupo19/src/tree.c:53-144 | any sequence of puts into a new tree behaves as a map at every point |
| `TreeDelete.PartFourLosesAChild` | Parte 4/grupo19-projeto4/grupo19/src/tree.c:172-182 | a two-key tree from which Part 4 deletes one key and loses both, while Part 1 keeps the other |
| `TreeDelete.SuccessorHidesLeftChild` | Parte 4/grupo19-projeto4/grupo19/src/tree.c:184-192 | a three-key tree in which the two-child deletion hides the left child, in both versions |
| `TreeShape.SizeCountsKeys` | Parte 4/grupo19-projeto4/grupo19/src/tree.c:210-220 | tree_size counts every stored key once |
| `TreeShape.HeightBounds` | Parte 4/grupo19-projeto4/grupo19/src/tree.c:224-235 | height <= size <= 2^height - 1, on any tree |
| `TreeShape.HeightIsLongestPath` | Parte 4/grupo19-projeto4/grupo19/src/tree.c:224-235 | on any tree, tree_height is the number of nodes on the longest path over entries from the root |
| `TreeShape.HeightIsLongestSearch` | Parte 4/grupo19-projeto4/grupo19/src/tree.c:224-235 | in a well-formed tree it is the number of keys that the longest search for a stored key compares |
| `TreeShape.PathLeadsToKey` | Parte 4/grupo19-projeto4/grupo19/src/tree.c:111-144 | the turns of the search for a stored key lead over entries to the node that holds it |
| `TreeShape.ListingIsExact` | Parte 4/grupo19-projeto4/grupo19/src/tree.c:241-275 | the listing holds every stored key exactly once and has tree_size entries |
| `TreeShape.ListingIsPreorder` | Parte 4/grupo19-projeto4/grupo19/src/tree.c:241-275 | the listing is in the order of the search paths of its keys: parents first, left before right |
| `TreeShape.ListingExistsIff` | Parte 4/grupo19-projeto4/grupo19/src/tree.c:254-261 | on any tree: the listing below an entry works if and only if no child is a placeholder; otherwise the loop runs over NULL |
| `TreeShape.ListingFaultsAfterDeletion` | Parte 4/grupo19-projeto4/grupo19/src/tree.c:254-261 | two puts and a deletion after which the listing reads through NULL |
| `TreeShape.ListingFaultsAboveLostKeys` | Parte 4/grupo19-projeto4/grupo19/src/tree.c:172-182 | four puts and a deletion of Part 4 after which a stored key lies below a placeholder: no search finds it and the listing reads through NULL |
| `TreeShape.ShapeAfterPuts` | Parte 4/grupo19-projeto4/grupo19/src/tree.c:210-275 | size, height bounds and listing after any non-empty run of puts into a new tree; the program has room for the listing exactly up to four distinct keys |
| `TreeShape.ListingSurvivesIff` | Parte 4/grupo19-projeto4/grupo19/src/tree.c:247-270 | the listing with its final NULL stays inside the five pointers that the program allocates, and never runs over NULL, if and only if the tree has at most four keys and no placeholder as a child |
| `TreeHeap.TreeNode.constructor` | Parte 4/grupo19-projeto4/grupo19/src/tree.c:19-30 | a fresh node is the empty tree |
| `TreeHeap.TreeNode.TreePut` | Parte 4/grupo19-projeto4/grupo19/src/tree.c:53-100 | the nodes on the heap after tree_put are the put of the value model |
| `TreeHeap.TreeNode.TreeGet` | Parte 4/grupo19-projeto4/grupo19/src/tree.c:111-144 | the search over the nodes is the search of the value model |
| `TreeHeap.TreeNode.TreeDel` | Parte 4/grupo19-projeto4/grupo19/src/tree.c:150-206 | the nodes and the answer after tree_del are the deletion of the value model |
| `TreeHeap.TreeNode.TreeSize` | Parte 4/grupo19-projeto4/grupo19/src/tree.c:210-220 | the recursion over the nodes is the size of the value model |
| `TreeHeap.TreeNode.TreeHeight` | Parte 4/grupo19-projeto4/grupo19/src/tree.c:224-235 | the recursion over the nodes is the height of the value model |
| `TreeHeap.TreeNode.TreeGetKeys` | Parte 4/grupo19-projeto4/grupo19/src/tree.c:241-275 | on any tree: the allocated array holds the listing of the value model and a final NULL, or the call leaves its memory, exactly where ListingSurvives fails |
| `Table.AsciiIsHashable` | Parte 1/grupo62_2/Source/table.c:23-42 | the hash of a key without bytes above 127 is an index of the array |
| `Table.HashSumOfLong` | Parte 1/grupo62_2/Source/table.c:36-40 | the sum of a key of five or more characters is that of its first two and last two characters |
| `Table.HashSumAdds` | Parte 1/grupo62_2/Source/table.c:31-35 | the sum of a shorter key adds up over its parts |
| `Table.SignedIsCongruent` | Parte 1/grupo62_2/Source/table.c:33 | a character counts as the signed byte that its bits stand for |
| `Table.HashIsRemainder` | Parte 1/grupo62_2/Source/table.c:41 | the hash is congruent to the sum modulo the size, smaller than the size in absolute value, and of the sign of the sum |
| `Table.SameEndsCollide` | Parte 1/grupo62_2/Source/table.c:38-41 | longer keys with the same first two and last two characters collide in a table of any size |
| `Table.FindIsRight` | Parte 1/grupo62_2/Source/table.c:177-205 | every stored key is found from the slot of its hash, at its only slot, and nothing else is found |
| `Table.LookupIsBounded` | Parte 1/grupo62_2/Source/table.c:195-202 | following a link strictly increases the insertion order, so a lookup compares at most numElem keys |
| `Table.TopFreeIsTop` | Parte 1/grupo62_2/Source/table.c:128-137 | the scan finds the free slot with the highest index, and fails only on a full array |
| `TableProofs.PutIsRight` | Parte 1/grupo62_2/Source/table.c:99-140 | put answers 0 exactly when the key is absent and a slot is free, and changes the lookup of its own key alone; it keeps the chain invariant unless it stores an empty value, and then no order of the slots satisfies the invariant |
| `TableProofs.UpdateIsRight` | Parte 1/grupo62_2/Source/table.c:145-170 | update changes the lookup of a present key alone, answers -1 for an empty bucket, and dereferences NULL exactly for an absent key in a taken bucket; it keeps the chain invariant exactly unless it stores an empty value |
| `TableProofs.PutThenGetIff` | Parte 1/grupo62_2/Source/table.c:116-120 | after a successful put the value comes back if and only if it is not empty |
| `TableProofs.PutPlacement` | Parte 1/grupo62_2/Source/table.c:115-137 | a new key goes to the slot of its hash if that is free; otherwise to the free slot with the highest index, linked from the end of the chain through the slot of its hash |
| `TableProofs.EmptyValueIsLost` | Parte 1/grupo62_2/Source/table.c:116-120 | an empty value put into a new table cannot be read back |
| `TableProofs.EmptyValueWastesASlot` | Parte 1/grupo62_2/Source/table.c:104-120 | one key put twice, first with an empty value, fills a table of two slots of which one is free: every later put is refused |
| `TableProofs.UpdateRunsOffTheChain` | Parte 1/grupo62_2/Source/table.c:157-163 | after one put into a table of one slot, the update of an absent key dereferences NULL |
| `TableRuns.NewTableRefinesMapIff` | Parte 1/grupo62_2/Source/table.c:99-205 | over any run of puts, lookups and updates, with any keys and values, a new table agrees with a map bounded by its size in every lookup, every reply and its count, if and only if every call is safe: the hash is an index or the call a put into a full table, no absent key is put and no stored key updated with an empty value, and no absent key updated in a taken bucket |
| `TableRuns.RepliesAgreeIff` | Parte 1/grupo62_2/Source/table.c:99-205 | where no value is empty the replies alone are those of the map if and only if every call is safe |
| `TableProofs.CountersAreRight` | Parte 1/grupo62_2/Source/table.c:115-138 | numElem counts the occupied slots, numCol both the displaced entries and the links, and their difference the separate chains |
| `TableProofs.KeysAreExact` | Parte 1/grupo62_2/Source/table.c:221-234 | table_get_keys lists each stored key exactly once, numElem in all |
| `TableHeap.HashTable.constructor` | Parte 1/grupo62_2/Source/table.c:50-78 | the initialising loop gives the empty table |
| `TableHeap.HashTable.HashOf` | Parte 1/grupo62_2/Source/table.c:23-42 | the loop over a short key and the four characters of a longer one compute the hash of the value model |
| `TableHeap.HashTable.Walk` | Parte 1/grupo62_2/Source/table.c:157-161 | the loop along the links ends, computes the search of the value model, and calls strcmp at most numElem times |
| `TableHeap.HashTable.TableGet` | Parte 1/grupo62_2/Source/table.c:177-205 | the lookup on the array is the lookup of the value model, or an access in front of the array |
| `TableHeap.HashTable.LastOfChain` | Parte 1/grupo62_2/Source/table.c:125-127 | the loop to the end of the chain ends there |
| `TableHeap.HashTable.ScanForFree` | Parte 1/grupo62_2/Source/table.c:128-130 | the loop from the top index downwards finds the highest free slot |
| `TableHeap.HashTable.TablePut` | Parte 1/grupo62_2/Source/table.c:99-140 | array, counters and answer after table_put are those of the value model, for any key and value; the invariant is lost exactly by storing an empty value |
| `TableHeap.HashTable.TableUpdate` | Parte 1/grupo62_2/Source/table.c:145-170 | array and answer after table_update are those of the value model, which has no result exactly where the program leaves its array or dereferences NULL |
| `TableHeap.HashTable.TableGetKeys` | Parte 1/grupo62_2/Source/table.c:221-234 | the loop fills an array of numElem + 1 pointers with the keys and a final NULL |
| `Message.Layout` | Parte 1/grupo62_2/Include/message.h:20-66 | every field stands where the documented format puts it, with the documented code for each type of content and sizes as digits in network byte order |
| `Message.RoundTripIff` | Parte 1/grupo62_2/Source/message.c:130-252 | parsing a message's bytes, whatever bytes follow, gives it back and reads exactly its own bytes if and only if it is encodable |
| `Message.EmptyEntryIsRefused` | Parte 1/grupo62_2/Source/message.c:204-249 | the bytes of an entry without data are refused |
| `Message.PrefixFree` | Parte 1/grupo62_2/Source/message.c:31-128 | the bytes of one encodable message never begin those of another |
| `Message.ParseThenPrintIff` | Parte 1/grupo62_2/Source/message.c:130-252 | writing a parsed message gives back the bytes consumed if and only if no key field of the buffer contains a zero byte |
| `Message.KeysRoundTrip` | Parte 1/grupo62_2/Source/message.c:173-194 | a counted key list of any length survives exactly if every key length fits in a signed short |
| `Message.KeyLengthDecides` | Parte 1/grupo62_2/Source/message.c:180-192 | which signed length of a key field the parser accepts, refuses, or runs wild on |
| `Message.DataSizeDecides` | Parte 1/grupo62_2/Source/message.c:196-203 | the same for the size of a block of data |
| `Message.CountDecides` | Parte 1/grupo62_2/Source/message.c:173-194 | the same for the count of a list of keys |
| `Message.CStrEndsAtFirstZero` | Parte 1/grupo62_2/Source/message.c:165-171 | a parsed key ends at the first zero byte of its field, or at the end of the field |
| `Message.OnlyFaultsLookFurther` | Parte 1/grupo62_2/Source/message.c:130-252 | what lies behind a buffer changes nothing, unless the parser leaves the buffer |
| `Message.TruncationFaults` | Parte 1/grupo62_2/Source/message.c:130-252 | the bytes of an encodable message cut short anywhere make the parser read outside the buffer |
| `MessageBuffer.BufferSize` | Parte 1/grupo62_2/Source/message.c:40-63 | the sizing pass, with its own loop over the keys, computes the number of bytes that the writing pass writes |
| `MessageBuffer.MessageToBuffer` | Parte 1/grupo62_2/Source/message.c:31-128 | every write stays inside the allocation, no byte is left unset, and the buffer is the serialised message |
| `MessageBuffer.BufferToMessage` | Parte 1/grupo62_2/Source/message.c:130-252 | on any buffer: the cursor moves over it as the parse function says, to a message and the place behind it, to NULL, or to an access outside its memory |
| `MessageBuffer.GetKeys` | Parte 1/grupo62_2/Source/message.c:180-194 | the parser's loop over the keys computes the list, stopping at the first length that is refused or leads outside the buffer |

## Left out

- Sockets, polling, the packing of requests, the console of the client and printing: a forwarded write is one
  step in which the backup queues it and a later one in which the primary goes on; a client request is one step.
- Memory: failing allocations (except requests larger than any address space, which the parser refuses), leaks,
  uninitialised fields, and frees, but for those that `FreesLinkedNode`, `Parse` and `TreeObjects` deal with. A new
  queue node has a NULL next pointer and no id. NULL arguments, which every procedure answers with its error code
  at once, are not modelled.
- TreeHeap.TreeNode.TreeDel: entries are values in the nodes, while the two-child case of the program makes two nodes
  point to one entry. TreeObjects models that on values with addresses and TreeSharing without them; as long as every
  deletion passes LooseShape the sharing is invisible to every search. After any other deletion, in the heap model
  and in the trees of TaskQueue and Replication too, a write through an entry shared with a node that no search reaches is
  not seen at that node. Of the tree, the theorems of TaskQueue and Replication use only that a call depends on the
  tree and the operation, and that a failed call changes nothing; those of ServerMap that speak of the map are
  about safe logs, in which no two nodes share an entry.
- TreeRuns.SearchesAgreeIff: a deletion that is exact but leaves keys below a placeholder ends what it says about the
  run, because a later put may bring these keys to light; FirstLooselyUnsafeDeletionIff still covers that deletion.
- TreeShape.ListingSurvivesIff: the sizes of pointer and int are those of a 64-bit platform, eight and four bytes.
- TaskQueue.VerifyIsTruthful: verify reads the list without a lock; the model takes one call as one atomic step.
  The same holds for reads of the tree.
- TaskQueue.NoLostWakeUp: the initialisation of the locks after the thread has been started is left out.
- Replication.ReplicasAgree: the backup is connected before the first write and stays connected. A server that
  joins later receives no state from the program, so nothing is claimed about it.
- Replication.CrashLosesAtMostOne: a promotion follows a crash. In the program it follows the end of the primary's
  session, and an old primary that still runs may go on serving its clients and forwarding to the promoted server.
- Replication.AskingTheBackupIsRightIff: the data of a put is never NULL; a put without data would make the
  forwarding read through NULL.
- Election.AtMostOnePrimary: speaks of servers with a live session. A process whose session has ended keeps
  believing in its role, as in the code, and may coexist with the new primary.
- Election.RoleAtStartUp: speaks of start-ups that no other server overtakes between two calls; the safety theorems
  cover all interleavings.
- Election: the moment at which a primary opens its connection to the backup, and clients' own watchers.
- Table.FindIsRight: the search of the value model visits at most as many slots as the table has; cyclic links,
  which no reachable table contains, are not modelled further. Links are indices instead of addresses.
- MessageBuffer.BufferToMessage: the parser ignores msg_size; a read outside the buffer ends the call there, whatever
  the memory behind it holds. The sizes of messages do not overflow an int.
- table_destroy, table_size, free_message, tree_destroy and the data and entry helpers, which would only add easy
  members; the serialisation of Part 1's tree project, which copies pointers; the parts of Parts 2 and 3 that Part 4
  repeats.
