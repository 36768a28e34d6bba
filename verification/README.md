# A verified model of the course projects' systems code

The repository holds five small systems programs. This project models the parts of them that are
hard to get right and proves what those parts are for. To check it with Dafny 4.11:
`dafny verify dfyconfig.toml`.

**The heap allocator (`p3/mem.c`).** `Allocator.dfy` runs `Mem_Init`, `Mem_Alloc` and `Mem_Free` on
an array of words with the program's own in-band free list: relative `next` offsets, -1 as end mark,
sizes four bytes further on, first fit with a split from the tail, exact-fit unlinking, insertion by
address, merging both ways, and the padding and fill patterns of debug mode. A ghost sequence of
chunks says what the words mean. `Chunks.dfy` is the theory of those sequences: they tile the region,
no two free ones touch, and a heap is determined by its live blocks alone. `Encoding.dfy` proves that
each group of stores takes the encoding of one chunk sequence to that of the next; `Patterns.dfy` does
the same for the debug patterns and for the words that no store may touch.

The split test also accepts a chunk that leaves a remainder of -4, and the exact fit forgets the
padding. The model keeps both. `InsideChunkIffGood` says exactly when the returned block, with its
paddings, lies inside its chunk, and `SplitOverruns` is an input on which it does not. Regions and
requests in multiples of eight never leave that remainder (`OctetRunsRoomy`), and with debug off no bad
fit is left then (`OctetSession`). In debug mode two requests and a return can make the next request an
exact fit (`ExactFitReachable`). The paddings are then written 64 bytes too low: they rewrite the end of
the neighbour's padding with what it holds already, but also overwrite the block's own header, so
`Mem_Free` refuses the pointer just returned (`DebugExactFit`).

**The spin-locked list, hash table and counter (`p4-final/handin`, built without `PTH`).**
`SpinLists.dfy` is a state machine in which every exchange, load, store, `malloc` and `free` of every
thread is a step of its own and steps interleave in any order. `Linearization.dfy` proves that in every
execution no thread touches a freed node, the lock excludes, and each operation takes effect at one
moment between its call and its return, as an operation on an abstract list. `Progress.dfy` proves that
no execution reaches a deadlock. `StressTest.dfy` uses linearization to show that the repository's list
stress test passes under every schedule, and `StressRuns.dfy` that such schedules exist;
`SpinCounters.dfy` does the counter and its test. `HashLinearization.dfy` puts one such list in every
bucket, each under its own lock, and linearizes all operations of the table to one unbucketed list;
`HashProgress.dfy` proves that these locks cannot deadlock it, and `HashRuns.dfy` that every operation can
be called and every workload run to its end. `HashTable.dfy` is the sequential code on
linked nodes, for any number of buckets, against `KeyedLists.dfy`: one list on which every key is a stack
of its own.

**The request scheduler (`p5/server.c`).** `WaitQueue.dfy` is the sentinel queue with its three
insertion policies, `Server.dfy` the accept, pick and finish bookkeeping around it, `Scheduling.dfy`
the policies on sequences: what was asked for is what is queued and dispatched, order under SFF, what the
age statistic counts, what the bounded scan of SFF-BS keeps. `Overtaking.dfy` says exactly which waiting requests can be kept waiting without bound
when at most a given number wait, and gives the others their bound; `ServerOvertaking.dfy` carries both
over to all runs of the server, with its limit on waiting plus working requests.

When a slot is free, a request is starvable if the policy is not FIFO and something of positive size (or
anything, if requests whose size is never set may arrive) stands at its position or ahead of it. Under
SFF-BS it is also enough that the scan stops at its position or before, so that a large file can be put
ahead of it: unless that takes the only free slot, at the very front, and in the next group of N the scan
goes past the request. When no slot is free, the first request is dispatched next, and any other is
starvable if it will be after that dispatch.

**Keyword counting and sorting (`p1/search.c`).** `KeywordSearch.dfy` proves the left-to-right scan
optimal. `MergeSort.dfy` proves the sort stable and shows that its sentinels are never copied.

**Robust input and output (`p5/cs537.c`).** `RobustIO.dfy` runs the Rio functions against a kernel
that interrupts, fails or cuts short any call it likes.

Addresses in the allocator are byte offsets from the start of the region. All integers are
mathematical. Threads are interleaved under sequential consistency. Where a method of the model has
ghost parameters, they name positions in the ghost sequence and decide nothing.

## Model

| member | source | states |
|---|---|---|
| Chunks.PayloadsDisjoint | p3/mem.c:100-123 | in a tiled region any two live payloads lie inside the region and do not overlap |
| Chunks.RoundUp | p3/mem.c:87-88 | the rounded size is the least multiple of four that is not below the request |
| Chunks.FirstFit | p3/mem.c:97-133 | the chunk found passes the fit tests and every chunk before it fails them; none passes when the end is reached |
| Chunks.FirstFitIsFirstLarge | p3/mem.c:97-133 | it is the lowest free chunk of at least the size needed, more than that at the head of the region |
| Chunks.CarveKeepsHeap | p3/mem.c:100-128 | carving a block that fits keeps a tiled, coalesced heap and adds exactly that block, which was not live before |
| Chunks.ReleaseKeepsHeap | p3/mem.c:214-253 | releasing a block keeps a tiled, coalesced heap and removes exactly that block |
| Chunks.Canonical | p3/mem.c:214-253 | two heaps on one region with the same live blocks are the same heap: the free chunks are the maximal gaps |
| Chunks.ReleaseCommutes | p3/mem.c:214-253 | releasing two blocks in either order gives the same heap |
| Chunks.ReleaseUndoesCarve | p3/mem.c:100-128 | releasing the block just carved gives back the heap as it was, after a split and after an exact fit |
| Chunks.StepKeepsHeap | p3/mem.c:76-255 | each request, return or client store keeps a tiled, coalesced heap |
| Chunks.RunKeepsHeap | p3/mem.c:76-255 | every run of requests, returns and client stores served by good fits keeps a heap |
| Chunks.StoreStaysNoted | p3/mem.c:76-255 | in every run a word a client stores is noted until the client stores there again or returns the block, whatever else is called |
| Chunks.RunsAgree | p3/mem.c:76-255 | two runs that leave the same blocks live leave the same heap, whatever happened on the way |
| Chunks.AllReturned | p3/mem.c:59-60 | once every block has been returned, in any order, the single chunk that Mem_Init wrote is back |
| Chunks.OctetRunsServed | p3/mem.c:88-100 | with debug off and everything a multiple of eight, no request of any run meets a remainder between -8 and 0 |
| Chunks.OctetRunsAreHeaps | p3/mem.c:76-255 | so every such run, with no further condition, is a run of heaps |
| Chunks.OctetRunsRoomy | p3/mem.c:87-100 | in debug mode too, after any run with everything a multiple of eight, no request meets a remainder of -4 |
| Chunks.InsideChunkIffGood | p3/mem.c:100-123 | for every chunk that passes a fit test, the returned block with header and paddings lies inside it if and only if the remainder is not negative or the fit is exact without padding |
| Chunks.SplitOverruns | p3/mem.c:100-108 | in a region of twelve bytes a request for eight passes the split test and the returned payload begins past the end |
| Chunks.ExactFitReachable | p3/mem.c:76-255 | in debug mode two requests and a return, all lawful and well served, leave a heap on which the next request is an exact fit |
| Encoding.SplitEncodes | p3/mem.c:103-106 | the stores of the split branch encode the carved heap |
| Encoding.TakeEncodes | p3/mem.c:118-122 | unlinking and the header store of the exact-fit branch encode the carved heap |
| Encoding.InsertEncodes | p3/mem.c:222-228 | the stores that link a block in encode the heap in which it is a free chunk |
| Encoding.AbsorbEncodes | p3/mem.c:231-237 | the stores of a merge encode the heap with the two chunks as one, and the link they read is their distance |
| Encoding.Walk | p3/mem.c:131 | in the encoding of a heap the link of a free chunk is the distance to the next free chunk in address order, or -1 at the last |
| Encoding.HeadersDetermined | p3/mem.c:59-60 | memories that encode the same heap agree on every header word |
| Patterns.PadKeeps | p3/mem.c:141-147 | writing a block's paddings changes no header, no free word and no other block |
| Allocators.Allocator.constructor | p3/mem.c:31-33 | before Mem_Init there is no region |
| Allocators.Allocator.Fill | p3/mem.c:66-68 | a pattern loop writes its words and no others |
| Allocators.Allocator.AllEqual | p3/mem.c:153-157 | a checking loop succeeds if and only if every word of the range holds the pattern |
| Allocators.Allocator.MemInit | p3/mem.c:37-74 | the error for a second call or a bad size changes nothing else; otherwise the fresh region is one free chunk, clean in debug mode |
| Allocators.Allocator.WriteSplit | p3/mem.c:103-108 | the stores of a split, word for word, and the address computed from them, with a remainder of -4 too |
| Allocators.Allocator.SplitTail | p3/mem.c:100-108 | the words and the returned pointer after a split; with a remainder not below zero the carved heap is encoded and nothing live is touched |
| Allocators.Allocator.TakeExact | p3/mem.c:116-123 | the same for the exact fit, in either mode: the returned address leaves the padding out |
| Allocators.Allocator.PadBlock | p3/mem.c:141-147 | the two loops write the paddings on either side of the block at the returned address, word for word |
| Allocators.Allocator.CheckChunk | p3/mem.c:152-156 | the loop over one free chunk succeeds if and only if every word of its payload holds the free pattern |
| Allocators.Allocator.CheckFree | p3/mem.c:149-159 | the walk succeeds if and only if every word of every free payload holds the free pattern |
| Allocators.Allocator.FindFit | p3/mem.c:94-133 | the walk ends at the first free chunk that is large enough, with the free chunk before it, or at the end when every one is too small |
| Allocators.Allocator.CarveAt | p3/mem.c:100-128 | whichever branch applies, a good fit gives the carved heap; otherwise only the chunk's own size word changes |
| Allocators.Allocator.FinishDebug | p3/mem.c:140-162 | E_CORRUPT_FREESPACE is reported if and only if a free word is dirty; after a split the block is padded and all that was clean is clean; after an exact fit the block's header holds the padding pattern, the free list is right and no other block differs |
| Allocators.Allocator.MemAlloc | p3/mem.c:76-165 | the result, error code, heap and untouched words in every case: no region, nothing to do, E_NO_SPACE exactly when every free chunk is too small, and otherwise the first that is not, the exact fit in debug mode, and the one wrong word when the remainder is -4 |
| Allocators.Allocator.FindPrevious | p3/mem.c:214-220 | the walk ends at the last free chunk before the block and knows the first one behind it |
| Allocators.Allocator.WriteFree | p3/mem.c:222-228 | the stores of the insertion, word for word |
| Allocators.Allocator.WriteMerged | p3/mem.c:233-240 | the stores of a merge, word for word |
| Allocators.Allocator.MergeInto | p3/mem.c:231-241 | a merge represents the heap with the two chunks as one, touches nothing live and leaves free words clean |
| Allocators.Allocator.InsertFree | p3/mem.c:222-228 | linking in represents the heap with the block as a free chunk |
| Allocators.Allocator.MergeNext | p3/mem.c:231-241 | the test merges with the next chunk on the list exactly when it touches |
| Allocators.Allocator.MergePrevious | p3/mem.c:243-253 | the same for the previous one |
| Allocators.Allocator.FreeChunk | p3/mem.c:214-254 | after the walk, the insertion and both merges the heap is coalesced again and every other live block is untouched |
| Allocators.Allocator.CheckPads | p3/mem.c:200-211 | the two loops succeed if and only if both paddings are intact |
| Allocators.Allocator.MemFree | p3/mem.c:167-255 | the result, error code, heap and untouched words for null, out-of-range and header-less pointers, overwritten paddings and live blocks |
| Allocators.Allocator.StoreWord | p3/mem.c:198-211 | a client's store into the payload it was given keeps the heap, the free words and all paddings |
| Allocators.NullIffNoneLarge | p3/mem.c:76-165 | the right reply to a request is null exactly when it asks for nothing or every free chunk is smaller than the rounded size with its paddings, or just as large at the head of the region; and then nothing changes |
| Allocators.GivenIsNew | p3/mem.c:76-165 | otherwise it points to a block of the rounded size at the end of the first free chunk that is large enough, which was not live before, is the only new one, and may be stored into and returned |
| Allocators.Ask | p3/mem.c:76-165 | in a sound heap Mem_Alloc gives that reply, carves that block, and touches no live word |
| Allocators.GiveBack | p3/mem.c:167-255 | in a sound heap Mem_Free of a live block answers 0, releases it, and touches no other live word |
| Allocators.OctetsAreRoomy | p3/mem.c:87-100 | on a heap of multiples of eight a request for one meets what MemAlloc requires in debug mode |
| Allocators.Session | p3/mem.c:76-255 | in every session of lawful calls and stores served by good fits every call gets the right reply, the words represent the heap of the pure run, every payload word holds what its client last stored there, and neither E_CORRUPT_FREESPACE nor E_PADDING_OVERWRITTEN is ever reported |
| Allocators.OctetSession | p3/mem.c:76-255 | the same with debug off and multiples of eight, with no condition on the fits |
| Allocators.AllocFree | p3/mem.c:76-255 | Mem_Free of what Mem_Alloc just returned restores the heap and every header word |
| Allocators.DebugExactFit | p3/mem.c:116-147 | an exact fit in debug mode leaves every other block untouched, puts the padding pattern over the new block's header, and Mem_Free answers the returned pointer with E_BAD_POINTER |
| Allocators.PatternBelow | p3/mem.c:185-196 | and it will as long as the chunk before is clean, live or free: the word where it looks for the header is a pattern word |
| KeyedLists.BucketApply | p4-final/handin/hash.c:12-25 | an operation on one unbucketed list is, seen from the buckets, that operation in the bucket of its key and nothing elsewhere, with the same result |
| KeyedLists.KeyIsStack | p4-final/handin/list.c:17-92 | each key is a stack: insert pushes, delete pops, lookup reads the top, other keys do not notice |
| HashTables.List.constructor | p4-final/handin/list.c:5-7 | an empty list |
| HashTables.List.Insert | p4-final/handin/list.c:17-46 | the nodes then hold the list with the new entry in front |
| HashTables.List.FindNode | p4-final/handin/list.c:54-66 | the traversal ends at the first node with the key and remembers the one before it |
| HashTables.List.Unlink | p4-final/handin/list.c:57-61 | bypassing the node at a position removes that position and keeps the rest linked |
| HashTables.List.Delete | p4-final/handin/list.c:48-74 | the first entry with the key is gone, and nothing else |
| HashTables.List.Lookup | p4-final/handin/list.c:76-92 | the element of the first entry with the key, or null |
| HashTables.HashTable.constructor | p4-final/handin/hash.c:4-10 | any positive number of separate empty buckets is the empty table |
| HashTables.HashTable.Push | p4-final/handin/list.c:17-46 | one bucket has a fresh node in front and every other bucket is unchanged and still a list |
| HashTables.HashTable.InsertInto | p4-final/handin/hash.c:14 | inserting into one bucket leaves the contents of every other bucket alone |
| HashTables.HashTable.DeleteFrom | p4-final/handin/hash.c:19 | so does deleting from one |
| HashTables.HashTable.Insert | p4-final/handin/hash.c:12-15 | the table then holds what one unbucketed list would hold, with the new entry in front of the bucket of its key modulo the size |
| HashTables.HashTable.Delete | p4-final/handin/hash.c:17-20 | the same for deletion |
| HashTables.HashTable.Lookup | p4-final/handin/hash.c:22-25 | the result one unbucketed list would give |
| SpinLists.XchgStep | p4-final/handin/spin.c:4-18 | one round of the spin loop keeps the invariant: the flag is set exactly when some thread owns the lock |
| SpinLists.UnlockStep | p4-final/handin/spin.c:20-22 | the release store keeps it |
| SpinLists.PublishStep | p4-final/handin/list.c:37-38 | storing the new head keeps a list of distinct allocated nodes |
| SpinLists.BypassHeadStep | p4-final/handin/list.c:57-58 | unlinking at the head removes position 0 and makes its node private to the deleting thread |
| SpinLists.BypassNextStep | p4-final/handin/list.c:59-60 | unlinking further on removes the position reached by the walk, likewise |
| SpinLists.FreeStep | p4-final/handin/list.c:69-73 | freeing after the release is safe: nobody else can reach the node |
| SpinLists.StepKeepsInv | p4-final/handin/list.c:17-92 | every step of every thread keeps mutual exclusion, the list shape, ownership of every allocated node and the absence of faults |
| Linearization.StepMatches | p4-final/handin/list.c:17-92 | every step either is invisible to the abstract list or is the one effect of its operation, with the right result |
| Linearization.EveryExecution | p4-final/handin/list.c:17-92 | for any number of threads and any interleaving: no fault, mutual exclusion, and a history linearized to a sequential run that ends in what the nodes hold |
| Linearization.ReturnExplained | p4-final/handin/list.c:17-92 | in such a history each return has its call before it and between the two, of that thread, one effect only: that of the operation, with the result returned and the abstract list's |
| Linearization.NoLeak | p4-final/handin/list.c:69-73 | when no operation is in progress the allocated nodes are exactly those on the list |
| Progress.StepAdvances | p4-final/handin/list.c:17-92 | a thread that finds the lock free or its own gets strictly closer to the end of its operation with every step |
| Progress.SoloFinishes | p4-final/handin/list.c:17-92 | so, run alone, it finishes within an explicit bound on its steps and leaves the lock free |
| Progress.NoDeadlock | p4-final/handin/list.c:17-92 | every execution so far can be continued to one in which all operations have returned |
| HashLinearization.BucketsLegal | p4-final/handin/hash.c:12-25 | a history whose part in every bucket is legal is legal for one unbucketed list, and each bucket holds its part of that list |
| HashLinearization.StepKeepsHash | p4-final/handin/hash.c:12-25 | every step of every thread keeps each bucket's invariant, the buckets' nodes apart, and every thread in at most one bucket |
| HashProgress.SoloInBucket | p4-final/handin/hash.c:12-25 | a thread that finds the lock of its bucket free or its own finishes there by itself, and nothing happens in any other bucket |
| HashProgress.HashNoDeadlock | p4-final/handin/hash.c:4-25 | for any numbers of buckets and threads every execution so far can be continued to one in which all operations have returned and all locks are free |
| HashLinearization.EveryHashExecution | p4-final/handin/hash.c:4-25 | for any numbers of buckets and threads and any interleaving: no fault in any bucket, and one history linearized to a single unbucketed list of which each bucket holds its part |
| HashRuns.HashPerforms | p4-final/handin/hash.c:12-25 | whenever a thread is idle and the lock of bucket key mod size is free, it can call any operation on that key and by itself make exactly that take effect, moving nothing outside that bucket |
| HashRuns.ProgramsRun | p4-final/handin/hash.c:4-25 | for any number of buckets and any program for each thread some execution performs them all |
| StressTest.NoInterference | p4/testlist.c:108-129 | threads that share no key each get the results they would get alone, in every legal history |
| StressTest.OwnKeys | p4/testlist.c:109 | the entries of a key that one thread owns are what that thread would have made alone |
| StressTest.ProgramIs | p4/testlist.c:108-129 | the workload, operation by operation: n insertions of the thread's keys, deletions of every third, n lookups |
| StressTest.DeletesEveryThird | p4/testlist.c:116-123 | the i-th key is deleted if and only if i is a multiple of three |
| StressTest.AloneBalanced | p4/testlist.c:94-135 | one run of the workload by itself counts n insertions, (n + 2) / 3 deletions, and as many successful lookups as the difference |
| StressTest.StressPasses | p4/testlist.c:63-83 | after every execution, for any number of threads and operations, the test reports threads * n insertions and threads * ((n + 2) / 3) deletions, and its final check holds |
| StressRuns.SoloPays | p4/testlist.c:108-129 | a thread that runs alone makes exactly the operation it has called take effect, and no other thread's |
| StressRuns.Performs | p4-final/handin/list.c:17-92 | while the lock is free an idle thread can call any operation and by itself make exactly that take effect |
| StressRuns.StressCompletes | p4/testlist.c:51-64 | for any numbers of threads and operations some execution finishes all workloads |
| SpinCounters.StepKeepsInv | p4-final/handin/counter.c:33-57 | every step keeps mutual exclusion, and the value loaded under the lock is still the value |
| SpinCounters.PlannedOne | p4/testcount.c:44-55 | the total planned grows by each job's step times its number of times |
| SpinCounters.CounterTotal | p4/testcount.c:44-79 | in every execution the counter is its initial value plus what has been stored, and at the end plus increments minus decrements |
| SpinCounters.JobsComplete | p4/testcount.c:44-79 | every execution so far can be continued to one in which all threads have done their jobs, the lock is free and the counter holds the total |
| Scheduling.Lead | p5/server.c:82-83 | the scan stops behind the longest leading run of sizes not above the new one |
| Scheduling.SffSorted | p5/server.c:73-89 | after every run under SFF the queue is sorted by size with ties in arrival order |
| Scheduling.SffPicksShortest | p5/server.c:73-130 | each dispatch takes the earliest arrival among the smallest waiting requests |
| Scheduling.Conserved | p5/server.c:53-130 | under every policy each arrival is dispatched once or still waits, and nothing else is |
| Scheduling.AskedConserved | p5/server.c:53-130 | under every policy the descriptors, sizes and kinds of the requests dispatched and waiting are those received, each as often |
| Scheduling.RunIdentified | p5/server.c:53-111 | and each request waiting is for what was received when its node was made |
| Scheduling.DeathIsDispatch | p5/server.c:198-199 | the death recorded is the request's place among those dispatched |
| Scheduling.AgeFromPosition | p5/server.c:198-199 | under every policy a waiting request is dispatched after as many others as stand ahead of it plus those inserted ahead later |
| Scheduling.FifoAge | p5/request.c:173 | under FIFO the node last in the queue carries the descriptor, size, kind and birth of the arrival, and its age is the length of the queue it found |
| Scheduling.SffAge | p5/request.c:173 | under SFF the node inserted carries the same, and its age is the number of waiting requests no larger plus the later arrivals of strictly smaller size before the dispatch |
| Scheduling.RunKeepsWindow | p5/server.c:90-110 | SFF-BS keeps the first N - served mod N waiting requests sorted, ties in arrival order, while served div N does not change |
| Scheduling.LimitOneIsLifo | p5/server.c:99-109 | in every run with a value of one or less the request dispatched next is the latest arrival still waiting |
| Overtaking.SafeAge | p5/server.c:198-199 | a request that sizes or the bounded scan do not expose is dispatched after exactly those ahead of it, whatever arrives |
| Overtaking.HeadCanBeSafe | p5/server.c:99-104 | under SFF-BS with a value of two or more, an empty file at the head of a fresh server's queue is such a request |
| Overtaking.BoundedAge | p5/server.c:73-110 | with a limit on the requests waiting, one that is not starvable sees at most one more dispatched before it than stand ahead |
| Overtaking.Starvation | p5/server.c:73-110 | with that limit, in any state, a request can see any number of others dispatched before it if and only if it is starvable |
| Overtaking.SffStarvable | p5/request.c:237 | in every run under SFF with static requests only, the starvable requests are those of positive size that are not first in a full queue |
| ServerOvertaking.RunKeepsSane | p5/server.c:231-232 | in every run of the server waiting plus working stays within max_buffers |
| ServerOvertaking.EventsExtend | p5/server.c:214-236 | the arrivals and dispatches of a run are what it adds to the books |
| ServerOvertaking.RunIsAdmissible | p5/server.c:214-236 | so the arrivals and dispatches of every run keep to the limit on those waiting |
| ServerOvertaking.Realised | p5/server.c:214-236 | and every sequence of arrivals and dispatches within it is that of some run of the server, in which any one worker does all the work |
| ServerOvertaking.BoundedWait | p5/server.c:214-236 | whatever the master and the workers do, a request that is not starvable sees at most one more dispatched before it than stand ahead |
| ServerOvertaking.ServerStarvation | p5/server.c:214-236 | in every state of every server some runs keep a waiting request waiting for as many dispatches as you like if and only if it is starvable |
| ServerOvertaking.SffServerStarvation | p5/server.c:214-236 | at any moment of any run under SFF with static requests only, these are the requests of positive size that are not first in a full queue |
| WaitQueues.WaitQueue.constructor | p5/server.c:42-51 | a sentinel alone is the empty queue |
| WaitQueues.WaitQueue.Append | p5/server.c:69-71 | the FIFO branch puts the node last |
| WaitQueues.WaitQueue.InsertAfter | p5/server.c:84-88 | the new node stands behind the one given, everything else keeps its order, and the tail is the last node |
| WaitQueues.WaitQueue.Scan | p5/server.c:99-104 | the scan stops at the end of the leading run or at its limit, whichever comes first |
| WaitQueues.WaitQueue.Push | p5/server.c:53-111 | under each policy the request is inserted at that policy's index |
| WaitQueues.WaitQueue.Peek | p5/server.c:113-117 | the first waiting request |
| WaitQueues.WaitQueue.Pop | p5/server.c:119-130 | the first waiting request is gone, the tail is right even for the last one, and an empty queue is left alone |
| Servers.Server.constructor | p5/server.c:42-51 | all counts are zero and the queue is empty |
| Servers.Server.Accept | p5/server.c:165-169 | a node with the accepted descriptor, size and kind joins the queue of the run so far at the policy's index and the books of the pure step; the limit on waiting plus working holds |
| Servers.Server.CountRequest | p5/server.c:192-196 | a worker's count stays its static plus its dynamic requests, and the counts' sum goes up by one |
| Servers.Server.TakeHead | p5/server.c:184-202 | one request moves from waiting to working and the history grows by one dispatch |
| Servers.Server.Record | p5/server.c:184-202 | one dispatch with the statistics of its worker |
| Servers.Server.Pick | p5/server.c:172-202 | the books become those of the pure step: the head is dispatched and counted for its worker, or nothing happens when its descriptor is -1; its death is the number dispatched before |
| Servers.Server.Finish | p5/server.c:211 | one request moves from working to finished |
| Servers.CountsAreDispatches | p5/server.c:192 | in every run of the books a worker's count is the number of requests that worker dispatched |
| Servers.StatisticsAreDispatches | p5/server.c:193-196 | and its static and dynamic statistics are the numbers of those that were received as static and as dynamic |
| Servers.AcceptedConserved | p5/server.c:165-236 | in every run from a fresh server the descriptors, sizes and kinds of the requests dispatched and waiting are those of the accepts the limit let through, each as often |
| Servers.Perform | p5/server.c:214-236 | one action behind its wait loop: taken exactly when the loop lets it through |
| Servers.Work | p5/server.c:214-236 | after any order of accepts, picks and finishes by any number of workers the books are those of the pure run, and: waiting = queue length, waiting + working within the limit, accepted = waiting + working + finished, counts = static + dynamic and summing to the dispatches |
| KeywordSearch.CString | p1/search.c:143-145 | the text searched is what comes before the first null character |
| KeywordSearch.MatchesIffOccurs | p1/search.c:151 | comparing the characters from a position on succeeds if and only if the text is something of that length, the keyword, and something |
| KeywordSearch.StrStrIsFirst | p1/search.c:151 | the first such position from a given one on, or none if there is none |
| KeywordSearch.GreedyIsLargest | p1/search.c:147-154 | no set of pairwise non-overlapping occurrences is larger than the greedy count |
| KeywordSearch.GreedyPacking | p1/search.c:147-154 | there is such a set of exactly that size |
| KeywordSearch.RoundsAreMatches | p1/search.c:147-154 | with a keyword that is not empty the loop has exactly as many rounds as that |
| KeywordSearch.LoopEnds | p1/search.c:151-154 | the counting loop ends if and only if the keyword is not empty |
| KeywordSearch.CountKeyWord | p1/search.c:147-154 | the loop ends with the maximum number of pairwise non-overlapping occurrences |
| MergeSort.Unique | p1/search.c:187-194 | a descending stable permutation of a sequence is unique |
| MergeSort.IsPermutation | p1/search.c:187-194 | a stable permutation is a permutation |
| MergeSort.MergeDescending | p1/search.c:177-182 | merging two descending segments gives a descending one |
| MergeSort.MergeStable | p1/search.c:177-182 | merging keeps the order of files with equal counts, left segment first |
| MergeSort.CopySegment | p1/search.c:169-175 | a temporary array is the segment followed by a count of -1 |
| MergeSort.CopiedNext | p1/search.c:177-182 | while files are left, the one copied next is a file and not a sentinel, and it is the next of the merge |
| MergeSort.MergeBack | p1/search.c:177-182 | the loop replaces the segment by the merge of the two temporary arrays' files |
| MergeSort.MergeSegments | p1/search.c:158-185 | the two segments become their merge and nothing outside them changes |
| MergeSort.Sort | p1/search.c:187-194 | the segment becomes the descending stable permutation of what it held and nothing outside it changes |
| RobustIO.LineLength | p5/cs537.c:398-410 | a line ends at its first newline, at the limit or at the end of the stream |
| RobustIO.LineLengthIs | p5/cs537.c:398-410 | and no other length has those properties |
| RobustIO.NothingLost | p5/cs537.c:367-413 | for any mix of reads, errors included, the bytes delivered followed by the remainder are the stream |
| RobustIO.BufferInvisible | p5/cs537.c:323-413 | without errors the answers are a function of the requests and the stream |
| RobustIO.LinesDeliverAll | p5/cs537.c:393-413 | reading line after line, each within a limit of its own of two or more, delivers the whole stream |
| RobustIO.ReadExactly | p5/cs537.c:267-286 | n bytes, or what is left, or -1 after a part; interruptions and short counts do not show |
| RobustIO.WriteExactly | p5/cs537.c:293-310 | everything is written and n returned, or a part is written and -1 returned, the latter only after a failure or a write of nothing |
| RobustIO.Kernel.Read | p5/cs537.c:329-330 | what a read may do: any error without effect, or any number of the next bytes of the stream, none only at its end |
| RobustIO.Kernel.Write | p5/cs537.c:300 | what a write may do: any error without effect, or any number of the bytes given, also none |
| RobustIO.Rio.constructor | p5/cs537.c:355-360 | an empty buffer in front of the stream |
| RobustIO.Rio.Refill | p5/cs537.c:327-338 | refilling changes nothing a reader can see, and ends with bytes in the buffer, at the end of the stream or with a real error |
| RobustIO.Rio.Read | p5/cs537.c:323-349 | the next bytes of the remainder, none only at its end |
| RobustIO.Rio.ReadNB | p5/cs537.c:367-387 | n bytes of the remainder, or all of it, or -1 after a part |
| RobustIO.Rio.StoreChar | p5/cs537.c:399-401 | one more byte of the stream stands behind those read so far, or none at its end or after an error |
| RobustIO.Rio.ReadLineChars | p5/cs537.c:398-410 | the loop copies the line and stops with the right return value |
| RobustIO.Rio.ReadLineB | p5/cs537.c:393-413 | the line, its terminating zero and the return value: its length when it ends in a newline, one more when it is cut short after data or by maxlen, 0 at an immediate end |
| RobustIO.Session | p5/cs537.c:323-413 | any mix of requests on one reader is answered in order from one stream, whatever pieces the kernel returns |

## Left out

- Allocators.Allocator.MemInit: regions whose size is not a multiple of four, where the last word of the debug loops straddles the end, and failing `open` or `mmap`.
- Allocators.Allocator.MemAlloc: in debug mode it requires that the chunk found leaves no remainder of -4: the lower padding would then be written past the end of the chunk, over the next block or past the region. Exact fits are covered in both modes, and with multiples of eight there is no such remainder (Allocators.OctetsAreRoomy).
- Allocators.Allocator.FinishDebug: the same.
- Allocators.Session: it requires good fits throughout, so it does not continue after an exact fit in debug mode (Allocators.DebugExactFit) or a remainder of -4.
- Allocators.Allocator.MemFree: pointers inside the region that Mem_Alloc never returned or that were freed before, unless the word where their header would be is negative; the code cannot tell them from live ones.
- Allocators.OctetSession: debug mode is not covered, because the paddings make exact fits possible there.
- Linearization.EveryExecution: safety only; Progress.NoDeadlock has what there is of progress.
- Progress.NoDeadlock: some schedule finishes every operation, here and for the table and the counter; that a given spinning thread ever gets the lock depends on fairness, which nothing in the code supplies.
- StressTest.StressPasses: the test's fixed numbers of threads and operations become parameters, and the element stored is any non-null word per key.
- Scheduling.RunKeepsWindow: no bounded-starvation claim for SFF-BS; Overtaking.Starvation says which requests have a bound.
- WaitQueues.WaitQueue.Push: an SFF-BS value of 0, with which the program divides by zero on the first arrival. Negative ones are covered.
- ServerOvertaking.ServerStarvation: requests on a descriptor of -1, which a worker never takes off the queue, and servers without workers.
- Servers.Work: accept, pick and finish are atomic. The code does not make them so: the master and every worker use different locks.
- RobustIO.Session: only finitely many interruptions in a row; with endless ones the loops of the original do not end.
- KeywordSearch.CountKeyWord: requires a keyword that is not empty; with an empty one the loop does not end (KeywordSearch.LoopEnds).
- MergeSort.Sort: counts are required not to be negative, as counting leaves them.
- The `PTH` build mixes a mutex and a spinlock on one list and is not modelled.
- 32-bit overflow of sizes, counters and keys, and memory ordering below sequential consistency.
- `malloc` and `calloc` failure everywhere; `Mem_Dump`.
- Condition variables, the passing of `&t` to threads, wall-clock statistics, HTTP, CGI and sockets in `p5`.
- The size of a dynamic request under SFF and SFF-BS is never set by the code; the model lets it be any number.
- The shell in `p2` and the command-line, file and printing code of `p1`, which would add easy members only.
- The earlier copies of the list library in `p4` and `p4/stress-test`.
