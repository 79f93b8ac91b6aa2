# Cache eviction, stack distances and hashing: models and proofs

This project models the core algorithms of a cache simulation library in Dafny and proves what they
are for. The data structures are classes and arrays that change in place, as in the library; what
they mean is said by functions on sequences, sets and maps, and the main results are lemmas about
those functions and contracts that tie the code to them.

`dafny verify dfyconfig.toml` checks everything.

| file | part of the library |
|---|---|
| `Lists.dfy` | facts about sequences |
| `KeyTrees.dfy`, `SplayTree.dfy` | the size-augmented top-down splay tree |
| `Recency.dfy`, `StackDistance.dfy` | traces and the plain LRU list; stack distances and the one-pass LRU profile |
| `PQueue.dfy` | the indexed binary heap |
| `Optimality.dfy`, `Belady.dfy`, `Oracle.dfy` | Belady's MIN: optimality, the cache, the next-access oracle |
| `ArcPolicy.dfy`, `ArcCache.dfy` | ARC: the policy and DBL(2c); the coded cache for objects of any size |
| `Clock.dfy`, `ArcV0.dfy`, `Age.dfy` | Clock; ARCv0 and ARC_FR, built from smaller caches; AGE |
| `CacheList.dfy` | the doubly linked lists |
| `RobinHoodSlots.dfy`, `RobinHood.dfy` | the Robin Hood hash table |
| `ConsistentHash.dfy`, `Md5.dfy` | the consistent-hash ring; MD5 streaming |

## What the proofs found

- The profiler cannot tell time 0 from "never requested". The first repeated request for the object of
  request 0 is a hit that it does not count. `StackDistance.ProfileExactIff` says exactly when this
  shows, and `StackDistance.ProfileMissesAHit` is the smallest example.
- The comment of `_get_lru_hit_cnt` says that size -1 stands for the maximal size
  (`simulator/libCacheSim/profiler/profilerLRU.c:54`). The code allocates an array of size + 1 elements,
  so size -1 gives no counts. The model follows the code.
- In Belady's cache a hit on an object of type 1 or of type 2 cannot happen with an exact oracle; the code
  asserts the first and handles the second.
- In ARC the extra condition of REPLACE that T2 is empty never decides anything when all objects have
  size one; it does with objects of different sizes.
- The hash table cannot overflow while it has at most 126 entries, or while no window of buckets in
  the table moved to is home to 126 keys more than it has buckets; with a
  constant one 127 keys go in (`RobinHood.FillUp`) and no other (`RobinHood.Table.InsertOrAssign`).
- Belady's cache aborts on an assertion about the expected reuse distance for some huge capacities.
  `Belady.Simulate` says exactly when, `Belady.SurvivesIffShort` how to tell from the trace, and
  `Belady.LargestCacheAborts` is an example.
- The predictor of ARCv0 and ARC_FR lacks the test for an empty T2 that REPLACE has.
  `ArcV0.Cache.NotPredictedIff` says exactly when this shows; it never does between requests or after a
  look-up.
- A stack distance of 2^32 - 1 would be stored as -1, "never requested before".
- ARC_FR and ARCv0 evict and copy T2's victim in opposite order. The queues are the same afterwards.

## Model

| member | source | states |
|---|---|---|
| KeyTrees.LastOnPathNeighbour | simulator/libCacheSim/dataStructure/splay.c:70-102 | the search for a key ends at the key if the tree holds it, and otherwise at the largest smaller or the smallest larger key |
| SplayTree.RotateRight | simulator/libCacheSim/dataStructure/splay.c:74-78 | the in-place rotation turns the current subtree into its right rotation and keeps every other subtree, spine node and size |
| SplayTree.RotateLeft | simulator/libCacheSim/dataStructure/splay.c:88-92 | the mirror image of the right rotation |
| SplayTree.LinkRight | simulator/libCacheSim/dataStructure/splay.c:81-84 | the current node is hung below the right spine; the whole in-order sequence is unchanged and the running size of the right tree is exact |
| SplayTree.LinkLeft | simulator/libCacheSim/dataStructure/splay.c:95-98 | the mirror image of linking to the right |
| SplayTree.FixLeftSizes | simulator/libCacheSim/dataStructure/splay.c:115-118 | after the walk down the left spine every node on it holds the size its subtree has once the tree is closed |
| SplayTree.FixRightSizes | simulator/libCacheSim/dataStructure/splay.c:119-122 | the same for the right spine |
| SplayTree.Splay | simulator/libCacheSim/dataStructure/splay.c:61-129 | for any key and any size-annotated tree: the in-order sequence is kept, every stored size is right, the root is the last node on the search path, and no other tree in the same memory is touched |
| SplayTree.Insert | simulator/libCacheSim/dataStructure/splay.c:158-193 | the result is a search tree with right sizes whose keys are the old ones and the new key, which is at the root |
| SplayTree.Delete | simulator/libCacheSim/dataStructure/splay.c:195-217 | the result is a search tree with right sizes whose keys are the old ones without the given key, absent or not |
| SplayTree.RootFacts | simulator/libCacheSim/dataStructure/splay.c:259-268 | in a well-formed tree the size check of check_sTree holds at every node, and node_value is the size of a subtree, null or not |
| SplayTree.RootRank | simulator/libCacheSim/dataStructure/splay.h:23 | node_value of the right child of the root is the number of larger keys |
| KeyTrees.PredecessorAtRoot | simulator/libCacheSim/dataStructure/splay.c:206-208 | splaying the left subtree for the deleted key brings up its largest key, so the right pointer the deletion overwrites is null |
| StackDistance.TreeKeysSnoc | simulator/libCacheSim/profiler/dist.c:79-101 | the set of tree keys before and after a request: the last access times, plus time 0, which is never deleted |
| StackDistance.KeysAbove | simulator/libCacheSim/profiler/dist.c:92-93 | as many keys lie above an object's last access time as distinct objects were requested since |
| StackDistance.Tracker.AddReq | simulator/libCacheSim/profiler/dist.c:72-104 | the returned distance is the number of distinct objects requested since the last request for the object, or -1 if that was at time 0 or never; the tree holds exactly the last access times and time 0 |
| StackDistance.GetStackDist | simulator/libCacheSim/profiler/dist.c:111-160 | the code aborts exactly if some distance is above 32 bits; otherwise the two arrays hold, in 32 bits with a sign, the distance back to the previous request, and the distance forward to the next one, -1 where there is none; the request at time 0 counts as none |
| StackDistance.StoredExactIff | simulator/libCacheSim/profiler/dist.c:136-145 | a distance that is not aborted on is stored truly exactly if it has 31 bits; the largest one reads as "never requested before" |
| StackDistance.ShortTraceExact | simulator/libCacheSim/profiler/dist.c:111-160 | for up to 2^31 requests there is no abort and every distance is stored as it is |
| StackDistance.FutureStep | simulator/libCacheSim/profiler/dist.c:142-145 | a request settles the forward distance of the previous request for its object and of no other |
| Recency.LruIsStackPrefix | simulator/libCacheSim/profiler/profilerLRU.c:72-79 | a plain LRU list with c slots holds the top c of the recency stack, so smaller caches are included in larger ones |
| Recency.StackOrder | simulator/libCacheSim/profiler/profilerLRU.c:72-79 | the recency stack lists every requested object once, by falling time of last access |
| Recency.LruHitIff | simulator/libCacheSim/profiler/profilerLRU.c:72-79 | an LRU list with c slots hits exactly when fewer than c distinct objects were requested since |
| StackDistance.ProfileIsLru | simulator/libCacheSim/profiler/profilerLRU.c:66-88 | for every size the accumulated count equals the hits of the plain LRU list, less the one lost hit |
| StackDistance.LostSnoc | simulator/libCacheSim/profiler/profilerLRU.c:57-82 | the lost hit is the first repeated request for the object of request 0, if the list still holds it, and no other |
| StackDistance.ProfileExactIff | simulator/libCacheSim/profiler/profilerLRU.c:57-88 | the profile is wrong at size c exactly if the first object comes back with fewer than c distinct objects in between |
| StackDistance.ProfileMissesAHit | simulator/libCacheSim/profiler/profilerLRU.c:57-88 | a concrete trace, one object twice, on which the profile reports no hit although every LRU list with a slot hits once |
| StackDistance.LruHitCounts | simulator/libCacheSim/profiler/profilerLRU.c:57-96 | the array of all sizes up to the given one: LRU hits less the lost one, from one pass and a running sum; size -1 gives an empty array |
| StackDistance.LruMissCounts | simulator/libCacheSim/profiler/profilerLRU.c:40-47 | requests less hits, for every size |
| PQueue.Queue.BubbleUp | simulator/libCacheSim/dataStructure/pqueue.c:99-116 | restores heap order when one slot is too large for its parent; same nodes, every node knows its slot |
| PQueue.Queue.MaxChild | simulator/libCacheSim/dataStructure/pqueue.c:119-132 | the child with the larger priority, or 0 exactly when there is no child |
| PQueue.Queue.PercolateDown | simulator/libCacheSim/dataStructure/pqueue.c:135-152 | restores heap order when one slot is too small for its children; also for the slot just given up |
| PQueue.Queue.Insert | simulator/libCacheSim/dataStructure/pqueue.c:155-179 | heap order and positions are kept, the nodes are the old ones and the new one, also when the array has to grow |
| PQueue.Queue.ChangePriority | simulator/libCacheSim/dataStructure/pqueue.c:182-196 | only the priority of the given node changes, and heap order and positions hold again |
| PQueue.Queue.Remove | simulator/libCacheSim/dataStructure/pqueue.c:199-210 | exactly the given node leaves, wherever it stands, the last slot included |
| PQueue.Queue.Pop | simulator/libCacheSim/dataStructure/pqueue.c:213-226 | null exactly for an empty queue, else a node with the largest priority, and exactly that node leaves |
| PQueue.Queue.Peek | simulator/libCacheSim/dataStructure/pqueue.c:229-237 | a node with the largest priority, nothing changes |
| PQueue.TopIsLargest | simulator/libCacheSim/dataStructure/pqueue.h:196-198 | heap order under cmp_pri puts the largest priority into slot 1 |
| Optimality.BeladyIsOptimal | simulator/libCacheSim/cache/eviction/Belady.c:315-343 | over every trace and capacity, evicting an object with the farthest next request misses no more than any cache that starts empty, inserts what it misses and holds at most c objects |
| Optimality.AheadStep | simulator/libCacheSim/cache/eviction/Belady.c:315-343 | the exchange invariant: by every deadline the other cache holds at most as many more due objects as it has missed more requests |
| Optimality.BeladyRunIsRun | simulator/libCacheSim/cache/eviction/Belady.c:231-247 | Belady's own run is one of the runs it is compared with |
| Belady.TableAdvance | simulator/libCacheSim/cache/eviction/Belady.c:162-164 | when a request comes in, a cached object of types 1 or 2 is never the one requested, so the assertion on type 1 cannot fail |
| Belady.ExpectedRange | simulator/libCacheSim/cache/eviction/Belady.c:249-254 | the expected reuse distance is never negative, and the assertion that it fits into 64 bits holds exactly if cache size times requests is at most 2^63 - 1 times the misses |
| Belady.FarIff | simulator/libCacheSim/cache/eviction/Belady.c:157-202 | within that range, the comparison of the truncated distance with the way to the next access is a comparison of products of integers |
| Belady.Cache.NewKind | simulator/libCacheSim/cache/eviction/Belady.c:157-202 | the type of an object after a hit, as a function of its next access and the expected reuse distance alone; an object of type 2 would not be checked for a missing next access |
| Belady.Cache.FirstKind | simulator/libCacheSim/cache/eviction/Belady.c:249-275 | the type of a new object; the first assertion fails exactly out of that range, and the two others hold |
| Belady.Cache.Find | simulator/libCacheSim/cache/eviction/Belady.c:145-219 | found exactly if cached; a hit stores the next access time, raises the frequency, sets the type, and gives the queue node its new priority; nothing else changes |
| Belady.Cache.Insert | simulator/libCacheSim/cache/eviction/Belady.c:231-288 | the object enters table and queue with its true next access time and its size, and the miss counter rises by one, unless the code aborts, which depends on cache size, misses and requests alone |
| Belady.Cache.Evict | simulator/libCacheSim/cache/eviction/Belady.c:315-343 | removes from table and queue one object with the farthest next access, and counts its type |
| Belady.Cache.MakeRoom | simulator/libCacheSim/cache/cache.c:261-265 | for objects of any size: the loop ends and leaves room; every victim was farthest among the objects left, and was needed |
| Belady.RoomIsBelady | simulator/libCacheSim/cache/cache.c:261-265 | with objects of size one the loop evicts one object exactly if the cache is full, so that the request is a step of the rule |
| Belady.Cache.CountIn | simulator/libCacheSim/cache/cache.c:286-290 | occupied bytes and object count match the table after an insertion of any size |
| Belady.Cache.CountOut | simulator/libCacheSim/cache/cache.c:349-354 | and after an eviction; every miss is cached, removed or counted under its type |
| Belady.Cache.Get | simulator/libCacheSim/cache/eviction/Belady.c:117-127 | one request for an object of any size: hit exactly if cached, misses counted, the object brought in after exactly the evictions it needs or refused as too large, and the queue mirrors the table with true next access times; with size one the contents move as the rule says; it aborts exactly out of range |
| Belady.Cache.Remove | simulator/libCacheSim/cache/eviction/Belady.c:345-380 | removes exactly the object from table and queue and reports whether it was there |
| Belady.Cache.ToEvict | simulator/libCacheSim/cache/eviction/Belady.c:300-305 | names an object with the farthest next access, nothing changes |
| Optimality.SameMisses | simulator/libCacheSim/cache/eviction/Belady.c:315-343 | any two runs of the rule miss the same requests, however they choose among objects that are not requested again |
| Belady.OutgrowsAlike | simulator/libCacheSim/cache/eviction/Belady.c:249-254 | so whether a request makes the reuse distance go out of range depends on trace and capacity alone |
| Belady.SurvivesIff | simulator/libCacheSim/cache/eviction/Belady.c:249-254 | in a cache with room for all objects, or one small enough for the length of the trace, the code never aborts exactly if at each first request for an object the capacity times its position is at most 2^63 - 1 times the number of objects so far |
| Belady.SurvivesIffShort | simulator/libCacheSim/cache/eviction/Belady.c:249-254 | the same for every capacity if the square of the length of the trace has 63 bits |
| Belady.LargestCacheAborts | simulator/libCacheSim/cache/eviction/Belady.c:249-254 | three requests, two for one object and one for another, abort in a cache of 2^63 - 1 |
| Belady.Simulate | simulator/libCacheSim/cache/eviction/Belady.c:117-127 | a whole trace of unit-size objects with an exact oracle, for every capacity: it aborts exactly if a run of the rule gets out of range, and then at the first such request; otherwise the misses counted are those of a run of the rule, and no other cache of that capacity misses less |
| Oracle.Backward | simulator/libCacheSim/bin/traceUtils/traceConv.cpp:76-108 | from the last request to the first: each record gets the next request's position counted from the end, or -1; the statistics count requests, objects and bytes, objects with their last size |
| Oracle.KnowsStep | simulator/libCacheSim/bin/traceUtils/traceConv.cpp:77-87 | the map always holds the next request of every object that has one |
| Oracle.ReverseFile | simulator/libCacheSim/bin/traceUtils/traceConv.cpp:217-243 | records come out in trace order, with 1-based next positions or -1, and with every object's first size if sizes are unified |
| Oracle.Converted | simulator/libCacheSim/bin/traceUtils/traceConv.cpp:217-243 | one record: clock and object are kept, the size is its own or that of the first request for the object, the tag is the position of the next request for it, or -1 |
| Oracle.LastBytesSnoc | simulator/libCacheSim/bin/traceUtils/traceConv.cpp:76-108 | the bytes of objects in the statistics: the last size of an object takes the place of the one before |
| Oracle.ConvertToOracleGeneral | simulator/libCacheSim/bin/traceUtils/traceConv.cpp:51-132 | both passes together, for every nonempty trace |
| Oracle.ReadBackExact | simulator/libCacheSim/traceReader/customizedReader/oracle/oracleGeneralBin.h:61-67 | a converted trace, read back with -1 turned into the largest 64-bit integer, is an exact oracle with the clocks of the trace, sizes ignored or not |
| Oracle.ConvertAndSimulate | simulator/libCacheSim/bin/traceUtils/traceConv.cpp:51-132 | end to end, for every capacity: converting any trace and running Belady on it gives the smallest number of misses that any cache of that capacity can have, attained by its own run; it aborts exactly if a run of the rule on the trace gets out of range |
| ArcPolicy.ArcFollowsDbl | simulator/libCacheSim/cache/eviction/ARC.c:219-294 | whatever p is and whichever side REPLACE picks, T1 with B1 and T2 with B2 move exactly as the two lists of DBL(2c) |
| ArcPolicy.ArcKeepsReachable | simulator/libCacheSim/cache/eviction/ARC.c:561-595 | T1 and T2 hold at most c objects, T1 and B1 at most c, all four at most 2c; 0 <= p <= c; no ghosts while the cache is not full; no object twice |
| ArcPolicy.ReplaceFrees | simulator/libCacheSim/cache/eviction/ARC.c:519-536 | in those states REPLACE frees exactly one slot and forgets nothing |
| ArcPolicy.ArcRunFollowsDbl | simulator/libCacheSim/cache/eviction/ARC.c:219-330 | the same on every run |
| ArcPolicy.ArcOrdered | simulator/libCacheSim/cache/eviction/ARC.c:219-330 | on every run each list with its ghosts is strictly ordered by last access |
| ArcPolicy.DblForgets | simulator/libCacheSim/cache/eviction/ARC.c:561-595 | what the directory forgets was followed by requests for at least c distinct other objects |
| ArcPolicy.ArcRemembersLru | simulator/libCacheSim/cache/eviction/ARC.c:561-595 | the directory always knows every object that an LRU list of size c would hold |
| ArcPolicy.ArcTarget | simulator/libCacheSim/cache/eviction/ARC.c:248-259 | in every reachable state a hit in B1 takes p up to the cache size, or by the larger of the two ghost lists over B1; a hit in B2 takes it down to 0, or by the larger over B2; nothing else moves it |
| ArcPolicy.ArcEvicts | simulator/libCacheSim/cache/eviction/ARC.c:519-595 | which object a miss in a full cache demotes or drops, by comparing the length of T1 with the new p, and what is left of all four lists |
| ArcPolicy.ArcWithoutEviction | simulator/libCacheSim/cache/eviction/ARC.c:219-330 | what a hit, and a miss while there is room, make of the lists |
| ArcPolicy.Raise | simulator/libCacheSim/cache/eviction/ARC.c:248-250 | the new p after a hit in B1, in numbers: it is the cache size, or (new p - p) times the ghosts of B1 is the larger of the ghosts of B1 and of B2 |
| ArcPolicy.Lower | simulator/libCacheSim/cache/eviction/ARC.c:257-259 | the mirror image for B2, down to 0 |
| ArcCache.Cache.EvictT1 | simulator/libCacheSim/cache/eviction/ARC.c:446-463 | T1's last object becomes B1's first; bytes move from one counter to the other and leave the occupied ones |
| ArcCache.Cache.EvictT2 | simulator/libCacheSim/cache/eviction/ARC.c:481-494 | the same from T2 to B2 |
| ArcCache.Cache.EvictT1NoGhost | simulator/libCacheSim/cache/eviction/ARC.c:465-479 | T1's last object is forgotten |
| ArcCache.Cache.EvictB1 | simulator/libCacheSim/cache/eviction/ARC.c:496-505 | B1's last ghost is forgotten |
| ArcCache.Cache.EvictB2 | simulator/libCacheSim/cache/eviction/ARC.c:507-516 | B2's last ghost is forgotten |
| ArcCache.Cache.Replace | simulator/libCacheSim/cache/eviction/ARC.c:519-536 | demotes the end of the list that the size, p and ghost conditions pick, which is not empty; frees bytes, keeps both directories; with unit sizes it is REPLACE of the paper |
| ArcCache.Cache.EvictMissOnAll | simulator/libCacheSim/cache/eviction/ARC.c:561-595 | for objects of any size: frees bytes, cuts only the ends of the two directories, and takes out the predicted victim; with unit sizes it is case IV of the paper |
| ArcCache.Cache.Evict | simulator/libCacheSim/cache/eviction/ARC.c:363-372 | frees bytes whichever branch runs, and the object that leaves the cache is the predicted one |
| ArcCache.Cache.ToEvict | simulator/libCacheSim/cache/eviction/ARC.c:342-352 | names the object that the next eviction takes out of the cache |
| ArcCache.Cache.MakeRoom | simulator/libCacheSim/cache/cache.c:261-265 | for positive sizes the eviction loop ends, and then the object fits; the lists are a function of those before, their bytes and p |
| ArcCache.RoomCut | simulator/libCacheSim/cache/cache.c:261-265 | that function takes nothing but the ends of the two directories, and nothing if the object fits |
| ArcCache.EvictionChoice | simulator/libCacheSim/cache/eviction/ARC.c:519-595 | which end one eviction takes, for objects of any size, by comparing the bytes of T1 with p |
| ArcCache.MissedTarget | simulator/libCacheSim/cache/eviction/ARC.c:248-259 | how p moves on a miss, in numbers, by the bytes of the two ghost lists |
| ArcCache.Cache.Find | simulator/libCacheSim/cache/eviction/ARC.c:219-294 | hit exactly if in T1 or T2; a hit moves the object to the front of T2 and keeps p, a ghost hit moves p by the larger of the ghosts' bytes over those of its own list, within 0 and the cache size, forgets the ghost and marks the request, anything else changes nothing |
| ArcCache.Cache.Insert | simulator/libCacheSim/cache/eviction/ARC.c:307-330 | the object goes to the front of T2 if this request hit a ghost, else of T1, with table and byte counts to match |
| ArcCache.TargetRange | simulator/libCacheSim/cache/eviction/ARC.c:248-259 | p stays between 0 and the cache size, and falls below it on a hit in B2 |
| ArcCache.Cache.Get | simulator/libCacheSim/cache/eviction/ARC.c:182-201 | objects of any positive size: byte counters equal the byte sums of the lists, occupied <= cache size, both directories in order of last access, sizes kept; lists and p are a function of those before, so it is fixed which objects a miss drops; with unit sizes the state moves exactly as ARC(c) of the paper |
| ArcCache.RunUnit | simulator/libCacheSim/cache/eviction/ARC.c:182-201 | a whole trace of unit-size objects: same state, same hits as ARC(c), same directories as DBL(2c) |
| Clock.Cache.Find | simulator/libCacheSim/cache/eviction/Clock.c:146-166 | for objects of any size: a real look-up raises the counter up to its limit, any other changes nothing |
| Clock.Cache.Insert | simulator/libCacheSim/cache/eviction/Clock.c:180-196 | the object is at the head with counter 0, and its bytes are occupied |
| Clock.Cache.ToEvict | simulator/libCacheSim/cache/eviction/Clock.c:208-226 | the object nearest the tail among those with the smallest counter; nothing changes |
| Clock.Cache.Evict | simulator/libCacheSim/cache/eviction/Clock.c:248-271 | removes the object nearest the tail among those with the smallest counter m, after exactly m rounds and one step for each object behind it; those objects are in front afterwards and have paid m+1, the others m |
| Clock.VictimUnique | simulator/libCacheSim/cache/eviction/Clock.c:208-226 | there is one such object, so the prediction names the object that is evicted |
| Clock.TurnStop | simulator/libCacheSim/cache/eviction/Clock.c:253-262 | the hand stops only at that object |
| Clock.Cache.Remove | simulator/libCacheSim/cache/eviction/Clock.c:288-318 | removes exactly the object |
| Clock.EvictedIs | simulator/libCacheSim/cache/eviction/Clock.c:248-271 | an eviction is a function of the queue and its counters |
| Clock.Cache.EvictOne | simulator/libCacheSim/cache/eviction/Clock.c:248-271 | the code computes that function; unit sizes and idle counters are kept |
| Clock.Cache.MakeRoom | simulator/libCacheSim/cache/cache.c:261-265 | for objects of any size: the loop ends with room for the object, after exactly as many evictions as are needed; queue, counters and sizes are a function of those before |
| Clock.Cache.Get | simulator/libCacheSim/cache/eviction/Clock.c:128 | objects of any size: hit exactly if queued; an object larger than the cache changes nothing; any other miss puts the object at the head after the least number of evictions that makes room, each of the predicted object, and none if it fits at once; queue, counters and sizes are a function of those before |
| Clock.Run | simulator/libCacheSim/cache/eviction/Clock.c:146-271 | for every trace of objects of any size, without removals, the cache ends in the state that the trace determines, and the promotions, the counters left and the hits on full counters add up to the hits of the trace |
| Clock.IdleVictim | simulator/libCacheSim/cache/eviction/Clock.c:248-271 | with counters that were never raised the queue is first in, first out |
| ArcV0.Push | simulator/libCacheSim/cache/cache.c:245-274 | a get of one of the queues, for an object that it lacks and has room for, only puts the object at its head |
| ArcV0.Cache.DemoteT1 | simulator/libCacheSim/cache/eviction/ARCv0.c:419-432 | the predicted victim of T1 is not in B1 and fits there without an inner eviction; T1 then evicts the same object |
| ArcV0.Cache.EvictThenCopy | simulator/libCacheSim/cache/eviction/ARCv0.c:434-439 | T2 evicts the predicted victim, which B2 takes in without an inner eviction |
| ArcV0.Cache.CopyThenEvict | simulator/libCacheSim/cache/eviction/ARC_FR.c:394-400 | the other order gives the same queues |
| ArcV0.Cache.Replace | simulator/libCacheSim/cache/eviction/ARCv0.c:407-441 | one slot becomes free on the side that sizes and p pick, and neither directory changes |
| ArcV0.Cache.EvictMissOnAll | simulator/libCacheSim/cache/eviction/ARCv0.c:468-511 | case IV: exactly one slot becomes free; a directory loses one object exactly when it is full |
| ArcV0.Cache.HitInT1 | simulator/libCacheSim/cache/eviction/ARCv0.c:257-263 | a hit in T1 moves the object to the front of T2, which evicts nothing |
| ArcV0.Cache.HitInB1 | simulator/libCacheSim/cache/eviction/ARCv0.c:238-243 | a hit in B1 raises p by the larger of the ghost queues over B1, up to the cache size, and forgets the ghost |
| ArcV0.Cache.HitInB2 | simulator/libCacheSim/cache/eviction/ARCv0.c:244-249 | a hit in B2 lowers p by the larger of the ghost queues over B2, down to 0, and forgets the ghost |
| ArcV0.Cache.Find | simulator/libCacheSim/cache/eviction/ARCv0.c:206-271 | hit exactly if in T1 or T2; p moves on a ghost hit as above and stays otherwise; a hit in T2 raises the counter up to its limit, a hit in T1 puts the object into T2 with counter 0; the queues stay disjoint and bounded |
| ArcV0.Cache.ToReplace | simulator/libCacheSim/cache/eviction/ARCv0.c:388-403 | names the victim of the queue that REPLACE takes from; it finds none exactly if it asks T2 while that is empty, since it does not look at the size of T2 |
| ArcV0.Cache.ToEvict | simulator/libCacheSim/cache/eviction/ARCv0.c:316-326 | the same for all branches: whenever it finds an object, it is the one that the eviction takes |
| ArcV0.Cache.NotPredictedIff | simulator/libCacheSim/cache/eviction/ARCv0.c:388-466 | with an object in the cache the prediction fails exactly if T2 is empty, T1 has not outgrown its target, and the branch for a T1 that fills the directory alone is not taken; the eviction would take an object of T1 then |
| ArcV0.Cache.ValidPredicts | simulator/libCacheSim/cache/eviction/ARCv0.c:445-466 | in every state between requests it finds an object if there is one |
| ArcV0.Cache.LookedPredicts | simulator/libCacheSim/cache/eviction/ARCv0.c:316-326 | and after every look-up that missed, ghost hits included |
| ArcV0.Cache.EvictPredicted | simulator/libCacheSim/cache/eviction/ARCv0.c:337-347 | in every such full state the eviction takes exactly the object predicted out of the cache |
| ArcV0.Cache.Get | simulator/libCacheSim/cache/eviction/ARCv0.c:181-189 | on every run of ARCv0 and ARC_FR the four queues, the counters of T2 and p are a function of those before; the queues stay disjoint and within the bounds of the paper, T1 with B1 moves as the first list of DBL(2c), and the second directory changes as a set as DBL(2c) has it |
| ArcV0.ServedTarget | simulator/libCacheSim/cache/eviction/ARCv0.c:238-249 | how that function moves p, in numbers |
| ArcV0.ServedEvicts | simulator/libCacheSim/cache/eviction/ARCv0.c:407-511 | which object it takes out on a miss in a full cache, by comparing the length of T1 with the new p: the last one of T1, or the one of T2 at which the hand stops; and what is left of all four queues |
| ArcV0.ServedWithoutEviction | simulator/libCacheSim/cache/eviction/ARCv0.c:206-300 | what it does on a hit, and on a miss while there is room |
| ArcV0.Run | simulator/libCacheSim/cache/eviction/ARCv0.c:181-189 | for every trace the queues, the counters of T2, p and the number of hits are those of the function, for both orders of copy and eviction |
| Age.NearIff | simulator/libCacheSim/cache/eviction/AGE.c:231-239 | the test against the expected reuse distance, without divisions |
| Age.Cache.Find | simulator/libCacheSim/cache/eviction/AGE.c:146-163 | a real look-up that hits raises the counter up to its limit and stores the time |
| Age.Cache.Insert | simulator/libCacheSim/cache/eviction/AGE.c:174-191 | the object is at the head with counter 0, never promoted, last accessed now, and counted as a miss |
| Age.RetainedIff | simulator/libCacheSim/cache/eviction/AGE.c:310-324 | whether the object at the tail is kept: it has a point, and its age times the misses is less than cache size times requests, scaled |
| Age.TailFate | simulator/libCacheSim/cache/eviction/AGE.c:231-254 | if it is kept and was not promoted for this request, it is promoted, and stays cached if some object may not be promoted; in every other case it is the victim |
| Age.Cache.Evict | simulator/libCacheSim/cache/eviction/AGE.c:231-254 | the fate of the object at the tail, in numbers, decided afresh for every eviction; the hand passes the longest run of objects from the tail that may be promoted, each once and for one point of its counter, and the next object goes; the promotions stay paid for |
| Age.Cache.Remove | simulator/libCacheSim/cache/eviction/AGE.c:271-301 | removes exactly the object |
| Age.Cache.MakeRoom | simulator/libCacheSim/cache/cache.c:261-265 | the loop evicts while the object does not fit, each time by the rule of the eviction, and ends with room for it |
| Age.Cache.Get | simulator/libCacheSim/cache/eviction/AGE.c:128 | objects of any size: hit exactly if queued; an object larger than the cache changes no object; any other miss puts the object at the head after the evictions it needs; the state is a function of the one before, the time and the misses |
| Age.Run | simulator/libCacheSim/cache/eviction/AGE.c:146-254 | for every trace of objects of any size the cache ends in the state that the trace determines, and its promotions and the counters left together do not exceed the hits of the trace |
| RobinHood.Table.KeyToIdx | simulator/libCacheSim/dataStructure/robin_hood.h:1348-1360 | the home position and first info byte of a key |
| RobinHoodSlots.InfoFacts | simulator/libCacheSim/dataStructure/robin_hood.h:1357-1366 | info bytes grow by the step with every slot, are at least one step at home and at least two away from home |
| RobinHoodSlots.Chain | simulator/libCacheSim/dataStructure/robin_hood.h:1423-1437 | a slot that is at least as far from home as a key would be is preceded by such slots back to the key's home |
| RobinHoodSlots.LastEmpty | simulator/libCacheSim/dataStructure/robin_hood.h:2138-2141 | with no more entries than allowed the last buffer slot is empty, so no search runs into the sentinel |
| RobinHood.Table.constructor | simulator/libCacheSim/dataStructure/robin_hood.h:1501-1515 | a new table has allocated nothing and is empty |
| RobinHood.Table.FindIdx | simulator/libCacheSim/dataStructure/robin_hood.h:1417-1442 | the unrolled look-up finds the slot of every live key and answers with the end for every other; the sentinel never matches, nor do the bytes of a table that has allocated nothing |
| RobinHood.Table.ShiftUp | simulator/libCacheSim/dataStructure/robin_hood.h:1376-1394 | infos and nodes move up by one slot, no byte overflows, and the table is told to stop if one could on the next move |
| RobinHood.Table.ShiftDown | simulator/libCacheSim/dataStructure/robin_hood.h:1396-1414 | exactly the erased entry goes, order and count are kept |
| RobinHood.Table.FindEmpty | simulator/libCacheSim/dataStructure/robin_hood.h:2364-2367 | the search for an empty slot ends before the sentinel |
| RobinHoodSlots.InsertKeeps | simulator/libCacheSim/dataStructure/robin_hood.h:2356-2374 | putting an entry in front of the first slot that is closer to home keeps the probing order, the info bytes and the uniqueness of keys |
| RobinHoodSlots.EraseKeeps | simulator/libCacheSim/dataStructure/robin_hood.h:1396-1414 | moving entries back until one is at home keeps them too |
| RobinHoodSlots.HalveKeeps | simulator/libCacheSim/dataStructure/robin_hood.h:2392-2407 | halving all info bytes is the table with one hash bit less, and leaves room in every byte |
| RobinHood.Table.TryIncreaseInfo | simulator/libCacheSim/dataStructure/robin_hood.h:2384-2410 | fails exactly when the step is 2 or less, else the contents are the same and the sentinel is back |
| RobinHoodSlots.FewHaveRoom | simulator/libCacheSim/dataStructure/robin_hood.h:2384-2391 | with one hash bit left no info byte of a table of at most 126 entries is full, whatever the hash function |
| RobinHoodSlots.FullIsCrowded | simulator/libCacheSim/dataStructure/robin_hood.h:1376-1394 | with one hash bit left a full info byte tells of a window of neighbouring buckets that is home to 126 keys more than it has buckets |
| RobinHoodSlots.SpreadIsNotCrowded | simulator/libCacheSim/dataStructure/robin_hood.h:1343-1360 | keys with homes of their own are not crowded so, and neither are 126 keys or fewer |
| RobinHoodSlots.OneHomeCrowd | simulator/libCacheSim/dataStructure/robin_hood.h:1343-1360 | if all keys have one home, there are never more than 127 entries |
| RobinHood.Table.InsertMove | simulator/libCacheSim/dataStructure/robin_hood.h:1450-1491 | adds exactly the new entry; reports overflow exactly if the table was told to stop and its step is 2 or less; in a table that is only added to, that takes 127 entries |
| RobinHood.Table.RehashPowerOfTwo | simulator/libCacheSim/dataStructure/robin_hood.h:2202-2235 | all entries are in the new table, with another multiplier or not, unless overflow is reported, which takes more than 127 entries and a crowd of homes in the new table |
| RobinHood.Table.IncreaseSize | simulator/libCacheSim/dataStructure/robin_hood.h:2413-2441 | allocates 8 buckets, gives up a hash bit, or moves to the next size and multiplier; contents and count are kept; it fails only if the homes in the table moved to are crowded, and then with more than 127 entries |
| RobinHood.Table.NextIs | simulator/libCacheSim/dataStructure/robin_hood.h:2426-2439 | the next table has as many buckets and another multiplier if twice the count is below the limit, else twice the buckets |
| RobinHood.Table.InsertKeyPrepareEmptySpot | simulator/libCacheSim/dataStructure/robin_hood.h:2331-2382 | finds the live key or keeps one slot for it; no overflow if the key is there, or the count is below the limit, or a hash bit can be given up, or there are at most 126 entries, or the homes in the next table are not crowded |
| RobinHood.Table.InsertOrAssign | simulator/libCacheSim/dataStructure/robin_hood.h:2274-2302 | the map has the key with the new value and is otherwise unchanged; overflow at any count implies that the homes of the keys in the next table are crowded; with a hash function that is the same for all keys a new key overflows as soon as there are 127 others, so 126 cannot be raised |
| RobinHood.Table.SpreadCanTake | simulator/libCacheSim/dataStructure/robin_hood.h:2331-2382 | keys that have homes of their own in the next table never make it overflow |
| RobinHood.Table.TryEmplace | simulator/libCacheSim/dataStructure/robin_hood.h:2245-2272 | the map gains the key unless it was there; overflow under the same conditions |
| RobinHood.Table.OneHomeLimit | simulator/libCacheSim/dataStructure/robin_hood.h:2331-2382 | with a hash function that is the same for all keys no table holds more than 127 of them |
| RobinHood.FillUp | simulator/libCacheSim/dataStructure/robin_hood.h:2331-2382 | 127 keys go into a new table, whatever the hash function |
| RobinHood.Table.Erase | simulator/libCacheSim/dataStructure/robin_hood.h:2036-2054 | the map loses exactly the key; 1 if it was there |
| RobinHood.Table.Find | simulator/libCacheSim/dataStructure/robin_hood.h:1879-1886 | exactly the live keys are found, with their values |
| RobinHood.Table.SizeIsCount | simulator/libCacheSim/dataStructure/robin_hood.h:2091-2094 | the element count is the number of entries |
| RobinHood.Table.Reserve | simulator/libCacheSim/dataStructure/robin_hood.h:2179-2197 | same contents, and always room for the entries asked for; overflow only with more than 127 entries and crowded homes at the size chosen |
| RobinHood.Table.Compact | simulator/libCacheSim/dataStructure/robin_hood.h:2072-2089 | same contents in no more buckets; overflow only with more than 127 entries and crowded homes at the size chosen |
| RobinHood.Table.LeastSize | simulator/libCacheSim/dataStructure/robin_hood.h:2181-2185 | the least size in the doubling sequence that has room |
| RobinHood.Table.NextHashMultiplier | simulator/libCacheSim/dataStructure/robin_hood.h:2443-2447 | an odd multiplier stays odd |
| CacheList.List.Remove | simulator/libCacheSim/cache/cacheObj.c:57-80 | exactly the object leaves the list, the links of the others in order both ways, its own null |
| CacheList.List.Prepend | simulator/libCacheSim/cache/cacheObj.c:241-260 | the object is at the head, the rest in order |
| CacheList.List.MoveToHead | simulator/libCacheSim/cache/cacheObj.c:134-177 | the object is at the head, the others keep their order, for one object, head, tail and inner objects |
| CacheList.List.MoveToTail | simulator/libCacheSim/cache/cacheObj.c:88-126 | the same at the tail |
| ConsistentHash.GetVnodeIdx | simulator/example/cacheCluster/consistentHash.c:92-128 | on a sorted ring the binary search gives the position of the first point that is not below the hash, and 0 if there is none, duplicates and hash 0 included |
| ConsistentHash.Walk | simulator/example/cacheCluster/consistentHash.c:181-211 | the servers collected are the first n in the order in which the ring meets them, without the marked ones; it aborts exactly if there are fewer |
| ConsistentHash.FirstSeenSkips | simulator/example/cacheCluster/consistentHash.c:184-194 | skipping unavailable servers on the way is the plain order with those servers deleted |
| ConsistentHash.FirstSeenMembers | simulator/example/cacheCluster/consistentHash.c:148-172 | that order lists every server that is met and not skipped exactly once |
| ConsistentHash.FirstSeenOrder | simulator/example/cacheCluster/consistentHash.c:148-172 | and each of them is the first one met that is neither skipped nor listed before |
| ConsistentHash.GetAvailableServers | simulator/example/cacheCluster/consistentHash.c:174-211 | from the first point not below the hash on, the first n servers of the ring's order with the unavailable ones deleted, the first of them being the first available one met; it aborts exactly if the ring knows fewer than n available ones |
| ConsistentHash.GetServers | simulator/example/cacheCluster/consistentHash.c:148-172 | from the first point not below the hash on, whose server comes first, the first n distinct servers; it aborts exactly if the ring knows fewer |
| Md5.State.Append | simulator/example/cacheCluster/md5.c:322-358 | after any sequence of calls the registers hold the fold of the block function over the full blocks of all bytes so far, the buffer holds the rest, and the two words hold the length in bits modulo 2^64 |
| Md5.State.AddLength | simulator/example/cacheCluster/md5.c:333-337 | the two-word length with its carry |
| Md5.State.Finish | simulator/example/cacheCluster/md5.c:360-381 | folds the block function over the message padded as in sections 3.1 and 3.2 of RFC 1321; the digest is the registers, low byte first |
| Md5.ChunksDoNotMatter | simulator/example/cacheCluster/md5.c:322-358 | two states that were given the same bytes in different pieces agree in registers, count and buffered bytes |
| Md5.LengthBytes | simulator/example/cacheCluster/md5.c:372-374 | the eight length bytes are those of the 64-bit length, low byte first |
| Md5.Padded | simulator/example/cacheCluster/md5.c:360-381 | the message, the byte 0x80, fewer than 64 zeros, and the length in bits, to a multiple of 64 bytes |

## Left out

- Integer widths: times, counters, sizes and keys are unbounded, except in MD5, in the info bytes of the hash table, in the arrays of stack distances and where a 64-bit bound is part of the claim. In particular the splay tree compares keys, where the code subtracts them.
- Floating point: priorities, p and reuse ratios are real numbers, so the rounding of next access times above 2^53 is not modelled.
- The cache's own hash table is a map from objects to entries, and the lists of ARC, Clock and AGE are sequences; `CacheList.dfy` shows separately that the linked-list operations act on sequences in this way.
- RobinHood.Table.constructor: a table that has allocated nothing points into itself; its info bytes are modelled as an array of eight zeros.
- RobinHood.Table.InsertOrAssign: nothing is promised after an overflow is reported, since the code throws in the middle of moving entries. Sizes near the limit of size_t, iterators, copying and allocation are not modelled.
- ArcCache.Cache.Find: only a look-up by a real request; with update_cache false the code reads through a null pointer on a miss.
- ARC_remove on a ghost leaves the object in the hash table, so the invariants do not survive it; removal from ARC is not modelled.
- Belady.Cache.Get: no admission policy; nothing is promised after an abort. The rule is proved best for objects of size one only, as the source claims it.
- Belady.ToInt64: out of range the conversion has no defined value in C; the model takes that of x86-64. It only decides the type of an object on a hit.
- Clock.Cache.Evict: decrease_rate 1; with a larger rate the prediction can differ from the eviction.
- Age.Cache.Evict: ages are real numbers, where the code truncates them to an int; the prediction of AGE, which ignores whether objects are retained, is not modelled.
- ArcV0.Cache.Get: objects of size one, no removal. The LRU lists of ARC_FR's ghosts are only asked to insert, remove and evict, and are modelled as Clock queues with idle counters; LRU.c is not part of this model.
- StackDistance.GetStackDist: the distances in time (get_access_dist).
- Oracle.ConvertToOracleGeneral: files, memory mapping, sampling, text output and the LCS header; readers that skip requests of size zero.
- Building the consistent-hash ring (MD5 of server names, qsort), and rings with weights, which may be filled in part; the hash of a key is a parameter.
- The block function of MD5 and its constants: they are a parameter.
- The variants ARC_Batch, ARC_Delay, ARC_Prob and ARC_LRU, the other eviction policies, admission, prefetching, readers, threads, time-to-live, printing and command lines.
- delay_prepend_obj_to_head, append_obj_to_tail and pqueue_print.
