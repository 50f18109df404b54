# A verified model of go-kademlia

This project models the core of the go-kademlia library in Dafny and proves what its parts promise: the
XOR metric, the binary trie, the two routing tables, the query and pool state machines, the simple query
with its linked peer list, the probe and include machines, and the event scheduler with the simulated
endpoint that runs on it. `dafny verify dfyconfig.toml` checks everything.

## How it is laid out

Keys are bit strings of any common length, most significant bit first (`Keys`), and the concrete 8, 32
and 256 bit keys are shown to behave as such strings (`ConcreteKeys`). `Nearest` says what "the n nearest
keys" means and that there is exactly one answer. Everything that searches or orders nodes is proved
against that definition.

* **Trie.** `Tries`, `TrieShape` and `TrieSearch` treat a trie as a value: what it holds, its canonical
  shape, its pruned search. `HeapTries` has the nodes with their pointers, changed in place or copied
  along a path, and ties every operation to the value it stands for.
* **Routing tables.** `TrieTable` keeps a persistent trie behind a key filter; `SimpleTable` keeps a list
  of buckets and splits the last one. Both are proved against a map, and `TablesAgree` against each other.
* **Queries.** `QueryModel` is one query as a function from state and event to state and output;
  `QueryPass` gives the step in closed form, in terms of the state before it and without the pass;
  `QueryProofs`, `QueryRuns` and `QueryTimeouts` prove what each step and every run keep, `QueryProgress`
  and `QueryStalls` when a query comes to an end. `Queries` is the object that updates its fields, proved to
  be that function. `PoolModel`, `PoolProofs` and `Pools` do the same for the pool of queries: `PoolSteps`
  gives its step in closed form, `PoolBound` proves which queries it starts, `PoolWaiting` how many wait at
  once, `PoolTimeouts` that late polls empty it, and `PoolLimits` and `PoolGaps` hold runs that exceed its limit.
* **Simple query.** `PeerLists` merges sorted linked lists destructively; `SimpleQueries` drives it from
  an asynchronous request loop.
* **Checks.** `PendingHeaps` is the array heap with back-indices, `Probes` the probe on top of it,
  `Includes` the include machine with its bounded queue.
* **Events.** `Planners`, `Schedulers` and `Endpoints`: a sorted linked list of timed actions, the queue
  it feeds, and the race of replies and timeouts for one response handler.

Time is a number, an unset time is `None`, and one step reads the clock once. Configuration values meet
what the `Validate` functions demand. A node is named by its key unless its string form matters.

## What is assumed of callers

* Keys handed to one table, query, pool or machine have one length, as they do when they share a key type.
* Two 256-bit keys without bytes are not compared with each other, which panics.
* Responses and failures are arbitrary, and may come late, twice or never, unless stated otherwise here.
* Pool: ids are not empty. The bound on outstanding requests is for callers that report only on messages
  they were asked to send (`PoolBound.Allowed`); everything else about the pool is for any events.
* Simple query: a peer's name stands for one key, each response handler is called at most once, and the
  endpoint is not a networked one. The table's `AddNode` and `RemoveKey` are only told of.
* Probe: nothing; an event that makes the code panic ends the run. Others may change the routing table at
  any time between two steps.
* Endpoint: the clock, the other endpoints and the network may do anything at any time. Endpoints and other
  components may share a scheduler; no two endpoints have the same name.
* Include: only Include adds keys to the table; keys may leave it at any time.

## Where the code differs from its description

* `TrieRT.AddNode` does not report "was added", as `kad/kad.go:43-45` asks: a key already present gives
  true, unless it is the only key. `TrieTable.TrieRT.AddNode` states the exact boolean and when it is the
  one asked for; `TrieTable.AddedAgain` is a run in which it is not.
* `Closest` honours its count only from 1 up. `TrieSearch.ClosestRightIff` says for which other counts the
  answer is still right, `TrieSearch.NoneWantedOneFound` has one for which it is not.
* `SimpleRT.NearestNodes` is described as returning peers of one bucket. It answers for the whole table,
  and leaves the own key out, except when the target's bucket has exactly the number of peers asked for.
  `TablesAgree.NearestNodesAgreeIff` says exactly when that makes the two tables differ, and
  `TablesAgree.SelfStoredDisagree` has two that do.
* A query can stop making progress. If its slots are all taken and the nearest unsettled node is one to
  contact, the pass stops there, so the requests that take up the slots are never given up, however late it
  is; a late answer leads to that. `QueryStalls.StepStallsIff` gives the exact condition,
  `QueryStalls.PolledQueryEnds` says that a query ends otherwise, and `QueryStalls.QueryGetsStuck` is a run
  that gets there. A pool times such a query out: late polls empty any pool
  (`PoolTimeouts.PolledPoolEmpties`).
* A probe response panics whenever its node's check is ongoing and another node is pending, because the
  ongoing node is removed from the heap at position -1 (`routing/probe.go:361`). `Probes.PanicFreeIff`
  gives the exact condition, `Probes.Probe.Advance` that nothing else panics, and `Probes.ResponsePanics` a
  short run that does.
* The pool does not keep to its limit on how many queries wait for responses at once (`query/pool.go:31`).
  `PoolWaiting.StepExceedsIff` says for any limit and event exactly when a step
  exceeds it, `PoolWaiting.RunWithinIff` the same of runs. For a limit of at least 2, as long as only the first
  queries of the list have started, the step must find all of them waiting and its event must name a later query
  that still has a node to contact (`PoolWaiting.BoundedExceedsIff`). Such an event is also exactly what lets a
  query past the limit in the list send (`PoolBound.StepBoundedIff`, `PoolBound.RunBoundedIff`); once one has,
  an ordinary poll can exceed the limit (`PoolGaps.PollExceeds`).
* A caller that reports only on messages it was asked to send never passes such an event; for such callers the
  limit holds exactly if it is not 1 (`PoolLimits.LimitHoldsIff`). `PoolLimits.UnstartedQueryExceeds` and
  `PoolLimits.LimitOneExceeded` are runs from an empty pool that exceed it.
* A simple query can hang, neither over nor with a request left that would call it back: exactly if its last
  scheduled request runs with none out and nobody queued, which `query/simplequery/query.go:173-175` says should
  not happen. `SimpleQueries.SimpleQuery.NewRequest` states this, no other step makes a query hang, and
  `SimpleQueries.TwoRefusals` is one whose two requests are refused at once.
* `Key256.CommonPrefixLength` and `Key256.Compare` treat a key without bytes unlike the zero key that `Bit`
  and `Xor` take it for. `ConcreteKeys.CommonPrefixLength` and `ConcreteKeys.CompareKeys` say exactly when
  they are right, and `ConcreteKeys.NilMisread` has keys for which they are not.
* Among actions due at the same time the planner is not first in, first out: a new one goes before the
  others, but never before the head of the list. `Planners.FirstInFirstOutIff` says exactly when it gets in
  line, and `Planners.ThreeAtOnce` has three actions that come out in another order.

## Model

| member | source | states |
|---|---|---|
| Keys.CompareAtFirstDifference | key/key.go:160-167 | the numeric comparison of two keys is decided by the first bit in which they differ |
| Keys.NearerIsXorOrder | key/key.go:141-167 | comparing XOR distances to a target numerically is the same as asking which key agrees with the target at the first differing bit |
| Keys.LongerPrefixIsNearer | kad/kad.go:20-39 | a key sharing a longer prefix with the target is nearer to it |
| Keys.NearerTotal | kad/kad.go:20-39 | of two different keys exactly one is nearer; distances never tie |
| Keys.NearerTransitive | kad/kad.go:20-39 | nearer is transitive, so the metric orders all keys |
| Keys.CplTriangle | key/key.go:146-157 | common prefix lengths of three keys form an ultrametric |
| ConcreteKeys.WordBitIs | key/key.go:133-138 | bit i of a word key, read by shift and mask, is bit i of its bit string |
| ConcreteKeys.XorWordIs | key/key.go:141-143 | the machine exclusive or of two words is the bitwise one of their bit strings |
| ConcreteKeys.WordCommonPrefixLength | key/key.go:146-157 | shifting both words right until they agree finds the length of the common prefix |
| ConcreteKeys.WordCompare | key/key.go:160-167 | comparing words as numbers compares their bit strings |
| ConcreteKeys.BitIs | key/key.go:42-54 | the masked bit of the right byte is the bit of the 256-bit string, zero for a nil key |
| ConcreteKeys.XorKeys | key/key.go:62-74 | byte-wise exclusive or is the bitwise one, a nil key counting as zero |
| ConcreteKeys.WordCpl | key/key.go:77-89 | the first bit in which two bytes differ is the highest one of their exclusive or, found by the logarithm |
| ConcreteKeys.CommonPrefixLength | key/key.go:77-89 | the byte loop returns the common prefix length if and only if both keys have bytes or they stand for the same string; a nil key gives 256 |
| ConcreteKeys.CompareBytes | key/key.go:92-102 | lexicographic comparison of byte strings is numeric comparison of the keys |
| ConcreteKeys.CompareKeys | key/key.go:92-102 | the result is the numeric comparison if and only if the second key has bytes or the keys are equal; otherwise the sides are exchanged |
| ConcreteKeys.NilMisread | key/key.go:77-102 | a nil key and a greater key that differs from zero in its first byte: they are said to share 256 bits, and the nil key to be the greater one |
| Nearest.NearestUnique | kad/kad.go:65-70 | at most one list has the n nearest keys in order |
| Nearest.RankingExists | kad/kad.go:65-70 | every finite set of keys can be listed nearest first |
| Nearest.RankingUnique | kad/kad.go:65-70 | it can be so listed in only one way |
| Tries.AddInserts | key/trie/trie.go:140-173 | adding keeps the trie well formed and inserts the key if it is absent, leaving present data alone |
| Tries.TrieForTwoHoldsBoth | key/trie/trie.go:160-173 | the trie built for two keys is well formed and holds exactly these two |
| Tries.WellFormedShrink | key/trie/trie.go:86-100 | shrinking a node over well-formed branches gives a well-formed trie with the same contents |
| Tries.RemoveDeletes | key/trie/trie.go:210-233 | removing keeps the trie well formed and deletes exactly the key |
| Tries.FindLooksUp | key/trie/trie.go:253-286 | finding a key is looking it up in the contents |
| TrieShape.SizeCounts | key/trie/trie.go:38-53 | the size is the number of keys held |
| TrieShape.EqualIffSameKeys | key/trie/trie.go:235-249 | Equal holds of two well-formed tries exactly if they hold the same keys |
| TrieShape.Canonical | key/trie/trie.go:9-14 | a well-formed trie is determined by its contents |
| TrieShape.StepRefines | key/trie/trie.go:104-233 | one add or remove acts on the contents as on a map |
| TrieShape.OrderIsIrrelevant | key/trie/trie.go:9-14 | any two sequences of adds and removes that reach the same map reach the same trie |
| TrieShape.LocateDepth | key/trie/trie.go:265-286 | the depth Locate reports for any key is the least number of leading bits that at most one stored key shares with it |
| TrieShape.StoredKeyDepth | key/trie/trie.go:265-286 | a stored key lies at depth 0 if alone, and else one below its longest common prefix with another stored key |
| TrieSearch.RankedUnion | key/trie/trie.go:311-326 | if all of one side is nearer than all of the other, the ranking of both is one after the other |
| TrieSearch.Sides | key/trie/trie.go:311-326 | the side of a node towards the target is nearer than the other side, key by key |
| TrieSearch.CombineSides | key/trie/trie.go:317-326 | the search result on the near side, completed from the far side only if short, is the first n of the whole ranking |
| TrieSearch.ClosestHolds | key/trie/trie.go:301-327 | every entry the search returns is stored, with its data, whatever the count |
| TrieSearch.ClosestIsNearest | key/trie/trie.go:288-327 | for n of at least 1 the pruned search returns exactly the min(n, size) nearest keys in strictly increasing distance |
| TrieSearch.ClosestZero | key/trie/trie.go:301-327 | a count of 0 returns nothing exactly if the leaf on the target path is empty |
| TrieSearch.ClosestNegative | key/trie/trie.go:301-327 | a negative count is no limit: the entries returned are the whole ranking of the stored keys |
| TrieSearch.ClosestRightIff | key/trie/trie.go:288-327 | for every count, the answer is the n nearest keys if and only if n >= 1, or n == 0 and the target path ends empty, or the trie is empty |
| TrieSearch.NoneWantedOneFound | key/trie/trie.go:302-308 | a trie of one key, asked for no keys, returns that key |
| TrieSearch.CountCplCounts | routing/triert/table.go:134-157 | counting without visiting every key gives the number of stored keys with exactly that prefix length |
| HeapTries.AddInPlace | key/trie/trie.go:104-132 | the in-place add turns the nodes into those of the value it should be, stays a tree, and reports whether the key was absent |
| HeapTries.SplitLeaf | key/trie/trie.go:114-127 | a leaf becomes a node with its key one level down |
| HeapTries.ShrinkInPlace | key/trie/trie.go:86-100 | the in-place collapse is the shrink of the value and takes no new node |
| HeapTries.RemoveInPlace | key/trie/trie.go:177-201 | the in-place remove is the remove of the value and reports whether the key was present |
| HeapTries.TrieForTwoNodes | key/trie/trie.go:160-173 | fresh nodes for two keys stand for the trie of the two |
| HeapTries.AddPersistent | key/trie/trie.go:136-158 | the copying add changes no old node, stands for the same value as the in-place one, and returns the same node exactly for a leaf that holds the key |
| HeapTries.RemovePersistent | key/trie/trie.go:206-233 | the copying remove changes no old node and returns the same node exactly if the key was absent |
| HeapTries.FindFrom | key/trie/trie.go:273-286 | walking the nodes is finding in the value |
| HeapTries.EqualFrom | key/trie/trie.go:235-249 | comparing nodes is comparing the values |
| HeapTries.ClosestFrom | key/trie/trie.go:301-327 | searching the nodes is searching the value |
| HeapTries.CountCplFrom | routing/triert/table.go:134-157 | counting over the nodes is counting in the value |
| HeapTries.Versions | key/trie/trie.go:134-233 | after any sequence of copying updates, every version made on the way still reads as it did when it was made |
| Tables.NearestNodesMeaning | routing/simplert/table.go:181-221 | the first n of the ranking is the one list that IsNearest admits |
| Tables.AddKeepsCap | routing/triert/filter.go:10-13 | a key admitted while its prefix class has room leaves every class within the cap |
| Tables.RunKeepsCap | routing/triert/filter.go:10-13 | over any sequence of adds and removes no prefix class exceeds the cap |
| TrieTable.TrieRT.constructor | routing/triert/table.go:28-48 | a new table is empty |
| TrieTable.TrieRT.CplSize | routing/triert/table.go:125-132 | the size of a prefix class is the number of stored keys in it |
| TrieTable.TrieRT.AddNode | routing/triert/table.go:56-71 | an admitted key is inserted if absent; the result is true exactly if the key is admitted and is not the only key stored, so it says whether the key was new unless the key is admitted, present and not alone; the cap per class is kept |
| TrieTable.AddedAgain | routing/triert/table.go:56-71 | in a table of two keys, adding the first again changes nothing and is reported as a change |
| TrieTable.TrieRT.RemoveKey | routing/triert/table.go:75-85 | the key is deleted and the result says whether it was stored |
| TrieTable.TrieRT.GetNode | routing/triert/table.go:103-111 | the stored node, or none |
| TrieTable.TrieRT.Size | routing/triert/table.go:114-117 | the number of stored keys |
| TrieTable.TrieRT.NearestNodes | routing/triert/table.go:88-101 | for n of at least 1 the n stored nodes nearest to the target, nearest first |
| SimpleTable.SimpleRT.constructor | routing/simplert/table.go:28-37 | a new table is empty |
| SimpleTable.SimpleRT.BucketIdForKey | routing/simplert/table.go:58-65 | a key belongs in the bucket of its prefix length, or in the last one |
| SimpleTable.SimpleRT.IndexInBucket | routing/simplert/table.go:142-150 | a key is stored exactly if its bucket holds it |
| SimpleTable.SimpleRT.AddNode | routing/simplert/table.go:77-140 | the node is added if and only if its key is absent and its prefix class has fewer than bucketSize keys; a refusal leaves the contents alone; the last bucket is split exactly if it is full and the new key belongs there, and as often as it is full |
| SimpleTable.SimpleRT.SplitLastBucket | routing/simplert/table.go:107-135 | splitting keeps the contents, ends, and finds room exactly if the prefix class has room; it ends at the first last bucket that is not full, or that is full of the class of the new key |
| SimpleTable.SimpleRT.SplitBucket | routing/simplert/table.go:109-130 | a split divides the last bucket into the peers at exactly its index and the rest |
| SimpleTable.LastSplit | routing/simplert/table.go:107-133 | a full bucket that needs splitting lies within the key length, which bounds the rounds |
| SimpleTable.BucketIsClass | routing/simplert/table.go:82-100 | below the last bucket a bucket holds exactly the keys of its prefix class; the last one holds exactly the keys of every class from its index up |
| SimpleTable.SimpleRT.RemoveKey | routing/simplert/table.go:152-166 | swap removal deletes exactly the key and reports whether it was stored |
| SimpleTable.SimpleRT.GetNode | routing/simplert/table.go:168-179 | the stored node, or none |
| SimpleTable.OwnBucketIsNearest | routing/simplert/table.go:187-193 | a bucket with exactly n peers that the target falls into holds the n nearest of the whole table |
| SimpleTable.SortRanks | routing/simplert/table.go:205-214 | stable sorting by XOR distance lists distinct keys as the ranking does |
| SimpleTable.SimpleRT.NearestNodes | routing/simplert/table.go:183-221 | the n nearest nodes of the table, self left out unless the bucket shortcut is taken |
| TablesAgree.NearestNodesAgree | routing/simplert/table.go:183-221 | tables with the same contents and without their own key give the same nearest nodes in the same order for every n >= 1 |
| TablesAgree.WithoutSelfAgreesIff | routing/simplert/table.go:195-203 | leaving self out changes the answer exactly if self is among the n nearest |
| TablesAgree.NearestNodesAgreeIff | routing/simplert/table.go:183-221 | for every n >= 1, tables with the same contents give the same answer if and only if the bucket shortcut is taken or self is not among the n nearest |
| TablesAgree.SelfStoredDisagree | routing/simplert/table.go:195-203 | with the own key stored the two tables can differ |
| QueryProofs.NewQueryInv | query/query.go:157-183 | a new query meets the invariant, knows the given nodes except itself, all of them to be contacted, and has done nothing yet |
| QueryProofs.OnResponseInv | query/query.go:324-364 | a response keeps the invariant: counters say what they are named for, nobody is messaged twice |
| QueryProofs.ResponseLearns | query/query.go:324-364 | a response from a waiting or unresponsive node makes it succeeded and its closer nodes known, and the request of a waiting one is no longer out; any other response changes nothing |
| QueryProofs.OnFailureInv | query/query.go:367-394 | a failure keeps the invariant |
| QueryProofs.TimeOutInv | query/query.go:230-235 | timing a node out keeps the invariant |
| QueryProofs.LaunchInv | query/query.go:260-276 | launching a request keeps the invariant |
| QueryProofs.OnEventForward | query/query.go:324-394 | an event forgets no node and moves no node state back |
| QueryProofs.ScanRight | query/query.go:212-297 | the pass over the nodes keeps the invariant, moves states only forward, and each way of ending it means what it says |
| QueryRuns.AdvancePromises | query/query.go:185-314 | one step: in-flight equals the waiting nodes and stays within concurrency; a message goes to the closest uncontacted node; at capacity means equality; finishing uncancelled means enough answers in order of distance or every node dealt with |
| QueryTimeouts.StepTimesOut | query/query.go:228-283 | a request times out only after its deadline; a step that ends waiting with capacity leaves none overdue; a new request gets the full time |
| QueryPass.EventTold | query/query.go:324-394 | what each event does: a node that was asked and answers has succeeded, one that fails has failed unless settled, the nodes named become known, the counters follow, and all else stays |
| QueryPass.ScanIs | query/query.go:211-299 | the pass over the nodes ends at the first position that ends it, and by then has given up exactly the overdue nodes before it and asked at most the node there |
| QueryPass.StepIs | query/query.go:185-314 | the whole step in closed form: the state and the output are those of the event and of the first position that ends the pass; a query that is over stays so, and a cancelled one is over |
| QueryPass.FinishedIff | query/query.go:245-314 | a step ends the query if and only if, nearest first, with none left to contact and none waited for in time, it gets to numResults successes or to the last node |
| QueryRuns.RunOnlyAppends | query/query.go:185-314 | later steps only append to what was messaged |
| QueryRuns.KeyspaceBound | query/query.go:185-314 | no more than 2^n keys have n bits |
| QueryRuns.MessagedOnce | query/query.go:157-314 | over any run no key is messaged twice, the own key never, and messages are fewer than keys |
| QueryProgress.UnstartedQuery | query/query.go:185-314 | a query that has messaged nobody sends a message if a node is left to contact after the event, and is over otherwise |
| QueryProgress.ChangesBounded | query/query.go:185-314 | however long a run, no more than four times as many of its steps as there are other keys change anything about the nodes |
| QueryProgress.SomebodyIsAsked | query/query.go:228-314 | after any step a query that is not over has a request out |
| QueryStalls.StepStallsIff | query/query.go:228-293 | a step taken after every deadline changes nothing and leaves the query unfinished if and only if all slots are taken and the nearest unsettled node is one to contact, at a place the pass gets to |
| QueryStalls.PolledQueryEnds | query/query.go:185-314 | a query stepped after its deadlines, more often than four times the number of keys, and never found so blocked, is over |
| QueryStalls.BlockedForever | query/query.go:274-281 | a blocked query is not changed by any number of polls at any times |
| QueryStalls.QueryGetsStuck | query/query.go:228-293 | a run from a new query that ends blocked: a late answer names a nearer node while the only slot is taken by a request that is never answered |
| Queries.EachIsRanked | query/iter.go:52-63 | iterating over the closest entries of the trie visits every node nearest first |
| Queries.Query.constructor | query/query.go:157-183 | the object starts as the model does |
| Queries.Query.Add | query/iter.go:43-45 | a node is inserted if absent |
| Queries.Query.Find | query/iter.go:47-50 | a node is found exactly if it is known |
| Queries.Query.HandleResponse | query/query.go:324-364 | a response from a waiting or unresponsive node makes it succeeded, counts one success and makes its closer nodes known, and a waiting one is no longer in flight; any other response changes nothing |
| Queries.Query.HandleFailure | query/query.go:367-394 | a failure makes a node that is not settled failed, and counts one failure and one less in flight exactly if it was waiting; nothing else changes, and a failure of an unknown or settled node changes nothing |
| Queries.Query.Pass | query/query.go:212-293 | the loop over the nodes is the pass of the model |
| Queries.Query.Advance | query/query.go:185-314 | a step of the object is a step of the model, so everything proved of the model holds of it |
| PoolModel.AdvanceQueryKeeps | query/pool.go:192-232 | advancing one query keeps the list and every query in it valid |
| PoolModel.BlockedTimesOut | query/pool.go:192-232 | advancing a query that is blocked keeps it until more than the timeout of the pool has passed since its first message, and then takes it out |
| PoolTimeouts.LatePoll | query/pool.go:112-232 | a poll after the timeouts of all queries takes the first query out of the pool or moves it on, so that less is left to do |
| PoolTimeouts.PolledPoolEmpties | query/pool.go:112-232 | from any state, blocked queries included, enough such polls leave an empty pool: one for each query and four for each query and other key |
| PoolModel.AfterAddKeeps | query/pool.go:250-270 | adding a query keeps ids unique |
| PoolProofs.PoolStepExplained | query/pool.go:112-190 | one step: a message goes only to a query below the limit, or to the one the event was for, or with limit 1 to the second; idle means exactly that the pool is empty |
| PoolSteps.QueryActs | query/pool.go:192-232 | what becomes of one query, whatever the event: a message is passed on; a query that is over leaves the pool; one that waits leaves it exactly if more than the timeout has passed since its first message, and otherwise stays in its new state without output |
| PoolSteps.PassIs | query/pool.go:146-190 | the pass goes over the other queries in order and ends at the first that does not only wait or that makes as many as the limit allows; exactly those before it have been polled |
| PoolSteps.JoinedAfter | query/pool.go:250-270 | an added query joins the end of the list with its target and its nodes, all to be contacted; a name in use changes nothing |
| PoolSteps.StepIs | query/pool.go:112-232 | the whole step in closed form: the query named by the event takes exactly that event, and if it then only waits, or there is none, the pass goes over the others |
| PoolBound.StepBoundedIff | query/pool.go:112-190 | with a limit of at least 2: if only queries within the limit, by their place in the list, have sent anything, one event keeps it so if and only if it is not a response or failure for a later query that still has a node to contact |
| PoolBound.AllowedStaysWithin | query/pool.go:135-156 | reports on messages that were sent are never such events |
| PoolBound.RunBoundedIff | query/pool.go:112-190 | over a run with a limit of at least 2 no query past the limit, by its place in the list, ever sends anything if and only if none of the events is such a one |
| PoolBound.AllowedRunBounded | query/pool.go:112-190 | a run of reports on messages that were sent, of additions, stops and polls never lets a query past a limit of at least 2 send |
| PoolBound.OutstandingBounded | query/pool.go:112-190 | within the limit at most limit times the per-query concurrency requests are outstanding |
| PoolBound.PoolNeverExceedsItsLimits | query/pool.go:112-270 | from an empty pool both bounds hold after any such run |
| PoolWaiting.StepStartsIff | query/pool.go:112-190 | for any limit and event, exactly which query the step lets send its first message: the one the event is for, or the first one that can start, if all before it wait and leave room |
| PoolWaiting.StepExceedsIff | query/pool.go:112-190 | for any limit, event and state within the limit: after the step more queries wait for responses than the limit allows if and only if that many waited before and the step starts another one |
| PoolWaiting.RunWithinIff | query/pool.go:112-190 | a run has no more queries waiting than the limit in any of its states if and only if none of its steps is such a one |
| PoolWaiting.BoundedKeepsWaiting | query/pool.go:112-190 | if only queries within the limit, by their place in the list, have sent anything, no more than the limit wait |
| PoolWaiting.BoundedExceedsIff | query/pool.go:112-190 | from such a state, with a limit of at least 2, a step exceeds the limit if and only if all places within it are taken and the event is a response or failure for a later query that still has a node to contact |
| PoolGaps.PollExceeds | query/pool.go:135-183 | a run from an empty pool with limit 2 that ends within the limit, after which a poll lets a third query wait |
| PoolLimits.LimitOneExceeded | query/pool.go:146-183 | with limit 1 a run from an empty pool whose reports are all on messages that were sent ends with two queries waiting for answers |
| PoolLimits.UnstartedQueryExceeds | query/pool.go:135-156 | for every limit a run from an empty pool that ends with one query too many waiting for answers: the last one is named by a failure before it has sent anything |
| PoolLimits.LimitHoldsIff | query/pool.go:112-190 | all runs whose reports are on messages that were sent keep the limit if and only if it is at least 2 |
| Pools.QueryPool.RemoveQuery | query/pool.go:234-246 | list and index lose the query of that name, and nothing else; an unknown name changes nothing |
| Pools.QueryPool.AddQuery | query/pool.go:250-270 | a new id joins list and index; a known one changes nothing |
| Pools.QueryPool.AdvanceQuery | query/pool.go:192-232 | a message is passed on; a query that is over is removed, and so is one that waits when more than the timeout has passed since its first message; any other that waits stays in its new state and counts as in flight |
| Pools.QueryPool.Advance | query/pool.go:112-190 | a step of the object is a step of the model, with all that PoolSteps.StepIs says of it, and list and index stay in agreement |
| Planners.SimplePlanner.ScheduleAction | event/simpleplanner.go:42-61 | the action is linked in where InsertPosition says, and the list stays sorted |
| Planners.InsertKeepsOrder | event/simpleplanner.go:42-61 | that position keeps the list sorted |
| Planners.FirstInFirstOutIff | event/simpleplanner.go:52-61 | a new action is placed after all those due at or before its time if and only if none of them but the head of the list is due at exactly that time |
| Planners.ThreeAtOnce | event/simpleplanner.go:42-61 | three actions planned for one time come out first, third, second |
| Planners.SimplePlanner.RemoveAction | event/simpleplanner.go:63-89 | exactly the given action is unlinked; the result says whether it was planned |
| Planners.SimplePlanner.PopOverdueActions | event/simpleplanner.go:91-104 | the list is split exactly at now, soonest first |
| Planners.SimplePlanner.NextActionTime | event/simpleplanner.go:106-114 | the least due time, if there is any |
| Schedulers.SimpleScheduler.EnqueueAction | event/simplescheduler.go:39-41 | the action goes to the end of the queue and is accounted for |
| Schedulers.SimpleScheduler.ScheduleAction | event/simplescheduler.go:44-52 | a time that has passed queues the action, any other plans it; either way it is accounted for once |
| Schedulers.SimpleScheduler.RemovePlannedAction | event/simplescheduler.go:56-58 | a planned action is taken out, one in the queue is not |
| Schedulers.SimpleScheduler.MoveOverdueActions | event/simplescheduler.go:61-65 | exactly the planned actions that are due join the end of the queue, soonest first |
| Schedulers.SimpleScheduler.RunOne | event/simplescheduler.go:69-77 | the front of the queue runs, never before it is due, and every action stays in exactly one of planned, queued, run or removed |
| Schedulers.SimpleScheduler.NextActionTime | event/simplescheduler.go:82-90 | now if there is work, else the soonest planned time, which is still to come |
| Endpoints.Router.SendMessage | sim/router.go:36-51 | the handling of the message joins the queue of the receiver, whoever shares it; a fresh stream number for stream 0, nothing for an unknown peer |
| Endpoints.Endpoint.Transmit | sim/router.go:36-51 | a message sent by any endpoint to any endpoint, new stream or not, joins the addressee's queue and leaves every request accounted for once |
| Endpoints.Endpoint.OthersEnqueue | event/simplescheduler.go:39-41 | work of others that joins the same scheduler leaves every request accounted for once |
| Endpoints.Endpoint.OthersSchedule | event/simplescheduler.go:44-52 | so does work that others plan there |
| Endpoints.Endpoint.OthersRemove | event/simplescheduler.go:56-58 | and work that others take out of the plan |
| Endpoints.Endpoint.Tick | event/simplescheduler.go:60-66 | time passing leaves every request accounted for once |
| Endpoints.Endpoint.DialPeer | sim/endpoint.go:67-86 | a known peer becomes connected, an unknown one is refused |
| Endpoints.Endpoint.MaybeAddToPeerstore | sim/endpoint.go:90-105 | a peer is remembered unless it is known already |
| Endpoints.Endpoint.SendRequestHandleResponse | sim/endpoint.go:107-164 | the request joins the queue of its receiver and the handler is kept for a fresh stream with its timeout armed, or its error call is queued; in either case the request is accounted for once |
| Endpoints.LearnedFrom | sim/endpoint.go:214-220 | after a response a named peer can be connected to and is stored as last named, and the others are as before |
| Endpoints.Endpoint.HandleMessage | sim/endpoint.go:189-230 | a message for a stream takes its handler and timeout out of the tables and queues one call, with an error unless the message is a response, whose nodes become known; for any other the answer of the request handler, if any, goes back to the sender on the same stream |
| Endpoints.Endpoint.TimeOut | sim/endpoint.go:144-161 | a timeout invokes the handler exactly if no message has taken it |
| Endpoints.Endpoint.RunOne | event/simplescheduler.go:69-77 | the front of the shared queue runs, after what is due has joined it. A message of this endpoint is handled with its own sender, stream and content: the call joins the queue or the answer goes to the queue of the sender, and the nodes of a response are stored; a timeout or call invokes its handler, never one invoked before; nothing else changes, and work of others changes nothing |
| Endpoints.InvokedAtMostOnce | sim/endpoint.go:107-230 | in every state of every interleaving no handler has been invoked twice, and none that still waits has been invoked |
| Endpoints.EveryRequestAnswered | sim/endpoint.go:107-230 | once nothing waits, every request made has had its handler invoked exactly once |
| Endpoints.Endpoint.AllAnswered | sim/endpoint.go:107-230 | if every request has a timeout, as sending with one keeps true, then once no task of the endpoint is queued and no timeout planned, no handler is kept and every request made was invoked exactly once |
| PeerLists.MergeSorted | query/simplequery/peerlist.go:53-172 | the merge of two sorted lists is strictly sorted, so free of duplicates |
| PeerLists.MergeMembers | query/simplequery/peerlist.go:53-172 | it holds every old node and every new one whose distance no old node has |
| PeerLists.FirstInIs | query/simplequery/peerlist.go:293-299 | the first queued node is queued and none before it is; there is none exactly if no node is queued |
| PeerLists.SortByDistance | query/simplequery/peerlist.go:188-191 | sorting is a permutation in ascending distance |
| PeerLists.LinkDistinct | query/simplequery/peerlist.go:193-202 | the sorted nodes are linked, one for each distance |
| PeerLists.SliceToPeerInfos | query/simplequery/peerlist.go:174-214 | a sorted list of fresh queued nodes, one for every key among the usable ids |
| PeerLists.PeerList.Weave | query/simplequery/peerlist.go:82-171 | the destructive loop links the nodes of both lists into their merge, and closestQueued and queuedCount end as the first queued node and the number of queued nodes |
| PeerLists.PeerList.AddToPeerlist | query/simplequery/peerlist.go:53-172 | the list becomes the sorted union by key; old nodes stay with their status, new ones are fresh and queued |
| PeerLists.PeerList.PopClosestQueued | query/simplequery/peerlist.go:235-260 | the nearest queued peer waits from then on; no key is popped twice; nothing is returned exactly if none is queued |
| PeerLists.PeerList.QueriedPeer | query/simplequery/peerlist.go:262-273 | the first node of that name becomes queried if it was waiting, and no other status changes |
| PeerLists.PeerList.UnreachablePeer | query/simplequery/peerlist.go:276-291 | likewise for unreachable |
| PeerLists.PeerList.FindNextQueued | query/simplequery/peerlist.go:293-299 | the first queued node from a node on |
| PeerLists.FirstNamedIs | query/simplequery/peerlist.go:262-265 | where names are unique per key, matching by name finds the node that was asked |
| SimpleQueries.SimpleQuery.NewSimpleQuery | query/simplequery/query.go:60-107 | no query without peers; else one over all usable peers that fails at once exactly if none is usable, and that schedules as many requests as concurrency and peers allow |
| SimpleQueries.SimpleQuery.EnqueueNewRequests | query/simplequery/query.go:125-156 | the counter stays equal to requests scheduled and out and within concurrency; the failure callback runs exactly if nothing is out and nothing queued, and then every listed peer is queried or unreachable |
| SimpleQueries.SimpleQuery.NewRequest | query/simplequery/query.go:159-200 | a request goes to the nearest peer never asked, none once the query is over, and the counter stays exact; the query hangs if and only if this was the last scheduled request, none is out and nobody is queued |
| SimpleQueries.SimpleQuery.HandleResponse | query/simplequery/query.go:203-267 | the answered request is settled, its sender reported to the table if it named peers and its key reported for removal if there was no response, the useful peers except self join the list as queued and all others keep their state; then as many requests are scheduled as concurrency and queued peers allow, and the query fails exactly if nothing else is scheduled, out or queued; a stopped or finished query sends nothing more |
| SimpleQueries.SimpleQuery.RequestError | query/simplequery/query.go:271-297 | the failed request is settled, all others keep their state, and its key is reported for removal unless the query was cancelled; then as many requests are scheduled as concurrency and queued peers allow, and the query fails exactly if nothing else is scheduled, out or queued |
| SimpleQueries.SimpleQuery.FilterSelf | query/simplequery/query.go:249-260 | the in-place filter keeps all other ids in order at the front |
| SimpleQueries.NothingLeft | query/simplequery/query.go:135-142 | with nothing queued and nobody waiting every listed peer is queried or unreachable |
| SimpleQueries.TwoRefusals | query/simplequery/query.go:159-200 | a query for two peers with concurrency 2, both refused at once, ends up hanging: its failure callback is never called |
| PendingHeaps.HeapMin | routing/probe.go:441-454 | nothing in the heap comes before its first element |
| PendingHeaps.UpStep | routing/probe.go:474-487 | swapping an element with a later parent moves the only disorder up |
| PendingHeaps.DownStep | routing/probe.go:474-487 | swapping an element with its soonest child moves the only disorder down |
| PendingHeaps.HeapButOne | routing/probe.go:176-180 | changing one due time in place leaves a heap but for that position |
| PendingHeaps.PendingList.Swap | routing/probe.go:483-487 | two entries change places and keep their positions right; it panics exactly if one of them is not in the list |
| PendingHeaps.PendingList.Up | routing/probe.go:361-365 | moving up restores the heap among the compared entries and keeps the entries |
| PendingHeaps.PendingList.Down | routing/probe.go:361-365 | moving down restores the heap below, and reports whether it moved |
| PendingHeaps.PendingList.HeapRemove | routing/probe.go:361-361 | the entry at a position leaves, with position -1, and the rest is a heap; it panics exactly for a position outside the list, but for -1 on an empty list |
| PendingHeaps.PendingList.HeapFix | routing/probe.go:365-365 | one entry out of place finds its place |
| PendingHeaps.PendingList.HeapPush | routing/probe.go:363-363 | a new entry joins and the heap stays one |
| Probes.NodeValueList.Put | routing/probe.go:352-367 | it panics exactly if the node is tracked with position -1 and something is pending; else the node is pending with its new value, no longer ongoing, and every tracked node is in exactly one of pending and ongoing with its position right |
| Probes.NodeValueList.SetDue | routing/probe.go:176-177 | a due time changed in place leaves everything but that heap position in order |
| Probes.NodeValueList.Remove | routing/probe.go:392-403 | the node is forgotten in all three places, the others untouched |
| Probes.NodeValueList.FindCheckPastDeadline | routing/probe.go:407-421 | the first ongoing check past its deadline, or none if there is none |
| Probes.NodeValueList.RemoveFromOngoing | routing/probe.go:423-437 | exactly the node leaves the ongoing list, and the last one takes its place |
| Probes.NodeValueList.PeekNext | routing/probe.go:441-454 | a pending node that is due, or none if none is: no pending one is due sooner, nor at the same time with a longer common prefix with the key of the table |
| Probes.NodeValueList.MarkOngoing | routing/probe.go:458-468 | the node moves from pending to ongoing with its deadline set |
| Probes.Probe.Advance | routing/probe.go:136-243 | a step panics exactly if its event is not panic-free; else it keeps the invariant with ongoing checks within concurrency; each state means what it says; an emitted check is for the pending node due first, of those due together one with the longest common prefix; a check that fails without a report was past its deadline; what is known of the other nodes stays; rescheduled nodes are due a full interval later |
| Probes.Probe.NextCheck | routing/probe.go:208-243 | at capacity a check past its deadline fails its node; below it the next due node is checked |
| Probes.Probe.TableChanges | routing/probe.go:120-133 | whatever others do to the routing table, the probe stays valid |
| Probes.PanicFreeIff | routing/probe.go:352-367 | an event that puts back a tracked node is panic-free if and only if its check is not ongoing or all tracked nodes are being checked |
| Probes.ResponsePanics | routing/probe.go:168-180 | a run of two adds and a poll, after which an ordinary response panics |
| Includes.NodeQueue.Enqueue | routing/include.go:191-203 | a node joins the end exactly if there is room and its key is not queued; the key index stays exact |
| Includes.NodeQueue.Dequeue | routing/include.go:207-218 | the oldest node leaves, with its key |
| Includes.Include.Advance | routing/include.go:101-172 | queued, checked and table keys stay disjoint, the queue unique and within capacity, checks within concurrency; the state reports a node added to the table if and only if it was being checked, named closer nodes and the table took it, and a full queue if a new candidate finds it full; otherwise a message goes to the oldest candidate exactly if there is room for a check, and each other state means what it says |
| Includes.Include.NextCheck | routing/include.go:146-172 | a check starts exactly if there is capacity and a candidate |

## Left out

* libp2p, servers, protobuf messages, examples, tracing, contexts and their deadlines, option builders and
  error texts.
* `routing/bootstrap.go`, a thin wrapper around a query.
* Locks, atomics and goroutine races: every object is used by one caller at a time. The 20-key bound of
  `BucketLimit20` is a sequential claim, since the filter runs outside the table's lock.
* Key filters other than a limit per prefix class; the limit is any number, 20 in the source.
* Bucket sizes below 1 and negative counts for `SimpleRT`, and its `CplSize`, which counts the whole last
  bucket for long prefixes.
* `SequentialIter`, which accepts the same node twice.
* The pointer shared by a query's iterator and its callers: the iterator's trie holds keys and a map holds the
  node states, so aliasing of node states is not modelled.
* Query statistics as part of the outputs; they are fields of the state.
* Networked endpoints in the peer list: requeueing a peer when new addresses appear, and its retry flag.
* What the routing table does with the calls of the simple query; the calls themselves are recorded.
* Blocking of a full channel queue: the scheduler's queue is unbounded.
* Removing a peer from the router while messages to it wait.
* What request handlers of the simulated endpoint compute, and which protocols they are for: any answer, or none,
  may go back for a request. Nil response handlers, and wrap-around of the 64-bit stream counter.
* Floating point in the 256-bit prefix length: the logarithm of a byte is the integer one.
* HexString, BitString, marshalling, and sorting of key lists.
- PoolBound.PoolNeverExceedsItsLimits: states both bounds for limits of 2 and more and for reports on messages that were sent, because they fail otherwise.
- PeerLists.SortByDistance: leaves open which of two nodes at the same distance comes first, because the source's sort does.
