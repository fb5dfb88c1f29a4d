# A verified model of the key-value server

A single-process, Redis-like server, modelled in Dafny 4.11 and proved for all inputs and all runs. The parts
with the most state are modelled in place, on objects and arrays; the rest on values.

| file | models |
|---|---|
| `Common.dfy` | bytes, doubles as ordered 64-bit patterns, options, the clock |
| `AvlShape.dfy`, `AvlTree.dfy` | the order-statistic AVL tree: shapes and one-hole contexts, and the in-place operations proved to realise them |
| `Ieee.dfy` | the numbers that the patterns of doubles denote, and their order |
| `ZOrder.dfy`, `ZTree.dfy`, `ZListing.dfy` | the (score, name) order; sorted insertion, deletion and seek; the one sorted listing of a members map and its ranges |
| `HashTable.dfy`, `HashMap.dfy`, `HashRuns.dfy` | one chained table; the two-table map with incremental rehashing; every run of it against a plain map |
| `SortedSet.dfy`, `ZSets.dfy` | the sorted set over both indexes, range queries, every run of insertions and removals; the sets of all entries as separate objects |
| `TtlHeap.dfy` | the min-heap of deadlines with back-references |
| `Database.dfy`, `Keyspace.dfy`, `ServerCore.dfy`, `Server.dfy`, `Commands.dfy` | the server's hash map; what the keyspace means; what every operation does to the whole state; the server over its hash map, sorted sets and heap; the commands, the timers and every run of them |
| `CommandLaws.dfy`, `RunLaws.dfy` | what each request does, from the bytes of its name and arguments; laws over runs, relating two requests |
| `IdleList.dfy`, `OpenList.dfy`, `Timers.dfy` | the circular list of idle connections, the closing loop; the list of the open connections by number; every run of the list, the poll timeout |
| `Wire.dfy`, `Request.dfy`, `Response.dfy`, `Framing.dfy` | little-endian fields, the request codec, the typed response codec, frames in both directions |
| `Serving.dfy`, `Netio.dfy`, `Host.dfy`, `Client.dfy` | one request through the server; the connection state machine; the event loop with any number of connections, their idle list and the timers on one server; the client at the other end |
| `ThreadPool.dfy`, `HandOff.dfy` | the worker pool as atomic steps; the server's state and the pool together in every interleaving |

The main results, in order of depth:

* Deletion, insertion and the rank walk of the AVL tree are correct in place: exact in-order contents, balance,
  cached height and count, parent links, and termination of the climb-then-descend walk.
* The two-table hash map is a finite map at every point of a migration, stays under eight nodes per bucket, and
  its cursor never leaves the older table. Bucket counts stay powers of two when growth doubles them, as the
  comment at `src/storage/hashtable.cpp:68` says. The expression there is `(size + 1) * 2`, which at a trigger is
  never a power of two. The growth rule is a parameter, and every run says exactly when the assertion in `h_init`
  has failed: with the growth as written, once a map has reached 32 nodes.
* Over every run the sorted set's two indexes hold the same nodes, and `zquery` is a slice of the one sorted listing
  that the members have.
* Each of the eleven commands, known by the bytes of its name and its number of arguments, has its effect and its
  reply stated outright, and any other request leaves the keyspace alone and is answered with error 1. Over runs: get
  answers what set stored, a second del answers 0, pttl counts down from pexpire to the millisecond, and a range
  query lists the members by the numbers that the IEEE patterns of their scores denote.
* Over every run of commands and timers, hash map, sorted sets, entries and heap stay consistent, every command does
  what the abstract keyspace prescribes, and a timer run removes only expired keys, earliest first. The sorted sets
  are the objects with both indexes, one for each entry.
* Every run of the event loop, with any number of connections, their idle list and the timers on one server, is a
  trace of states with one prescribed step for each event: an accepted connection joins the list, a turn reads,
  serves, writes and closes its connection exactly as the outcomes of `read` and `write` say and touches no other,
  a timer run closes exactly the overdue connections and reaps expired keys. In every state the commands a
  connection ran are a function of the bytes that arrived for it, however they were split, and its output is the
  frames of the replies that the shared history gave them, in order. Hence a client's commands are served as sent,
  and it reads their replies in order.
* Both codecs round-trip in both directions. For responses the reverse direction fails for wrapped lengths and for
  boolean bytes above 1; it holds exactly for inputs without them.
* The poll timeout never oversleeps a due point while a connection is open; without one it does for deadlines too
  far away, and exactly for those whose distance does not survive the 32-bit cast.
* In every interleaving of commands, timers and workers every entry ever allocated is in exactly one place: live,
  waiting for a worker, in a worker's hands, or freed, by the main thread or by a worker. An entry that leaves is
  handed over exactly when its sorted set has more than 1000 members and freed at once otherwise; nothing leads to
  it any more; jobs leave in order, and no wake-up is lost. With the growth as written no set gets that far: while
  the process lives, nothing is ever handed over.

Parameters of the model: time, the outcomes of `read` and `write`, the hash function, the number parsers, and the
wake-ups of the condition variable. Invariants of whole components are stated under a predicate that is always true
(`Inside`, `Opened`, `Tally`, `Logging`, `Looking`, `Answering`, `Talking`, `Hosting`, `Waiting`); it only keeps the verifier from unfolding them where they are not needed.

## Model

| member | source | states |
|---|---|---|
| `AvlShape.FixKeeps` | src/storage/avl_tree.cpp:31-90 | no rotation or double rotation changes the in-order sequence |
| `AvlShape.FixBalances` | src/storage/avl_tree.cpp:104-112 | when a child's height moved by at most one, the loop step restores balance and moves the subtree's height by at most one |
| `AvlShape.RepairKeeps` | src/storage/avl_tree.cpp:93-122 | the whole climb keeps the in-order sequence |
| `AvlShape.RepairBalances` | src/storage/avl_tree.cpp:93-122 | the whole climb rebalances a tree in which one subtree changed height by at most one |
| `AvlTree.UpdateStats` | src/storage/avl_tree.cpp:25-28 | afterwards height and count of the node are exact |
| `AvlTree.RotateLeft` | src/storage/avl_tree.cpp:31-51 | the heap is the left rotation, with exact links and statistics, from stale statistics at the two nodes |
| `AvlTree.RotateRight` | src/storage/avl_tree.cpp:54-74 | the heap is the right rotation, with exact links and statistics |
| `AvlTree.AvlFixLeft` | src/storage/avl_tree.cpp:77-82 | realises the single or double rotation for a left subtree taller by two |
| `AvlTree.AvlFixRight` | src/storage/avl_tree.cpp:85-90 | realises the single or double rotation for a right subtree taller by two |
| `AvlTree.AvlFixTree` | src/storage/avl_tree.cpp:93-122 | the loop returns the root of the repaired tree, fully linked |
| `AvlTree.AvlDeleteOneChild` | src/storage/avl_tree.cpp:125-142 | the only child takes the node's place and the tree is repaired |
| `AvlTree.Successor` | src/storage/avl_tree.cpp:150-151 | the loop finds the in-order successor, which has no left child |
| `AvlTree.TakePlace` | src/storage/avl_tree.cpp:156-168 | the victim replaces the node wherever the repair has moved it |
| `AvlTree.AvlDelete` | src/storage/avl_tree.cpp:145-169 | for every tree and node: the in-order sequence loses exactly that node, the result is a linked, exact AVL tree |
| `AvlTree.Spans` | src/storage/avl_tree.cpp:179-194 | the counts around a node tell exactly which ranks its subtree holds |
| `AvlTree.OffsetMove` | src/storage/avl_tree.cpp:179-206 | `pos` stays the rank difference; each move shrinks a measure under which the walk never climbs after descending |
| `AvlTree.AvlOffset` | src/storage/avl_tree.cpp:175-208 | the node at rank + offset, null exactly when that rank does not exist |
| `Ieee.RankIsOrder` | src/storage/sorted_set.cpp:46-47 | comparing two patterns that are not NaN is comparing the numbers that sign, exponent and mantissa denote, infinities at the ends; equal exactly for the same pattern or two zeros |
| `ZOrder.ZLessIsLex` | src/storage/sorted_set.cpp:44-60 | memcmp on the common prefix, then length, is the dictionary order of names after the score order |
| `ZOrder.ZLessIsByNumber` | src/storage/sorted_set.cpp:44-60 | for scores that are numbers the order is by the number denoted, then by name |
| `ZOrder.ZLessTrans` | src/storage/sorted_set.cpp:44-60 | the order is transitive |
| `ZOrder.ZLessTotal` | src/storage/sorted_set.cpp:44-60 | the order is asymmetric and separates different names |
| `ZTree.FindPlace` | src/storage/sorted_set.cpp:64-71 | the descent ends at the gap between the smaller and the larger tuples |
| `ZTree.TreeInsert` | src/storage/sorted_set.cpp:63-77 | the old nodes and the new one, sorted and balanced |
| `ZTree.TreeUpdate` | src/storage/sorted_set.cpp:83-89 | the same nodes, sorted by the new score, the others in their old order |
| `ZTree.SeekGreaterEqual` | src/storage/sorted_set.cpp:151-164 | the first tuple not below the key: all before it are below, none after it is |
| `HashTable.HTable.Insert` | src/storage/hashtable.cpp:36-42 | the node heads its own bucket's chain, nothing else moves |
| `HashTable.HTable.Find` | src/storage/hashtable.cpp:22-33 | null only if no node matches; otherwise a match and its predecessor |
| `HashTable.HTable.Detach` | src/storage/hashtable.cpp:45-50 | exactly the target leaves its chain |
| `HashTable.HTable.Visit` | src/storage/hashtable.cpp:52-62 | every node exactly once |
| `HashTable.Transfer` | src/storage/hashtable.cpp:84-86 | one node moves to its bucket in the other table |
| `HashMap.MaskIsRemainder` | src/storage/hashtable.cpp:25-37 | the bucket index is the remainder of the hash, as buckets are a power of two |
| `HashMap.AssertMeansPow2` | src/storage/hashtable.cpp:12 | the bit test holds exactly for powers of two |
| `HashMap.GrowthAssertion` | src/storage/hashtable.cpp:65-70 | at every trigger doubling gives a power of two and the written expression does not |
| `HashMap.HMap.CursorInRange` | src/storage/hashtable.cpp:75-82 | a nonempty older table has a nonempty bucket at or after the cursor |
| `HashMap.HMap.MigrateStep` | src/storage/hashtable.cpp:77-86 | in range; moves one node or the cursor and changes no contents |
| `HashMap.HMap.HelpRehashing` | src/storage/hashtable.cpp:73-94 | up to 128 moves, contents unchanged, a drained table dropped |
| `HashMap.HMap.Lookup` | src/storage/hashtable.cpp:97-107 | exactly the finite map's answer, which is unchanged |
| `HashMap.HMap.TriggerRehash` | src/storage/hashtable.cpp:65-70 | the table becomes the older one; whether the assertion passed is recorded |
| `HashMap.HMap.Insert` | src/storage/hashtable.cpp:110-125 | the finite map gains the key; load and migration invariants hold; the assertion fails exactly as written growth reaches 32 nodes |
| `HashMap.HMap.Delete` | src/storage/hashtable.cpp:128-137 | the finite map loses exactly the key |
| `HashMap.HMap.DeleteSame` | src/storage/hashtable.cpp:128-137 | deletion by identity, as the timers do it |
| `HashMap.HMap.UnderLoadFactor` | src/storage/hashtable.cpp:118-124 | every reachable map has fewer than eight nodes per newer bucket, also during a migration |
| `HashMap.HMap.AliveMeansSmall` | src/storage/hashtable.cpp:65-70 | as written, a map that has not aborted holds fewer than 32 nodes and has never rehashed |
| `HashMap.HMap.Size` | src/storage/hashtable.cpp:147-149 | the number of keys, also during a migration |
| `HashMap.HMap.ForEach` | src/storage/hashtable.cpp:151-153 | every node of both tables exactly once |
| `HashRuns.RunMap` | src/storage/hashtable.cpp:65-137 | for every interleaving of lookups, insertions of absent keys and deletions, each answer and the final contents are those of a plain finite map, the load bound holds, and the assertions have passed exactly if growth doubles or the map never reached 32 keys |
| `HashRuns.StaysSmallIs` | src/storage/hashtable.cpp:110-125 | never reaching 32 keys means so after every prefix of the run |
| `HashRuns.AbortsAt32` | src/storage/hashtable.cpp:65-70 | as written, any 32 insertions of different keys end the process |
| `SortedSet.ZSet.Lookup` | src/storage/sorted_set.cpp:103-113 | the member's node, or null exactly when there is none |
| `SortedSet.ZSet.Update` | src/storage/sorted_set.cpp:80-90 | the member's score changes unless it compares equal |
| `SortedSet.ZSet.Insert` | src/storage/sorted_set.cpp:116-129 | the members map gains or updates the name; tells which; as written, the assertion in the hash index fails exactly when there are 32 members |
| `SortedSet.ZSet.Delete` | src/storage/sorted_set.cpp:132-148 | the member leaves both indexes; the assertion on the hash index holds |
| `SortedSet.ZSet.Remove` | src/storage/sorted_set.cpp:266-272 | deletes the member if present; tells whether it was |
| `SortedSet.ZSet.ListingIsView` | src/storage/sorted_set.cpp:116-148 | the in-order listing of the tree is the sorted listing of the members, and the only one |
| `SortedSet.ZSet.CountElements` | src/storage/sorted_set.cpp:327-331 | the first loop counts the least even number that reaches the limit, or two for every tuple up to the end |
| `SortedSet.ZSet.Query` | src/storage/sorted_set.cpp:295-341 | the slice of the sorted listing from (first tuple not below the key) + offset, the offset narrowed to 32 bits; the header is two for each pair emitted, and it is the least even number that reaches the limit unless the listing was emitted to its end |
| `ZListing.ListingUnique` | src/storage/sorted_set.cpp:151-164 | two sorted listings of the same members are equal |
| `ZListing.RangeTells` | src/storage/sorted_set.cpp:311-341 | such a range from the number of tuples below the key and the 32-bit number congruent to the offset: where it starts, when it is empty, and how far it goes |
| `ZListing.ListingExists` | src/storage/sorted_set.cpp:151-164 | every members map has a sorted listing |
| `SortedSet.Replay` | src/storage/sorted_set.cpp:80-148 | every run leaves both indexes valid and exactly the members the run prescribes; the assertions have passed exactly if growth doubles or the set never reached 32 members |
| `ZSets.Sets.Insert` | src/storage/sorted_set.cpp:251-254 | zset_insert on one of many sets changes that set as prescribed and no other |
| `ZSets.Sets.Remove` | src/storage/sorted_set.cpp:266-272 | zset_delete on one of many sets changes that set alone |
| `ZSets.Sets.Query` | src/storage/sorted_set.cpp:311-341 | the range of the one sorted listing of that set's members |
| `Database.Db.Insert` | src/storage/commands.cpp:86-92 | the server's hash map gains the key; as written the process survives while there are fewer than 32 |
| `Database.Db.CountAndVisit` | src/storage/commands.cpp:181-184 | as many nodes visited, each once, as hm_size counts |
| `TtlHeap.ParentOfChild` | src/storage/heap.cpp:12-24 | the index formulas invert each other |
| `TtlHeap.RootIsMin` | src/storage/heap.cpp:9-24 | heap order makes the root a minimum |
| `TtlHeap.HeapUp` | src/storage/heap.cpp:27-40 | same items, heap order, exact back-references, no other owner written |
| `TtlHeap.HeapDown` | src/storage/heap.cpp:43-80 | same items, heap order, exact back-references, no other owner written |
| `TtlHeap.HeapUpdate` | src/storage/heap.cpp:83-89 | one item out of order in either direction is put right |
| `TtlHeap.HeapUpsert` | src/storage/heap.cpp:92-105 | the owner's item is replaced, or the item added; heap order and back-references hold |
| `TtlHeap.HeapDelete` | src/storage/heap.cpp:108-119 | exactly the item at any position goes; its owner's back-reference is not written |
| `Keyspace.OwnDeadline` | src/storage/commands.cpp:161-167 | an entry's index names its own heap item; -1 exactly when it has none |
| `Keyspace.SetTtl` | src/storage/commands.cpp:35-47 | the entry's deadline is set or removed, every other deadline kept |
| `Keyspace.HeadIsEarliest` | src/core/sys_server.cpp:63-65 | the heap's head belongs to a live key with the earliest deadline |
| `ServerCore.CreateSound` | src/storage/commands.cpp:83-92 | a new entry keeps the bijections and adds its key to the keyspace |
| `ServerCore.RewriteSound` | src/storage/commands.cpp:35-47 | a change of an entry or its deadline keeps the bijections and changes the item of its key alone |
| `ServerCore.DropGone` | src/storage/commands.cpp:59-70 | when an entry has left hash map, heap and table, its key alone is gone, the bijections of the others survive, and nothing leads to the entry |
| `ServerCore.PlaceSound` | src/storage/commands.cpp:65-69 | handing the entry over or freeing it restores the count: every entry ever allocated is live, queued or freed, and only one of these, once |
| `ServerCore.InOnePlace` | src/storage/commands.cpp:50-70 | so an entry is in exactly one of the three from its allocation on |
| `ServerCore.DepartOne` | src/storage/commands.cpp:64-69 | the entry that left was queued exactly if its set has more than 1000 members and freed otherwise |
| `Server.ServerData.Find` | src/storage/commands.cpp:80-81 | a hash node leads to the entry that holds the item of the key |
| `Server.ServerData.GetKey` | src/storage/commands.cpp:97-113 | the value or nil; the length assertion holds |
| `Server.ServerData.SetKey` | src/storage/commands.cpp:73-94 | the key's value is replaced, type and deadline kept, or a new entry made |
| `Server.ServerData.EntryDel` | src/storage/commands.cpp:59-70 | the entry leaves the heap, and joins the queue exactly when its sorted set has more than 1000 members, the freed entries otherwise |
| `Server.ServerData.ThreadPoolQueue` | src/storage/commands.cpp:65-66 | one more job; called only for an entry that nothing leads to |
| `Server.ServerData.Free` | src/storage/commands.cpp:50-54 | one more entry freed, which nothing leads to; the keyspace is unchanged |
| `Server.ServerData.DelKey` | src/storage/commands.cpp:116-127 | the key and its deadline go; 1 exactly if it was there, else 0; the entry that left was queued or freed by its size, every other is as it was |
| `Server.ServerData.EntrySetTtl` | src/storage/commands.cpp:35-47 | only the deadline of that key changes |
| `Server.ServerData.SetTtlMs` | src/storage/commands.cpp:131-148 | sets or removes the deadline of an existing key; 1 exactly if it exists, else 0 |
| `Server.ServerData.GetTtlMs` | src/storage/commands.cpp:151-168 | -2 without the key, -1 without a deadline, 0 once it has come, and before that now plus the reply is the key's own deadline |
| `Server.ServerData.ZCmdAdd` | src/storage/sorted_set.cpp:224-255 | creates the entry or finds it, inserts into its set; 1 exactly for a new member; another type is refused unchanged; says when an assertion fails |
| `Server.ServerData.ExpectZSet` | src/storage/sorted_set.cpp:205-218 | an absent key reads as empty, another type is refused, otherwise the entry whose set it is |
| `Server.ServerData.ZCmdRemove` | src/storage/sorted_set.cpp:261-273 | looks up and deletes in the entry's set; 1 exactly if the member was there, else 0 |
| `Server.ServerData.ZCmdScore` | src/storage/sorted_set.cpp:279-289 | the score that the lookup in the entry's set finds, or nil |
| `Server.ServerData.ZCmdQuery` | src/storage/sorted_set.cpp:306-341 | the range of the sorted listing of the members under the key |
| `Server.ServerData.AliveIsSmall` | src/storage/hashtable.cpp:118-121 | as written, while no assertion has failed there are fewer than 32 keys and fewer than 32 members in every set |
| `Server.ServerData.Reap` | src/core/sys_server.cpp:63-84 | one loop turn removes a key of earliest deadline; the node found is the entry's own, so neither warning branch is taken; the entry was queued or freed by its size |
| `Server.ServerData.ProcessTimers` | src/core/sys_server.cpp:61-87 | only expired keys go, earliest first; then none is left or 2000 went; all that left were queued or freed by their size |
| `Commands.AllKeys` | src/storage/commands.cpp:171-184 | an array whose header counts exactly one line for every key |
| `Commands.EmitPairs` | src/storage/sorted_set.cpp:333-341 | the output is one complete array value |
| `Commands.Emit` | src/net/serialize.cpp:14-44 | each helper appends one complete value |
| `Commands.RunRequest` | src/storage/commands.cpp:189-236 | every request makes a step that the laws below describe, the reply being exactly one value appended to the buffer; the process survives exactly while the keyspace stays small |
| `CommandLaws.PingLaw` | src/storage/commands.cpp:191-193 | answers pong, no effect |
| `CommandLaws.GetLaw` | src/storage/commands.cpp:97-113 | answers the value or nil, no effect |
| `CommandLaws.SetLaw` | src/storage/commands.cpp:73-94 | the key has the value; type, members and deadline of an existing key stay; nil |
| `CommandLaws.DelLaw` | src/storage/commands.cpp:116-127 | the key is gone and nothing else; 1 if it was there, else 0 |
| `CommandLaws.KeysLaw` | src/storage/commands.cpp:171-184 | one line `key : value` for every key, each once |
| `CommandLaws.ZAddLaw` | src/storage/sorted_set.cpp:224-255 | score and name in their places: a new set, a new member, a changed score, or no change for an equal one; the refusals |
| `CommandLaws.ZRemLaw` | src/storage/sorted_set.cpp:261-273 | the member goes; 1 if it was there, else 0; another type is refused |
| `CommandLaws.ZScoreLaw` | src/storage/sorted_set.cpp:279-289 | the member's score or nil; another type is refused |
| `CommandLaws.ZQueryLaw` | src/storage/sorted_set.cpp:306-341 | score, name, offset and limit in their places: names and scores alternate from the place the offset leads to, as far as the limit or the listing goes |
| `CommandLaws.ZQueryErrors` | src/storage/sorted_set.cpp:306-319 | a bad score, offset or limit and another type are refused, in this order |
| `CommandLaws.PTtlLaw` | src/storage/commands.cpp:151-168 | -2, -1, 0, or the distance to the deadline |
| `CommandLaws.PExpireLaw` | src/storage/commands.cpp:131-148 | the deadline is now plus the ttl, or removed by a negative one; 1 if the key is there, else 0; a bad number is refused |
| `CommandLaws.OtherLaw` | src/storage/commands.cpp:231-235 | any other name or number of arguments: no effect, error 1 |
| `Commands.Run` | src/storage/commands.cpp:189-236 | every run of commands and timers: the invariants hold, each step is as prescribed, the assertions have passed exactly if growth doubles or keys and members stayed below 32 throughout, and as written nothing is ever handed to the workers while they pass |
| `RunLaws.ItemKept` | src/storage/commands.cpp:189-236 | a key's item stays as it is over any part of a run without a writing command on it and without timers at its deadline |
| `RunLaws.SetThenGet` | src/storage/commands.cpp:73-113 | get answers what set stored |
| `RunLaws.SetThenDel` | src/storage/commands.cpp:73-127 | del of a key that was set answers 1 |
| `RunLaws.AfterDel` | src/storage/commands.cpp:116-127 | a second del answers 0 and get answers nil, until set or zadd |
| `RunLaws.PExpireThenPTtl` | src/storage/commands.cpp:131-168 | pttl b - a milliseconds after pexpire t answers t - (b - a), and 0 from then on |
| `RunLaws.ZAddThenZScore` | src/storage/sorted_set.cpp:224-289 | zscore answers the score that zadd stored |
| `RunLaws.ZAddThenZRem` | src/storage/sorted_set.cpp:224-273 | zrem of a member that was added answers 1 |
| `RunLaws.ScoresAreNumbers` | src/core/common.h:33-38 | with a parser that rejects NaN no run brings NaN into a set |
| `RunLaws.ListingByNumber` | src/storage/sorted_set.cpp:44-60 | so every sorted listing of every run is by the numbers that the scores denote, then by name |
| `IdleList.Detach` | src/storage/list.h:22-25 | the ring without exactly that node |
| `IdleList.InsertBefore` | src/storage/list.h:28-33 | the ring with the new node before the target |
| `IdleList.IdleConns.Accept` | src/server.cpp:54-59 | the new connection is last; order by activity kept |
| `IdleList.IdleConns.Touch` | src/server.cpp:157-163 | an active connection moves to the end with its new time, the others keep their order |
| `IdleList.IdleConns.Destroy` | src/net/netio.cpp:158-163 | exactly that connection leaves the list, the others keep their order |
| `IdleList.IdleConns.CloseIdle` | src/core/sys_server.cpp:51-59 | exactly the connections with last activity + 15000 < now are closed |
| `OpenList.Close` | src/core/sys_server.cpp:51-59 | of the open connections exactly the overdue ones are closed, and the list holds the others |
| `Timers.RunIdle` | src/server.cpp:157-173 | every run with a clock that never goes back: the lists passed through, one step for each event (appended, moved to the end, removed, exactly the overdue closed), linked and sorted by activity |
| `Timers.HeadsDecide` | src/core/sys_server.cpp:23-32 | the heads of list and heap give the earliest due time of all |
| `Timers.NextTimerMs` | src/core/sys_server.cpp:19-42 | -1 with nothing due; with a connection exactly the time to the earliest due point, between 0 and 15000; without one its 32-bit cast, which never goes past a due point exactly if the head is due, or its distance modulo 2^32 is below 2^31 |
| `Timers.LongLeaseOversleeps` | src/core/sys_server.cpp:41 | set and pexpire with a ttl of 2^31 and no connection: the timeout is negative and the deadline is overslept |
| `Wire.U32Is` | src/core/buffer_io.h:31-35 | the four bytes of a number, least significant first |
| `Wire.U64Is` | src/core/buffer_io.h:36-45 | the low half and then the high half |
| `Wire.U32RoundTrip` | src/net/protocol.h:21-26 | reading a written 32-bit field gives its value |
| `Wire.U32Bytes` | src/net/protocol.h:21-26 | writing a read field gives its bytes |
| `Request.SendRequest` | src/client.cpp:31-52 | the frame of the command's encoding, refused when its 32-bit length exceeds the limit |
| `Request.RequestLayout` | src/client.cpp:31-52 | the number of arguments, then each argument behind its length at its place |
| `Request.ParseRequest` | src/net/protocol.cpp:19-45 | accepts exactly the encodings of commands within the limits, and returns the command encoded |
| `Request.RequestRoundTrip` | src/net/protocol.cpp:19-45 | a command within the limits is parsed back as sent |
| `Request.RoundTripLimit` | src/net/protocol.cpp:25-26 | survives exactly up to 200000 arguments |
| `Response.OutAppends` | src/net/serialize.cpp:14-54 | the helpers append exactly the encoding of a value |
| `Response.EncodingIs` | src/net/serialize.h:21-30 | tag, length and payload of every kind of value, in bytes |
| `Response.PrintItems` | src/client.cpp:143-154 | reads a list of values in full |
| `Response.PrintResponse` | src/client.cpp:55-185 | a value at the front of the input is decoded exactly and consumed in full, whatever follows; an accepted value stands at the front exactly if no length reached wraps and no boolean byte reached exceeds 1 |
| `Response.EncodedGuard` | src/client.cpp:55-185 | every encoding is such an input |
| `Response.MisreadBool` | src/client.cpp:126-137 | the byte 2 is accepted as true |
| `Response.MisreadString` | src/client.cpp:85-96 | a string of announced length 2^32 - 4 is accepted as one byte |
| `Framing.ResponseEnd` | src/net/netio.cpp:33-43 | a body of up to 33554432 bytes goes out behind its length as it is, a longer one as error 2 in its 29 bytes; earlier bytes are untouched |
| `Framing.MalformedIs` | src/net/netio.cpp:66-70 | the reply to a payload that does not parse, in bytes: error 4 |
| `Framing.CappedFits` | src/net/netio.cpp:33-38 | what is sent never exceeds the limit |
| `Framing.SplitInChunks` | src/net/netio.cpp:141-145 | splitting a stream into frames in two pieces is splitting it whole |
| `Framing.StuckWhenTooLong` | src/net/netio.cpp:52-56 | after an over-long frame nothing more is split off, whatever arrives |
| `Netio.Connection.HandleOneRequest` | src/net/netio.cpp:46-87 | serves exactly the first complete frame on the shared server and notes it in the log; closes on an over-long one |
| `Netio.Connection.HandleWrite` | src/net/netio.cpp:90-111 | exactly as many bytes leave the buffer as write accepts, at most all, and none on failure; the intentions follow the buffer |
| `Netio.WritesInOrder` | src/net/netio.cpp:90-111 | over any turns without reading, after writes that offered k bytes exactly the first k bytes of the output have gone, or all, and then the connection wants to read |
| `Netio.Connection.HandleRead` | src/net/netio.cpp:119-155 | the bytes read join the input, every complete frame is served at its time, what there is room for is written; to be closed exactly after an error, the end of the input, an over-long frame or a failed write |
| `Netio.Connection.Fail` | src/net/netio.cpp:123-138 | the end of the input or a failed read closes the connection, EAGAIN changes nothing |
| `Netio.Connection.Turn` | src/server.cpp:152-168 | what a turn reads, writes and serves, exactly when it asks for closing, and that it destroys exactly on an error or then |
| `Host.RunHost` | src/server.cpp:118-171 | for every sequence of accepts, turns and timer runs: the states passed through, one prescribed step for each event; in all of them each connection's frames are those of its input and its output their replies, with their place in a prescribed history; the list holds exactly the open connections |
| `Host.ClosedForGood` | src/net/netio.cpp:158-163 | once closed, by a turn or by the timers, a connection stays closed and nothing happens to it |
| `Host.InputIsArrived` | src/net/netio.cpp:119-145 | the input a connection was served for is what the run's reads brought it, all of it and in order |
| `Framing.SplitsRequests` | src/net/netio.cpp:46-87 | commands sent by the client are split off as sent, in order |
| `Client.ServedAsSent` | src/net/netio.cpp:46-87 | whatever part of a client's stream has arrived, exactly the commands in it that are complete were served, in order |
| `Client.RunAnswersAsSent` | src/server.cpp:118-171 | in every state of every run the shared log has for a client its commands in order, and its output is their replies in order |
| `Client.ReadReplies` | src/client.cpp:295-318 | the client's loop reads the values in order, each as it is unless it is over 32 MiB, and leaves what follows |
| `Framing.ReadResponse` | src/client.cpp:188-212 | from the frame of a value the client reads that value if its encoding has up to 33554432 bytes, error 2 otherwise, and takes exactly the frame |
| `Serving.ServePayload` | src/net/netio.cpp:62-86 | the whole path of a request: parsed exactly, effect and reply as prescribed, one reply frame appended, earlier output untouched |
| `Serving.FramedIs` | src/net/netio.cpp:33-43 | that frame is the length and the encoding of the value, or of error 2 when the encoding exceeds 32 MiB |
| `ThreadPool.StepKeeps` | src/core/thread_pool.cpp:5-23 | every atomic step keeps order, single ownership of jobs and enough awake workers |
| `ThreadPool.NoLostWakeup` | src/core/thread_pool.cpp:5-45 | in every interleaving jobs are taken in order, each by one worker, and a nonempty queue leaves a worker able to move |
| `HandOff.MoveKeeps` | src/core/thread_pool.cpp:5-45 | every step of the main thread or a worker keeps the server's count of entries, the pool's invariant, and the order of jobs between them |
| `HandOff.ConservedExclusive` | src/storage/commands.cpp:50-70 | an entry is in exactly one place from its allocation on, so it is freed at most once, and unless live no hash node, heap item or entry leads to it |
| `HandOff.RunThreads` | src/storage/commands.cpp:50-70 | for every interleaving of commands, timer runs and worker steps on the server's own state: the states passed through, one step for each event, and in all of them every entry is in exactly one place |

## Left out

- Sockets, poll, signals, real clocks, logging, the client's prompt and `main`: input and output; their results are parameters.
- `container_of`, allocation and struct layout: nodes and entries are references or ids, and a hash node knows its owner.
- Next pointers of hash nodes: kept in a map of the table (`HTable.next`) instead of in the node, so a node that is in no table has none.
- Scores of sorted-set nodes: kept in a map of the set (`ZSet.scores`) instead of in the node.
- The heap and the `heap_idx` fields are a sequence and a map that the heap operations take and return, so aliasing of `ref` pointers with other memory is not modelled.
- A failed `h_init` assertion ends the process; the model goes on, and says of every run whether one has failed.
- AvlTree.UpdateStats: counts and heights do not wrap at 2^32.
- HashTable.HTable.Visit: the callback never stops early, as the only callback of the program.
- Keyspace.SetTtl: the clock stays below 2^63, so that a deadline does not wrap.
- Server.ServerData.ThreadPoolQueue: adds to the jobs; the lock, the push and the signal are steps of `ThreadPool` and `HandOff`, where a push may come later than in the code, which only adds interleavings.
- Host.RunHost: accepts, turns and timer runs come in any order, of which the order within one iteration of the loop is one; the client of a connection is `Client`, not part of the trace.
- `hm_clear`, `zset_clear`, `tree_dispose`, `znode_del`: freeing, with nothing to prove about the contents.
- `avl_search_and_insert`, `avl_search_and_delete`, `generate_response`, `append_buffer_array`, `append_buffer_map`: unused.
- `strtod`, `strtoll`: the parsers are arbitrary functions, rejecting by None.
- Where code and documentation differ, the model follows the code: growth is `(size + 1) * 2` though the comment says double (both are modelled); the limit of `zquery` counts array elements though Design.md:282 says pairs; `get` and `set` do no type check though Design.md:270 promises one; `zquery` takes a score and a name where the comment at src/storage/commands.cpp:219 says minimum and maximum.
