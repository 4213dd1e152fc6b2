# Verified model of ByoRedis

ByoRedis is a single-threaded server in the style of Redis, built on hand-written intrusive data structures. This
project models its layers in Dafny, from the pointers of the trees to the bytes on the wire, and proves, for all
inputs and all runs, that each layer keeps the promises the next one relies on. `dafny verify dfyconfig.toml` checks
everything.

**Sorted sets.** `avl_tree.dfy` describes what rebalancing and deletion make of a tree, as values with one subtree in
focus; `avl.dfy` is the pointer code, proved to hold exactly those trees in parent, child, height and size fields.
`capacity.dfy`, `hash_chains.dfy` and `hashtable.dfy` are the chained table and the map of two tables that migrates 128
nodes at a time. `ranking.dfy`, `zset_tree.dfy`, `zset.dfy` and `zqueries.dfy` put both indexes together: a sorted set
is a map from names to scores, and since a map has only one sorted list, every ordered answer is an answer about the
map. `pairs.dfy` and `str_hash.dfy` hold the comparator and the hash function.

**Keys and timers.** `semantics.dfy` says what the twelve commands mean: a state of values, deadlines and freed values,
and the answer of each command. `heap.dfy` is the array heap that writes every move back into the entries; `entries.dfy`
and `db.dfy` are the entries, each with a sorted set of its own, and the database; `commands.dfy` and `dispatch.dfy` are
the commands on them, proved to change the state and to answer as the semantics says. `expiry.dfy` is the TTL half of a
timer pass, `history.dfy` what holds over runs of commands and passes, `app.dfy` the database with its history.
`laws.dfy`, `timer_laws.dfy` and `request_laws.dfy` say what clients may rely on: every reply over every run in terms of
the requests before it, from their strings on. `thread_pool.dfy` is the worker queue as a protocol over all
interleavings, and `reclaim.dfy` what becomes of the large entries that are left to it.

**The wire.** `buffer.dfy` is the growing and compacting buffer with its placeholders, `wire.dfy` the byte formats and
the decoder, `tlv.dfy` the encoders and response frames, `replies.dfy` the answers that are arrays, down to their bytes,
`requests.dfy` the request format, `serve.dfy` what a byte stream means to the server, and `client.dfy` what the client
makes of the frames it is sent.

**The event loop.** `conn.dfy` is a connection under any outcome of its reads and writes, `server.dfy` any number of
them with one database, `idle.dfy` and `idle_laws.dfy` the idle list, and `timeout.dfy` the timeout of `epoll_wait`.

## Reading the model

- The structs of the data structures are classes with the same fields. `container_of` is the constant `data` of an
  `AVLNode` and `owner` of an `HNode`; a ZNode is its AVL node with that data. A heap item refers to its entry.
- An address such as `HNode **from` is given by the slot and the predecessor whose `next` field it is.
- Scores are positions in the numeric order of doubles: there is no NaN, and -0.0 and 0.0 coincide.
- Sizes in the tree wrap modulo 2^32, as the narrowing in `avl_size` makes them. Ranks and offsets are claimed for
  sets of fewer than 2^32 members, so a run of the application or of the server is followed for as long as every set
  has fewer; `n` and the length of the trace say how far that is.
- `hcode & mask` is a bitwise function on naturals. `h_init` rounds up to the least power of two on naturals;
  `capacity.dfy` proves of the bit manipulation that it yields just that on 64-bit words.
- The clock, the parsing and rendering of numbers, the results of `read` and `write`, the events of `epoll_wait` and the
  interleaving of threads are inputs. The i-th event of the application sees the i-th state of the world.
- Two kinds of ownership are stated: a sorted set and the database each have a set of objects, `repr`, and their
  operations touch nothing else but what they allocate.
- `die()` ends the process: the connection is then `dead`, and the run is over.

## Where the code falls short of its purpose

- ZCOUNT returns 0 when every member sorts before the second key, although members may lie in the range;
  `CountIsRightUnlessPastEnd` says exactly when, `CountPastEndIsWrong` gives an example.
- `next_timer_ms` loses a deadline when the low 32 bits of its distance are 2^31 or more, that is, first at 2^31 ms ahead;
  a farther one may also give an early wake-up, which does no harm. `TimeoutCases` says exactly when,
  `FarDeadlineIsLost` gives an example, and `IdleConnectionBoundsTimeout` says that it cannot happen while a connection
  is open.
- The sizes and lengths that the client adds up in 32 bits are right except where `LimitIsExact` and
  `LengthCheckIsExact` say so.

## Model

| member | source | states |
|---|---|---|
| Pairs.MemcmpIsDictionaryOrder | src/ds/zset.cc:52-53 | memcmp() over the common length, with the length as tie-break, is dictionary order, stated without memcmp |
| Pairs.ZLessIsStrictTotalOrder | src/ds/zset.cc:45-64 | the comparator of (score, name) pairs is irreflexive, asymmetric, transitive and total |
| AvlTree.FixStepInorder | src/ds/avl.cc:57-71 | single and double rotations keep the in-order sequence |
| AvlTree.RepairInorder | src/ds/avl.cc:74-99 | rebalancing all the way to the root leaves the in-order sequence as it was |
| AvlTree.RepairDistinct | src/ds/avl.cc:74-99 | rebalancing neither loses nor duplicates a node |
| AvlTree.FixStepBalances | src/ds/avl.cc:57-71 | a node whose children differ by up to two levels comes out balanced and loses at most one level |
| AvlTree.RepairBalances | src/ds/avl.cc:74-99 | the one invariant behind insertion and deletion: a subtree may be replaced by any balanced one within one level of it, and the walk up restores balance everywhere |
| AvlTree.DeleteIsCorrect | src/ds/avl.cc:118-146 | deletion takes exactly the given node out of the order, keeps all others by identity, and keeps balance, also when the successor stands in |
| AvlTree.SuccessorStandsIn | src/ds/avl.cc:123-146 | after the successor has been detached, wherever rebalancing moved the doomed node, its place is right for the successor |
| AvlTree.SubstituteInPlace | src/ds/avl.cc:130-145 | the stand-in takes exactly the position of the deleted node and keeps the balance |
| AvlTree.SizeAtLeastFib | test/test_avl.cc:53-77 | a balanced tree of height h has at least Fib(h+2)-1 nodes |
| Avl.WrapIsModulo | include/byoredis/ds/avl.hh:22-23 | sizes wrap modulo 2^32, as the narrowing of the stored size does |
| Avl.AvlUpdate | src/ds/avl.cc:8-12 | height and size are recomputed from the children, with 32-bit sizes |
| Avl.RotateLeft | src/ds/avl.cc:17-35 | the pointers, heights and sizes after a left rotation are those of the rotated tree; nodes outside are untouched |
| Avl.RotateRight | src/ds/avl.cc:37-55 | the same for a right rotation |
| Avl.AvlFixLeft | src/ds/avl.cc:57-63 | LL and LR repair, as pointers, heights and sizes |
| Avl.AvlFixRight | src/ds/avl.cc:65-71 | RR and RL repair, as pointers, heights and sizes |
| Avl.AvlFixNode | src/ds/avl.cc:83-91 | one visit of the repair loop brings a node with stale height and size up to date and rebalances it |
| Avl.FixAndAttach | src/ds/avl.cc:76-97 | one round below the root attaches the repaired subtree to the right child link of the parent |
| Avl.AvlFix | src/ds/avl.cc:74-99 | started at any linked node with stale ancestors, returns the root of a tree with correct parent links, heights and sizes at every node |
| Avl.AvlDelEasy | src/ds/avl.cc:102-115 | detaching a node with at most one child and fixing from the parent |
| Avl.StandIn | src/ds/avl.cc:130-145 | copying the doomed node over the successor redirects both children and the parent, or the root |
| Avl.AvlDel | src/ds/avl.cc:118-146 | the heap holds the tree without the node, and its root is returned |
| Avl.AvlRank | src/ds/avl.cc:212-221 | the rank is the true in-order index |
| Avl.AvlOffset | src/ds/avl.cc:184-210 | the node at rank + offset, or null exactly when that is out of range, in at most twice as many steps as the tree is high |
| Avl.OffsetStep | src/ds/avl.cc:187-207 | one round of the walk goes into the subtree that covers the target or else up, and makes progress |
| Capacities.RoundUpSucceeds | src/ds/hashtable.cc:8-21 | on 64-bit words the capacity assertion holds exactly for requests 1 to 2^63 |
| Capacities.RoundUpIsEnough | src/ds/hashtable.cc:8-17 | the rounded capacity is no smaller than the request |
| Capacities.RoundUpIsLeast | src/ds/hashtable.cc:8-17 | no smaller power of two would do |
| Capacities.RoundUpFixesPowers | src/ds/hashtable.cc:61 | powers of two, which both callers pass, are left alone |
| HashChains.SlotIsRemainder | src/ds/hashtable.cc:29 | hcode & mask is the remainder modulo the capacity |
| HashTable.HTab.SlotOf | src/ds/hashtable.cc:29 | in every table the mask selects the slot hcode % capacity |
| HashTable.HTab.Init | src/ds/hashtable.cc:19-25 | an empty table of the capacity asked for, a power of two that the rounding leaves alone |
| HashChains.InsertedOk | src/ds/hashtable.cc:28-34 | putting a node in front of its chain keeps slots, chains and links in agreement |
| HashChains.DetachedOk | src/ds/hashtable.cc:52-57 | bypassing a node keeps slots, chains and links in agreement for the remaining nodes |
| HashChains.FlattenElements | src/ds/hashtable.cc:131-140 | the first k slots list exactly the nodes whose hash code selects them |
| HashChains.FlattenOnce | src/ds/hashtable.cc:131-140 | the iteration order of a table has no duplicates |
| HashTable.HTab.Insert | src/ds/hashtable.cc:28-34 | the node joins the table |
| HashTable.HTab.Lookup | src/ds/hashtable.cc:38-50 | finds a node exactly when one with this hash code satisfies the callback, and where the pointer to it lies |
| HashTable.HTab.Detach | src/ds/hashtable.cc:52-57 | exactly the node behind the given pointer leaves its chain |
| HashTable.HTab.Foreach | src/ds/hashtable.cc:131-140 | the callback sees the nodes in table order up to the first refusal |
| HashTable.HMap.Migrate | src/ds/hashtable.cc:67-76 | the migration index is in bounds while nodes remain; each round skips an empty slot or moves one node |
| HashTable.HMap.MigrateSome | src/ds/hashtable.cc:66-77 | moves min(128, older.size) nodes and loses none |
| HashTable.HMap.HelpRehashing | src/ds/hashtable.cc:65-83 | the older table is discarded exactly when it is empty |
| HashTable.HMap.TriggerRehashing | src/ds/hashtable.cc:59-63 | the full table becomes the older one beside an empty table of twice the capacity |
| HashTable.HMap.Lookup | src/ds/hashtable.cc:85-92 | at any point of a rehash: a matching node if there is one, and the node set is unchanged |
| HashTable.HMap.Insert | src/ds/hashtable.cc:107-119 | the node set grows by the node; the load invariant shows that a needed resize is never suppressed |
| HashTable.HMap.Delete | src/ds/hashtable.cc:94-103 | at any point of a rehash: exactly a matching node leaves, or none matches |
| HashTable.HMap.Size | src/ds/hashtable.cc:127-129 | the sum of the two counters is the number of nodes |
| HashTable.HMap.Foreach | src/ds/hashtable.cc:142-144 | visits the nodes of both tables in order until the callback refuses |
| HashTable.HMap.OrderIsComplete | src/ds/hashtable.cc:142-144 | a complete iteration meets every live node exactly once, also during a rehash |
| HashTable.LoadAfterHelp | src/ds/hashtable.cc:65-83 | migration keeps the load bounds |
| HashTable.LoadAfterInsert | src/ds/hashtable.cc:107-119 | an insertion keeps newer.size < 8 * capacity, and a pending rehash drains long before the next one is due |
| Ranking.DescendLeft | src/ds/zset.cc:70-73 | going left at a node not before the key keeps the split of all nodes into those before the key and the rest |
| Ranking.DescendRight | src/ds/zset.cc:140-145 | going right at a node before the key keeps the split |
| Ranking.NewcomerFits | src/ds/zset.cc:67-78 | a new leaf where the descent ended is in its sorted place |
| Ranking.ListingIsUnique | src/ds/zset.cc:32-148 | a map from names to scores has only one sorted list, so every ordered answer depends on the map alone |
| Ranking.RankSplits | src/ds/zset.cc:137-148 | in an ascending list the key comes after exactly the pairs below its rank |
| Ranking.CountInPrefix | src/server/commands.cc:220-225 | the number of pairs in [key1, key2) is the difference of the ranks, or 0 |
| Ranking.SliceIs | src/server/commands.cc:172-187 | the slice of ZQUERY without ranks: min(limit, what is left) pairs from the place found plus offset on |
| Ranking.CountAnswerIs | src/server/commands.cc:213-226 | the answer of ZCOUNT is 0 when every member sorts before the second key, and otherwise the number of members in the range |
| StringHash.StrHash | src/ds/zset.cc:15-21 | the loop computes the FNV variant on 32-bit words |
| ZSets.SameNameIsEquality | src/ds/zset.cc:23-30 | equal lengths and memcmp() == 0 mean equal names |
| ZSetTree.FindPlace | src/ds/zset.cc:68-73 | the descent ends at the one place that keeps the order |
| ZSetTree.TreeInsert | src/ds/zset.cc:67-77 | the node is in its sorted place of a balanced tree |
| ZSetTree.Reposition | src/ds/zset.cc:80-87 | taking a node out, rescoring it and putting it back sorts the tree by the new scores |
| ZSetTree.SeekGe | src/ds/zset.cc:137-148 | the first node that does not sort before the key, or null when all do |
| ZSets.FoundByName | src/ds/zset.cc:41-42 | while both indexes agree, a hash lookup by name finds exactly the member of that name |
| ZSets.ZSet.constructor | include/byoredis/ds/zset.hh:6-9 | an empty set stands for the empty map |
| ZSets.ZSet.Lookup | src/ds/zset.cc:33-43 | finds the member of the name exactly when the map has the name; changes no member |
| ZSets.ZSet.Update | src/ds/zset.cc:80-87 | the map changes at this name only; both indexes agree |
| ZSets.ZSet.Insert | src/ds/zset.cc:106-115 | the map is updated at the name, true is returned exactly for a new name, both indexes agree |
| ZSets.ZSet.UnhashNode | src/ds/zset.cc:119-125 | the hash map does find the node of the member, as asserted |
| ZSets.ZSet.Delete | src/ds/zset.cc:118-130 | the name leaves the map, the node leaves both indexes |
| ZSets.ZSet.Remove | src/server/commands.cc:135-140 | ZREM: the name leaves the map, and the answer tells whether it was there |
| ZSets.ZSet.OnlyNewObjects | src/ds/zset.cc:32-130 | no operation makes a set use an object that it did not own before and that is not new |
| ZSets.ZSet.Put | src/ds/zset.cc:106-115 | insertion on the objects the set owns, and nothing else |
| ZSets.ZSet.Drop | src/ds/zset.cc:118-130 | deletion on the objects the set owns, and nothing else |
| ZQueries.ListingListsMap | src/ds/zset.cc:5-9 | the in-order sequence lists exactly the members of the map, strictly sorted |
| ZQueries.Seek | src/ds/zset.cc:137-148 | the member at the rank of the key |
| ZQueries.Offset | src/ds/zset.cc:151-154 | the member at index + offset, or null when there is none |
| ZQueries.IndexOfNode | src/ds/avl.cc:212-221 | the node at index k has k nodes before it, so rank and offset are inverse to each other |
| Replies.EmitSlice | src/server/commands.cc:180-187 | the output loop writes exactly the pairs from the start index on, at most limit of them, and stops early only at the end of the list |
| Replies.DoZQuery | src/server/commands.cc:172-188 | ZQUERY appends the encoding of one array: names and scores of the slice from the seek rank + offset, of at most limit pairs, empty when limit <= 0 or either step fails; its length is filled in at the end |
| ZQueries.RankOfName | src/server/commands.cc:198-200 | ZRANK is the index of the name in the sorted list, nil when it is missing |
| ZQueries.Count | src/server/commands.cc:213-226 | what ZCOUNT returns, in terms of the pairs in [key1, key2) |
| ZQueries.FindRank | src/server/commands.cc:198-200 | the rank depends on the map alone: the number of members that sort before the one of this name |
| ZQueries.CountMembers | src/server/commands.cc:213-226 | the answer to ZCOUNT depends on the map alone |
| ZQueries.CountIsRightUnlessPastEnd | src/server/commands.cc:217-225 | ZCOUNT is the number of pairs in [key1, key2) unless every pair is below key2 and some pair is not below key1 |
| ZQueries.CountPastEndIsWrong | src/server/commands.cc:217-219 | a sorted set of one member on which ZCOUNT returns 0 although the member counts |
| ZQueries.Run | src/ds/zset.cc:32-130 | over every run of insertions, removals and lookups both indexes agree with the map the run describes |
| TimerHeap.UpStep | src/ds/heap.cc:17-22 | swapping a too small item with its parent moves the only fault up |
| TimerHeap.DownStep | src/ds/heap.cc:27-49 | swapping a too large item with its smallest child moves the only fault down |
| TimerHeap.Heap.Shift | src/ds/heap.cc:46-47 | moving an item into the hole updates the position stored in its entry and no other |
| TimerHeap.Heap.Up | src/ds/heap.cc:15-25 | order and back-references everywhere, same items |
| TimerHeap.Heap.Smallest | src/ds/heap.cc:31-44 | the choice among an item and its children |
| TimerHeap.Heap.Down | src/ds/heap.cc:27-52 | order and back-references everywhere, same items |
| TimerHeap.Heap.Update | src/ds/heap.cc:54-60 | a heap broken only at pos, in either direction, is repaired |
| TimerHeap.Heap.Delete | src/ds/heap.cc:62-73 | any position: the heap is valid and the multiset of items loses exactly that item |
| TimerHeap.Heap.Insert | src/ds/heap.cc:75-78 | the heap is valid and the multiset of items gains exactly the item |
| TimerHeap.Heap.Upsert | src/ds/heap.cc:80-88 | replaces the item at the position, or adds one when the position is past the end |
| TimerHeap.RootIsLeast | src/ds/heap.cc:15-52 | the first item is a minimum |
| Databases.TimerRemoved | src/server/db.cc:41-44 | removing an item removes exactly the deadline of its key |
| Databases.TimerReplaced | src/server/db.cc:45-49 | replacing an item changes exactly the deadline of its key |
| Databases.Database.TimerOf | include/byoredis/server/db.hh:40 | heap_idx is -1 exactly without a deadline, and otherwise leads to the item of this entry |
| Databases.Database.SetTtl | src/server/db.cc:40-51 | a negative TTL removes the deadline, any other stores now + ttl, or the sum modulo 2^64 when it has more than 64 bits; heap and entries stay in bijection |
| Semantics.DeadlineIsSum | src/server/db.cc:47 | expire_at is now + ttl as long as the sum has 64 bits, and congruent to it modulo 2^64 otherwise |
| Databases.Database.EntryDel | src/server/db.cc:27-37 | the entry leaves the heap and the live entries, is recorded as freed with its value, and becomes a task exactly when it holds more than 10 members |
| Databases.AnotherFreed | src/server/db.cc:27-37 | freeing a live entry keeps the account: every entry created is live or freed, none is freed twice, and the tasks are the large ones among the freed |
| Databases.Database.FreedIsUnreachable | src/server/db.cc:27-37 | a freed entry is the target of neither a hash node nor a heap item |
| Databases.MatchesByIdentity | src/server/db.cc:79-81 | hnode_same() selects exactly the node of the entry |
| Databases.MatchesByKey | src/server/db.cc:54-58 | entry_eq() selects exactly the node of the key |
| Databases.Database.Find | src/server/commands.cc:11-18 | the entry of the key, if there is one; a lookup changes no state |
| Databases.Database.AddEntry | src/server/commands.cc:38-44 | a new entry joins hash table and map, without a deadline, and brings the objects of its own set |
| Databases.Database.Del | src/server/commands.cc:48-57 | the key loses value and deadline, its entry is freed exactly then, and is queued exactly when it is large |
| Databases.Database.Settle | src/server/commands.cc:89-111 | after an operation on the set of one entry all sets are valid again and share no object with each other or with the database |
| Databases.Database.OnlyNewObjects | src/server/commands.cc:10-262 | no command makes the database use an object that it did not own before and that is not new |
| Commands.DoGet | src/server/commands.cc:10-23 | GET answers with the text in the map |
| Commands.DoSet | src/server/commands.cc:25-46 | SET refuses another type, keeps the deadline, and answers as the map says |
| Commands.DoDel | src/server/commands.cc:48-57 | DEL removes value and deadline and frees the value, once |
| Commands.DoKeys | src/server/commands.cc:59-69 | KEYS appends one array of all keys, each exactly once, in the order of the hash table |
| Replies.AnswerKeys | src/server/commands.cc:66-69 | the encoding of the array of the keys, its length announced in 32 bits |
| Commands.PutScore | src/server/commands.cc:109-111 | zset_insert() on the set an entry owns changes one score in the map and no other key |
| Commands.DropScore | src/server/commands.cc:135-140 | zset_lookup() and zset_delete() on the set an entry owns remove one name and change no other key |
| Commands.DoZAdd | src/server/commands.cc:89-111 | ZADD creates a missing key, refuses another type, and inserts into both indexes of the set of the entry |
| Commands.ExpectZSet | src/server/commands.cc:116-126 | a missing key counts as an empty set, another type is an error |
| Commands.DoZRem | src/server/commands.cc:129-141 | ZREM removes one name and keeps the key even when the set becomes empty |
| Commands.DoZScore | src/server/commands.cc:144-153 | ZSCORE answers with the score found through the hash table of the set |
| Commands.DoZQuery | src/server/commands.cc:155-188 | ZQUERY answers for the set of the key, for a missing key with an empty array, for another type with an error |
| Commands.DoZRank | src/server/commands.cc:190-200 | ZRANK answers with the number of members before the one of this name, or nil |
| Commands.DoZCount | src/server/commands.cc:202-227 | ZCOUNT answers as its two seeks say |
| Commands.DoExpire | src/server/commands.cc:229-244 | PEXPIRE sets or removes the deadline of an existing key |
| Commands.DoTtl | src/server/commands.cc:246-262 | PTTL answers -2, -1 or the rest of the time, clamped at 0 |
| Commands.Execute | src/server/conn.cc:246-274 | all twelve commands, bad arguments and unknown commands: the state becomes what the command makes of it, and the encoding of its answer is appended |
| Commands.Perform | src/server/conn.cc:246-274 | the same on the database as a whole: only objects it owns are touched |
| Dispatching.UnknownOtherwise | src/server/conn.cc:246-274 | the answer is "unknown command" exactly when no command has this name and this number of strings |
| Dispatching.NamesAreReached | src/server/conn.cc:246-274 | no test shadows another: every name with its number of strings leads to its own command |
| Dispatching.ArgumentsOfZAdd | src/server/commands.cc:84-88 | score from string 2, name from string 3; an error when the score is no number |
| Dispatching.ArgumentsOfZQuery | src/server/commands.cc:156-166 | score, name, offset and limit from strings 2 to 5; which error for which string |
| Dispatching.ArgumentsOfZCount | src/server/commands.cc:204-214 | the first pair from strings 2 and 3, the second from 4 and 5 |
| Dispatching.ArgumentsOfExpire | src/server/commands.cc:230-234 | the ttl from string 2 |
| Expiry.ExpireFirst | src/server/time.cc:49-54 | the assertion on hm_delete() holds, also in the middle of a rehash; the entry with the earliest deadline is deleted and freed |
| Expiry.ProcessTtl | src/server/time.cc:45-59 | deletes the earliest deadlines, all of them before now, until none has passed or 2001 are gone |
| Expiry.WithoutFacts | src/server/time.cc:45-59 | exactly the keys that have expired go, and each of their values is freed once |
| Expiry.PassRemovesExpired | src/server/time.cc:45-59 | a pass removes, and frees, min(number of expired keys, 2001) keys |
| Histories.DeadlineIsFromExpire | src/server/commands.cc:230-244 | a deadline is always the one computed by the latest PEXPIRE of the key, which was not negative, and the key has existed ever since |
| Histories.ExpireInForceIsDeadline | src/server/commands.cc:230-244 | conversely a PEXPIRE still in force determines the deadline |
| Histories.TtlAnswersForLatestExpire | src/server/commands.cc:246-262 | PTTL answers with the deadline of the PEXPIRE in force minus now, clamped at 0 and read as int64_t; it is -1 exactly when none is in force, or when 2^64 - 1 ms are left at the time 0 |
| Histories.LiveOrFreed | src/server/db.cc:27-37 | over every run the number of values ever created is the number of live ones plus the number of values freed |
| Laws.OtherKeysStay | src/server/commands.cc:10-262 | a command changes neither value nor deadline of any other key |
| Laws.PassOnlyRemoves | src/server/time.cc:45-59 | a timer pass takes keys away and changes no value |
| Laws.KindOfKey | src/server/commands.cc:10-262 | over every run a key holds a text, a set or nothing exactly as the latest SET, ZADD, DEL and expiry say |
| Laws.MembersOfKey | src/server/commands.cc:84-141 | over every run a set has a member exactly when a ZADD of it is in force: no later ZREM of it, DEL or expiry of the key; its score is that of the latest |
| Laws.GetLaw | src/server/commands.cc:10-23 | GET answers with the text of the latest SET in force, nil when the key holds nothing, an error when it holds a set |
| Laws.SetLaw | src/server/commands.cc:25-46 | SET is refused exactly when the key holds a set |
| Laws.DelLaw | src/server/commands.cc:48-57 | DEL answers 1 exactly when the key holds something |
| Laws.KeysLaw | src/server/commands.cc:59-69 | KEYS lists exactly the keys that hold something, each once |
| Laws.ZAddLaw | src/server/commands.cc:84-112 | ZADD is refused exactly when the key holds a text, and answers 1 exactly when no ZADD of the member is in force |
| Laws.ZRemLaw | src/server/commands.cc:129-141 | ZREM answers 1 exactly when a ZADD of the member is in force |
| Laws.ZScoreLaw | src/server/commands.cc:144-153 | ZSCORE answers with the score of the latest ZADD of the member in force, and nil when there is none |
| Laws.TextIsNotASet | src/server/commands.cc:116-126 | the six commands on sets refuse a key that holds a text |
| Laws.MembersHaveList | src/ds/zset.cc:45-77 | the members in force always have a sorted list |
| Laws.ZRankLaw | src/server/commands.cc:192-201 | ZRANK answers with the place of the member in the sorted list of the members in force, nil when it is none |
| Laws.ZCountLaw | src/server/commands.cc:204-227 | ZCOUNT answers with the number of members in force in the range, or 0 when all of them sort before its end |
| Laws.ZQueryLaw | src/server/commands.cc:156-189 | ZQUERY lists names and scores of the members in force from the place found plus offset on, min(limit, what is left) of them |
| TimerLaws.ExpireLaw | src/server/commands.cc:230-244 | PEXPIRE answers 1 exactly when the key holds something |
| TimerLaws.DeadlineLaw | src/server/db.cc:40-51 | the deadline of a PEXPIRE in force is its time plus its ttl, in 64 bits |
| TimerLaws.TimerIsFromExpire | src/server/db.cc:40-51 | a key has a deadline only from a PEXPIRE in force |
| TimerLaws.TtlLaw | src/server/commands.cc:247-262 | PTTL at time t answers u + ttl - t, or 0, for the PEXPIRE of ttl at time u in force, -1 when none is, -2 when the key holds nothing |
| TimerLaws.ExpiryLaw | src/server/time.cc:45-59 | a pass takes a key away only when u + ttl has passed; one left behind although it has passed was behind 2001 others with earlier deadlines |
| TimerLaws.NothingElseExpires | src/server/time.cc:45-59 | a key without a PEXPIRE in force never expires |
| RequestLaws.ZQueryRequest | src/server/commands.cc:155-189 | the strings of a ZQUERY decide its reply: place from 2 and 3, offset from 4, limit from 5 |
| RequestLaws.ZCountRequest | src/server/commands.cc:203-227 | the strings of a ZCOUNT decide its reply: from 2 and 3, up to 4 and 5 |
| RequestLaws.ZAddRequest | src/server/commands.cc:83-112 | the strings of a ZADD decide its reply |
| RequestLaws.ZScoreRequest | src/server/commands.cc:143-153 | ZSCORE answers with the number in the strings of the ZADD in force |
| RequestLaws.GetRequest | src/server/commands.cc:10-46 | GET answers with the text in the strings of the SET in force |
| RequestLaws.TtlRequest | src/server/commands.cc:229-262 | PTTL answers with what is left of the ttl in the strings of the PEXPIRE in force |
| RequestLaws.BadNumbersAreRefused | src/server/commands.cc:84-88 | a request whose numbers cannot be parsed gets the error and changes nothing |
| RequestLaws.UnknownIsRefused | src/server/conn.cc:271-273 | an unknown command gets its error and changes nothing |
| Applications.App.Respond | src/server/conn.cc:246-274 | one request adds one event to the history: its command, the world it saw and its answer, which is appended encoded |
| Applications.Run | src/server/conn.cc:246-274 | over every run of requests and timer passes: the states follow the meaning of the commands, the bytes written are the encodings of their answers, every entry ever created is live or has been freed once, and the tasks are the large ones among the freed |
| Reclaiming.DestroyedByOneWorker | src/server/db.cc:22-37 | when the jobs of the pool are the tasks of the database: no worker destroys a live or a small entry, none is destroyed twice, and every large freed one has been destroyed when all workers sleep |
| Buffers.Buffer.ShiftPlaceholders | src/proto/buffer.cc:36-42 | every placeholder at or behind the unread start moves by the shift, the others stay |
| Buffers.Buffer.EnsureWritable | src/proto/buffer.cc:4-43 | compaction or growth keeps the unread bytes and the place of every placeholder in them, and makes enough room |
| Buffers.Buffer.Append | src/proto/buffer.cc:45-49 | the unread bytes grow by the data; pending placeholders keep their place |
| Buffers.Buffer.Consume | src/proto/buffer.cc:51-59 | drops at most everything; an empty buffer starts over |
| Buffers.Buffer.ShrinkIfWasteful | src/proto/buffer.cc:61-80 | the capacity shrinks under the stated condition, the unread bytes and placeholders keep their place |
| Buffers.Buffer.PushPlaceholder | include/byoredis/proto/buffer.hh:34-36 | the end of the written bytes is pushed |
| Buffers.Buffer.PopPlaceholder | include/byoredis/proto/buffer.hh:41-46 | the innermost placeholder is popped |
| Wire.WordOfBytes | src/proto/tlv.cc:27-29 | a 32-bit word survives its four bytes |
| Wire.BytesOfWord | src/proto/tlv.cc:5-12 | any four bytes are the bytes of the word read from them |
| Wire.IntInside | src/proto/tlv.cc:31-33 | an int64_t survives its eight bytes, wherever they stand |
| Wire.BytesOfInt | src/proto/tlv.cc:31-33 | any eight bytes are the bytes of the int64_t read from them |
| Wire.DecodeEncoded | src/client/api.cc:106-194 | whatever follows, every encoded value tree decodes to itself and exactly its bytes are consumed |
| Wire.EncodeDecoded | src/client/api.cc:106-194 | whatever is decoded is exactly the encoding of the value |
| Wire.PrintResponse | src/client/api.cc:106-194 | the decoder, branch by branch and with its array loop, computes the decoding |
| Wire.LengthCheckIsExact | src/client/api.cc:122-146 | a length check added up in 32 bits agrees with the one on naturals unless the sum wraps around and what is left does not exceed the size |
| Tlv.OutStr | src/proto/tlv.cc:47-51 | appends the encoding of a string |
| Tlv.OutErr | src/proto/tlv.cc:63-68 | appends the encoding of an error |
| Tlv.OutInt | src/proto/tlv.cc:53-56 | appends the encoding of an int64_t |
| Tlv.OutDbl | src/proto/tlv.cc:58-61 | appends the encoding of a double |
| Tlv.OutNil | src/proto/tlv.cc:43-45 | appends the encoding of nil |
| Tlv.OutArr | src/proto/tlv.cc:70-73 | appends an array header |
| Tlv.OutBeginArr | src/proto/tlv.cc:75-79 | opens an array whose length is not known yet |
| Tlv.OutEndArr | src/proto/tlv.cc:81-85 | the byte before the placeholder is the array tag, as asserted, and only the four length bytes change |
| Tlv.Write | src/proto/tlv.cc:43-85 | values written with arbitrarily nested deferred array lengths are the encoding of their tree, whatever the buffer did in between |
| Tlv.ResponseBegin | src/server/conn.cc:159-163 | reserves a header at the end of what is queued |
| Tlv.ReplaceByError | src/server/conn.cc:172-177 | the rollback keeps everything up to the header |
| Tlv.ResponseEnd | src/server/conn.cc:170-181 | behind what was queued before stands the length of the body and the body itself when it has at most 32 MiB, and otherwise the frame of exactly one error value |
| Tlv.FrameDecodes | src/client/api.cc:67-81 | the client reads back the tree from the frame |
| Tlv.FrameOfLimited | src/server/conn.cc:170-181 | a body within the limit is framed as it is, any other gives way to one error |
| Clients.ShortFits | src/client/api.cc:106-194 | a reply that encodes to less than 2^32 bytes, with eight for each double, has 32-bit lengths throughout |
| Clients.CutStream | src/client/api.cc:45-78 | a stream cut off anywhere holds no responses but those of the whole stream |
| Clients.FramesArrive | src/client/api.cc:45-78 | the frames of any replies are read back one by one, each as it was or, above 32 MiB, as an error |
| Clients.RepliesArrive | src/client/api.cc:45-78 | at every moment the client of a connection has read the first of the replies, in order, and all of them once nothing is pending |
| Clients.ClientsAreAnswered | src/server/main.cc:66-112 | over every run of the server the client of every connection has read the first of the replies to exactly its own requests |
| Requests.ReadU32 | src/proto/tlv.cc:5-12 | reads a word when four bytes remain |
| Requests.ReadStr | src/proto/tlv.cc:14-21 | reads n bytes when they remain |
| Requests.OnlyOneRequest | src/server/conn.cc:215-219 | no two commands have the same payload |
| Requests.ParseIs | src/server/conn.cc:221-244 | every command list within the limits parses back to itself |
| Requests.ParseReq | src/server/conn.cc:221-244 | accepts exactly the encodings of commands of at most 200000 strings, and returns the command |
| Requests.SizeOfPayload | src/client/api.cc:17-20 | every payload has the total size of its strings and lengths, and every total below 2^32 is that of a payload |
| Requests.PayloadSize | src/client/api.cc:17-20 | the size computed in uint32_t is the total size modulo 2^32, for every command |
| Requests.LimitIsExact | src/client/api.cc:21-24 | the limit on the size in uint32_t is the limit on the size, unless a size of 2^32 or more wraps to a small one |
| Requests.SendReq | src/client/api.cc:15-43 | writes header and payload, or refuses what is longer than the message limit, on every command whose size does not wrap to an acceptable one |
| Serving.RequestsInPortions | src/server/conn.cc:113-114 | two portions of a stream hold the same requests as their concatenation, with the same remainder and end |
| Serving.ServeInPortions | src/server/conn.cc:113-114 | handling a stream in two portions equals handling it at once |
| Serving.ChunkingDoesNotMatter | src/server/conn.cc:88-132 | for every splitting of a stream into reads: same commands, same responses, same remainder, same end |
| Serving.SentRequestIsFirst | src/server/conn.cc:184-214 | a request as the client sends it is the first request of the stream, and what follows comes next |
| Serving.SentRequestsComeFirst | src/server/conn.cc:184-214 | any number of requests as clients send them are the first of the stream, in order |
| Serving.IncompleteWaits | src/server/conn.cc:186-199 | less than a header, or less than it announces, is waited for |
| Serving.OversizedIsTheEnd | src/server/conn.cc:191-195 | a length above 32 MiB ends the process |
| Serving.MalformedCloses | src/server/conn.cc:202-207 | a complete frame whose payload is that of no command within the limits closes the connection |
| Serving.SentRequestIsServed | src/server/conn.cc:184-214 | a request as the client sends it is answered by one frame, and the stream behind it is served next |
| Conns.Conn.constructor | src/server/conn.cc:61-71 | an accepted connection wants to read and has nothing pending |
| Conns.Conn.Respond | src/server/conn.cc:208-210 | one request is one event of the application and appends exactly one frame with its answer |
| Conns.Conn.TryProcessOneRequest | src/server/conn.cc:184-214 | one request is executed and consumed, or nothing changes except the wish to close on a malformed request |
| Conns.Conn.TakeIn | src/server/conn.cc:112-124 | all requests received so far have been executed and answered, and shrinking changes no unread byte |
| Conns.Conn.SendSoon | src/server/conn.cc:125-132 | what is pending is offered to write() at once |
| Conns.Conn.HandleRead | src/server/conn.cc:89-133 | for every result of read() and of the write() behind it: what is received, executed, sent, and whether the connection is to be closed |
| Conns.Conn.HandleWrite | src/server/conn.cc:136-157 | for every result of write() nothing is lost or sent twice, and the wishes follow |
| Conns.Conn.HandleEvent | src/server/main.cc:95-107 | for every event epoll may report the assertions on want_read and want_write hold, and the connection makes exactly the turn described |
| Conns.ClosedExactlyWhen | src/server/main.cc:95-107 | a turn closes the connection exactly on hangup, an error of a call that is made, the end of the stream, or a malformed frame; what counts as sent is what write() took |
| Conns.NothingReadWhilePending | src/server/conn.cc:89-133 | nothing is read while something is pending, nothing is executed without new bytes, and nothing pending is lost |
| Conns.MalformedFrameCloses | src/server/conn.cc:202-207 | a malformed frame behind any requests closes the connection, with no event but those of the requests |
| Conns.OversizedIsNeverSeen | src/server/conn.cc:191-195 | no connection has ever received a length above 32 MiB behind its requests: the run ends in the turn that reads it |
| Servers.OneTurn | src/server/main.cc:95-107 | a turn of one connection leaves the others as they are |
| Servers.Run | src/server/main.cc:66-112 | over every run with any number of connections to one database: every moment follows from the last, in each the wishes of every open connection agree with its pending bytes and with epoll, and what it has sent or will send are the frames that answer exactly the requests it has received |
| IdleList.Detach | include/byoredis/ds/list.hh:19-24 | any node leaves the circle, which stays linked in both directions |
| IdleList.InsertBefore | include/byoredis/ds/list.hh:26-32 | a node joins the circle before its head |
| IdleList.IdleQueue.Accept | src/server/conn.cc:64-65 | a new connection joins at the end; the list stays sorted by last activity |
| IdleList.IdleQueue.Touch | src/server/main.cc:90-93 | an active connection moves to the end; the list stays sorted by last activity |
| IdleList.IdleQueue.Remove | src/server/conn.cc:25-33 | a destroyed connection leaves the list, wherever it is |
| IdleList.IdleQueue.ExpireIdle | src/server/time.cc:33-44 | exactly the connections idle for more than 5000 ms are removed |
| IdleList.TouchOne | src/server/main.cc:83-93 | an event on an open descriptor moves its connection to the end with the new time; any other is ignored |
| IdleList.CloseOne | src/server/conn.cc:25-33 | a destroyed connection leaves list and table, and no other does |
| IdleList.ExpireSome | src/server/time.cc:33-44 | list and table keep exactly the connections that have been idle for at most 5000 ms |
| IdleList.Run | src/server/main.cc:66-112 | over every run under a monotone clock the list holds exactly the connections, with exactly the times and in exactly the order, that the run describes, and the table leads to each of them |
| IdleLaws.TimeAndCount | src/server/main.cc:66-112 | the time is the sum of the delays, and connections are numbered as they are accepted |
| IdleLaws.ListedIsOpen | src/server/main.cc:66-112 | whoever is in the list was accepted, has not been closed, was never idle for more than 5000 ms when the timers were processed, and stands there with the time of its last activity |
| IdleLaws.OpenIsListed | src/server/main.cc:66-112 | conversely whoever was accepted and has stayed is in the list with the time of its last activity |
| Timeouts.FirstOnesDecide | src/server/time.cc:14-23 | the first connection of the list and the root of the heap have the earliest deadline of all |
| Timeouts.TimeoutMeans | src/server/time.cc:23-30 | the same of the timeout that belongs to the earliest deadline |
| Timeouts.NextTimerMs | src/server/time.cc:11-31 | in terms of all deadlines of connections and entries: -1 when there are none, 0 when one has come, otherwise the distance to the least modulo 2^32 as int32_t, which is the distance itself below 2^31 |
| Timeouts.TimeoutCases | src/server/time.cc:30 | the timeout is exact precisely below 2^31 ms; it is negative, so that the deadline is lost, precisely when the low 32 bits of the distance are 2^31 or more; otherwise it is never late |
| Timeouts.OneTimer | src/server/time.cc:11-31 | both conditions on what next_timer_ms() returns for a single timer and no connection |
| Timeouts.FarDeadlineIsLost | src/server/time.cc:11-31 | with a single timer 2^31 ms ahead next_timer_ms() returns a negative timeout |
| Timeouts.IdleConnectionBoundsTimeout | src/server/time.cc:11-31 | as long as a connection is open the timeout is exact |
| ThreadPool.ExclusiveKept | src/server/thread_pool.cc:5-43 | only the holder of the mutex looks at the queue |
| ThreadPool.FifoKept | src/server/thread_pool.cc:14-16 | jobs leave the queue in the order in which they came |
| ThreadPool.ExactlyOnceKept | src/server/thread_pool.cc:14-21 | every job taken is executed by exactly one worker |
| ThreadPool.WakeupKept | src/server/thread_pool.cc:38-43 | no wake-up is lost |
| ThreadPool.InvAlways | src/server/thread_pool.cc:5-43 | all of this in every state of every interleaving, spurious wake-ups included |
| ThreadPool.DoneIsExecuted | src/server/thread_pool.cc:18-22 | a job counts as done exactly when a move of some worker has ended its execution |
| ThreadPool.ExecutedOnce | src/server/thread_pool.cc:14-22 | no job is executed twice, by whatever workers |
| ThreadPool.AllAsleepMeansEmpty | src/server/thread_pool.cc:9-12 | when all workers sleep the queue is empty |
| ThreadPool.AllAsleepMeansDone | src/server/thread_pool.cc:9-22 | when all workers sleep every job ever queued has been executed |
| ThreadPool.QueuedJobCanBeTaken | src/server/thread_pool.cc:5-23 | a queued job can always be taken by at most three moves of one worker, without another signal |

## Left out

- Commands.DoZRank: claimed for sets of fewer than 2^32 members, as are ZCOUNT and ZQUERY; beyond that the 32-bit sizes in the tree no longer count the members.
- Dispatching.Dispatch: `strtod` and `strtoll` are not modelled; what they make of a string is an input.
- Wire.PrintResponse: follows the length checks on naturals; the lengths on which the 32-bit sums differ are those of LengthCheckIsExact, and the reads past the buffer that follow there are not modelled.
- Requests.SendReq: excludes the commands whose size of 2^32 or more wraps to at most the message limit, on which the writes leave the buffer.
- Timeouts.NextTimerMs: a time of last activity within 5000 ms of 2^64, on which the addition wraps, is excluded.
- HashTable.HTab.Init: the rounding is the least power of two on naturals; the bit manipulation of the source is treated on its own in Capacities, on 64-bit words.
- Servers.Run: `epoll_ctl` is taken to succeed, and the sets of idle connections to be dropped are given; which connections those are is the subject of IdleList.Run.
- Databases.Database.EntryDel: memory is not modelled; freeing means leaving the live entries for good, and destruction by a worker is a move of the pool.
- Sockets, `accept`, `epoll` set-up, logging, and the command-line client with its file runner.
- `zset_clear` and `hm_clear`, which only free memory.
- IEEE double semantics; doubles travel as opaque eight bytes.
- The quality of the hash function, and running times other than the step bound of `avl_offset`.
