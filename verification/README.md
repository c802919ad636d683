# Verification of the key-value engines and the NtyCo runtime

A Dafny model of the repository's five key-value engines, the text protocol in front of them,
the intrusive trees and queues of the NtyCo runtime, its coroutine scheduler, and the
compare-and-swap protocols of its multi-process samples, with proofs of what they promise.

Code that relinks nodes in place is modelled in place: the red-black trees, the splay tree, the
skip list, the hash chains, the array table, the token buffer and the tail queue are classes or
arrays whose pointer fields are assigned as the C code assigns them. Ghost state says what they
stand for (a tree shape, a node sequence, a map), and each operation is proved against it.
Protocols shared by several processes, and the scheduler, are step machines; their theorems are
about every run.

| file | content |
|---|---|
| `Sequences.dfy`, `Strings.dfy`, `Bindings.dfy` | sequences without repetition; C strings and `strcmp`; lists of bindings as maps and as stacks of values |
| `RedBlack.dfy`, `Links.dfy`, `Search.dfy` | red-black theory on tree shapes with a hole, shapes laid out in memory, search order |
| `RbTree.dfy` | `rbtree.c`, with its sentinel |
| `NtyTree.dfy`, `Splay.dfy` | the `RB_` and `SPLAY_` macros of `nty_tree.h`, over any total order |
| `SkipList.dfy` | `skiptable.c`, string keys |
| `ArrayStore.dfy`, `Chains.dfy`, `HashTable.dfy`, `DHash.dfy` | the array, hash and dhash engines |
| `Protocol.dfy`, `KvStore.dfy`, `Parser.dfy`, `Tokens.dfy`, `Message.dfy` | commands and traces, the dispatcher over the five engines, command words, tokens, whole messages |
| `TailQueue.dfy`, `ReadyPass.dfy`, `SleepTree.dfy`, `SleepRuns.dfy`, `Scheduler.dfy` | the scheduler and its queues |
| `Atomic.dfy`, `AcceptLock.dfy`, `SharedTotal.dfy` | the multi-process samples |

Reading notes:

- A tree operation takes ghost arguments `c` and `t`: the tree is `Plug(c, t)`, the subtree `t`
  in the hole of the context `c`. `Linked` says that every `left`, `right`, `parent` and colour
  field in memory agrees with that shape, `InOrder` adds search order, `Balanced` the red-black
  conditions with a black root.
- Keys shorter than 128 bytes and values shorter than 512 are required where `strncpy` copies
  them into a fixed field; without that the copy would not be terminated.
- `hash.c` sums signed characters. `HashTable.IndexInTable` gives exactly the keys whose bucket
  is inside the table; the operations require such keys.
- Where the engines differ the model follows the code: the red-black tree reads an empty value
  for an absent key, the skip list counts overwriting puts, dhash never looks for duplicates.
  `Protocol.EnginesAgree` says exactly which command traces hide these differences.
- Going to sleep first removes whoever holds the coroutine's stale deadline. `SleepRuns.EarlySleepIff`
  says when that can be another sleeper: if the deadline asked for, wrapped to 64 bits, is not after
  the last expiry, because the clock has stepped back or the deadline has wrapped around.
- `ntyco_httpd.c` indexes its 16 counters by `self_id % cpu_size`. Word 20 of the shared area is the
  accept lock, so from 21 processors on a counter may be the lock. The compare-and-swap of `lock` has
  `unsigned long` operands: on 64 bits it compares the word behind as well, which a counter may be
  from 22 processors on. `AcceptLock.AcceptSafetyIff` has the exact condition for both widths.
- Deleting an absent key whose hash bucket is empty leaves the hash engine's mutex taken; the next
  command that takes it never returns, and the server with it. `Protocol.NeverBlocksIff` says when.
- `add_shmvalue` reads the total again for its result; `SharedTotal.ReturnsStored` says when that is
  the value it stored.
- The ready loop's branch for a coroutine with its end of file marked is never taken in the runs
  of `Scheduler.SchedulerSafety`; `ReadyPass.Pass` describes it nevertheless.

## Model

| member | source | states |
|---|---|---|
| `Strings.StrcmpIsTotalOrder` | rbtree.c:399 | `strcmp` on NUL-terminated byte strings is a total order: 0 exactly on equal strings, antisymmetric, transitive |
| `Strings.StrcmpIsLexicographic` | rbtree.c:399 | the order is that of the bytes, lexicographically: the first byte that differs decides, and a proper prefix comes first |
| `RedBlack.RotatedLeftInorder` | rbtree.c:90-117 | a left rotation keeps the in-order sequence of the rotated subtree |
| `RedBlack.RotatedRightInorder` | rbtree.c:119-146 | a right rotation keeps the in-order sequence of the rotated subtree |
| `RedBlack.PushedBlackness` | rbtree.c:156-163 | with a red uncle, recolouring leaves at most one red-red pair, now two levels higher, and no other damage |
| `RedBlack.RaisedParent` | rbtree.c:173-175 | with a black uncle, the outer rotation leaves no red parent above z and equal black heights |
| `RedBlack.RedSiblingPulled` | rbtree.c:264-271 | deletion case of a red sibling: the rotation keeps "one black short at the hole" and every other red-black condition |
| `RedBlack.SiblingReddened` | rbtree.c:273-277 | deletion case of two black nephews: the shortage moves to the parent, nothing else is damaged |
| `RedBlack.NephewRaised` | rbtree.c:281-287 | deletion case of a red inner nephew: reduced to the outer-nephew case without moving the shortage |
| `RedBlack.Borrowed` | rbtree.c:289-294 | deletion case of a red outer nephew: the whole tree is balanced again |
| `RedBlack.WalkWithoutInner` | NtyCo/core/nty_tree.h:520-563 | putting the in-order successor object into the place of an inner node takes exactly that node out of the walk |
| `RedBlack.LogarithmicHeight` | rbtree.c:391-414 | a balanced tree of n nodes has 2^height <= (n+1)^2, so at most 2*log2(n+1) levels |
| `RbTree.RbTree.constructor` | rbtree.c:429-448 | a valid empty tree: root is the sentinel, which is its own child and black |
| `RbTree.RbTree.LeftRotate` | rbtree.c:90-117 | on the heap: parent and child links stay consistent at every node, the subtree is rotated in place, the in-order sequence is unchanged |
| `RbTree.RbTree.RightRotate` | rbtree.c:119-146 | the mirror image of the left rotation |
| `RbTree.RbTree.InsertStepLeft` | rbtree.c:153-177 | one turn of the fix-up loop keeps "at most one red-red pair, at z" and moves z strictly towards the root |
| `RbTree.RbTree.InsertFixup` | rbtree.c:148-205 | terminates, keeps links and in-order sequence, and ends with every red-black condition and a black root |
| `RbTree.RbTree.Graft` | rbtree.c:232-252 | linking a red leaf where the descent ended and repairing adds exactly that node at its place in the order |
| `RbTree.RbTree.Insert` | rbtree.c:207-253 | an absent key: exactly that node is added at its ordered place and all invariants hold; a present key: nothing changes; the descent takes at most 2*log2(n+1) turns |
| `RbTree.RbTree.Search` | rbtree.c:391-414 | finds the node with the key, or proves no node has it and where it would belong, in at most 2*log2(n+1) turns |
| `RbTree.RbTree.Mini` | rbtree.c:55-62 | the first node of a subtree in order, which has no left child |
| `RbTree.RbTree.Successor` | rbtree.c:73-88 | the next node in order, or the sentinel after the last one, in both branches |
| `RbTree.RbTree.Splice` | rbtree.c:353-374 | a node with at most one child is unlinked; the child gets its parent link even when the child is the sentinel, whose parent field is overwritten |
| `RbTree.RbTree.Unlink` | rbtree.c:338-381 | which node object leaves the walk, where its binding went, and whether one black is now missing at the hole |
| `RbTree.RbTree.DeleteStepLeft` | rbtree.c:259-296 | one turn of the deletion fix-up keeps "one black short" and strictly decreases a measure, in all four cases |
| `RbTree.RbTree.DeleteFixup` | rbtree.c:255-336 | terminates and restores equal black heights, no red-red pair and a black root, keeping links and order |
| `RbTree.RbTree.Delete` | rbtree.c:338-389 | deleting any node of a valid tree removes exactly its binding, frees one node object, and restores every invariant although the sentinel's parent field was used |
| `RbTree.RbTree.Put` | rbtree.c:476-503 | -1 for null arguments, 1 for a bound key and 0 otherwise, binding exactly that key in the map only in the last case |
| `RbTree.RbTree.Get` | rbtree.c:505-514 | null for a null key, the bound value, and the empty value for an absent key |
| `RbTree.RbTree.Count` | rbtree.c:516-519 | the number of bindings after any sequence of operations |
| `RbTree.RbTree.Exist` | rbtree.c:521-534 | -1, 1 or 0 as the key is null, bound or absent |
| `RbTree.RbTree.DeleteKey` | rbtree.c:536-557 | 0 and exactly that binding gone for a bound key, 1 and nothing changed for an absent one, -1 for null |
| `RbTree.RbTree.Destroy` | rbtree.c:450-473 | frees every node once and leaves the tree empty |
| `NtyTree.Head.RotateLeft` | NtyCo/core/nty_tree.h:325-344 | links of all nodes stay consistent with NULL leaves, the in-order sequence is unchanged |
| `NtyTree.Head.InsertColor` | NtyCo/core/nty_tree.h:390-431 | terminates, restores every red-black condition, keeps the walk and the node objects |
| `NtyTree.Head.Insert` | NtyCo/core/nty_tree.h:578-606 | returns the element already there with an equal key and changes nothing, or adds exactly the new object at its ordered place |
| `NtyTree.Head.Find` | NtyCo/core/nty_tree.h:608-623 | the element with the key or null if there is none, in at most 2*log2(n+1) turns |
| `NtyTree.Head.MinMax` | NtyCo/core/nty_tree.h:690-703 | the first or the last element in order, null exactly for an empty tree |
| `NtyTree.Head.RemoveColor` | NtyCo/core/nty_tree.h:433-509 | terminates and restores every red-black condition after a black node has been unlinked, keeping walk and objects |
| `NtyTree.Head.Substitute` | NtyCo/core/nty_tree.h:540-551 | the successor object takes over links and colour of the removed one; every pointer to it is redirected |
| `NtyTree.Head.RemoveInner` | NtyCo/core/nty_tree.h:520-559 | removal of an element with two children, also when the successor is its right child: exactly that object leaves, no key is copied |
| `NtyTree.Head.Remove` | NtyCo/core/nty_tree.h:511-576 | returns the element removed, which is exactly the one given; every other object stays with its key and its place in the order; all invariants hold |
| `Splay.AssembledWalk` | NtyCo/core/nty_tree.h:97-102 | joining the left tree, the middle and the right tree gives their in-order sequences one after the other |
| `Splay.SplHead.StepLeft` | NtyCo/core/nty_tree.h:198-207 | one turn of the splay loop keeps all nodes in the three trees, in order around the key, and shrinks the middle tree or ends |
| `Splay.SplHead.StepRight` | NtyCo/core/nty_tree.h:208-218 | the mirror image of the left turn |
| `Splay.SplHead.Splay` | NtyCo/core/nty_tree.h:189-221 | terminates for any non-empty tree and any key, keeps the in-order sequence and every object, and leaves at the root the key or one of its order neighbours |
| `Splay.SplHead.Find` | NtyCo/core/nty_tree.h:111-119 | the element with the key, or null exactly if there is none; the sequence is unchanged |
| `Splay.SplHead.Insert` | NtyCo/core/nty_tree.h:145-167 | set insert: the element already there, or exactly the new object at its ordered place |
| `Splay.SplHead.Remove` | NtyCo/core/nty_tree.h:169-187 | set remove: reports whether the key was there and removes exactly that element from the sequence |
| `SkipList.LevelWithNode` | skiptable.c:151-155 | relinking one level behind the predecessor gives the chain with the node inserted, all other links as before |
| `SkipList.LevelWithoutNode` | skiptable.c:280-287 | bypassing a node on a level gives the chain without it, whether or not the node was on that level |
| `SkipList.LevelIsChain` | skiptable.c:38 | following one level's links visits exactly the nodes higher than the level and ends in null |
| `SkipList.HigherIsSubsequence` | skiptable.c:134-138 | for any heights, the nodes of level i+1 are a subsequence of those of level i |
| `SkipList.SkipList.constructor` | skiptable.c:349-361 | an empty list: a header with six null links, level 1 |
| `SkipList.SkipList.Levels` | skiptable.c:110-157 | in every state: the links of each level visit strictly sorted nodes, level i+1 is a subsequence of level i, and level 0 has all nodes |
| `SkipList.SkipList.Descend` | skiptable.c:117-125 | the predecessor on every level, with all smaller keys before it and no smaller key behind |
| `SkipList.SkipList.Find` | skiptable.c:214-234 | returns what a linear scan of level 0 would: the value of the key, or null |
| `SkipList.SkipList.RandomLevel` | skiptable.c:134-138 | any height from 1 to 6, whatever the coin tosses |
| `SkipList.SkipList.LinkLevels` | skiptable.c:151-155 | the loop leaves every level, also those above the node, a consistent chain with the node in place |
| `SkipList.SkipList.InsertKey` | skiptable.c:110-157 | for every choice of height: the map gains or replaces exactly that binding; a bound key keeps the node sequence |
| `SkipList.SkipList.UnlinkLevels` | skiptable.c:280-287 | the loop takes the node off every level it is on and leaves all levels consistent |
| `SkipList.SkipList.DeleteNode` | skiptable.c:262-291 | exactly the node of the key is unlinked and freed, or nothing changes if there is none |
| `SkipList.SkipList.Put` | skiptable.c:409-421 | the map is updated, and the counter goes up by one even when a value is only overwritten |
| `SkipList.SkipList.Get` | skiptable.c:424-431 | the bound value or null |
| `SkipList.SkipList.Count` | skiptable.c:433-437 | the number of bindings plus the overwriting puts so far |
| `SkipList.SkipList.Exist` | skiptable.c:453-462 | whether the key is bound |
| `SkipList.SkipList.DeleteKey` | skiptable.c:439-451 | 0 and exactly that binding gone, or -1 and nothing changed; the overwrites counted stay counted |
| `SkipList.SkipList.ClearLevel` | skiptable.c:372-381 | deleting from the front of one level empties it, freeing each of its nodes once |
| `SkipList.SkipList.Destroy` | skiptable.c:364-406 | every node but the header is freed exactly once and every level of the header ends null |
| `ArrayStore.SlotsDistinct` | kvstore.c:213-214 | no two occupied slots hold the same key |
| `ArrayStore.FullTable` | kvstore.c:240-246 | pigeonhole: a table without a free slot holds as many keys as it has slots |
| `ArrayStore.ArrayStore.SearchItem` | kvstore.c:167-198 | the slot of the key, or none exactly if the key is null or unbound |
| `ArrayStore.ArrayStore.FreeSlot` | kvstore.c:239-246 | the search stops inside the table, at the first slot with neither key nor value |
| `ArrayStore.ArrayStore.Set` | kvstore.c:207-256 | fails exactly for null arguments, a bound key or 1023 live keys; otherwise adds exactly that binding, keeping count, distinct keys and whole slots |
| `ArrayStore.ArrayStore.Get` | kvstore.c:259-268 | the bound value or null |
| `ArrayStore.ArrayStore.Count` | kvstore.c:271-274 | `array_count` is the number of bindings |
| `ArrayStore.ArrayStore.Delete` | kvstore.c:277-301 | -1 for null or unbound keys; otherwise exactly that binding is gone and its slot is free again |
| `HashTable.IndexInTable` | hash.c:45-61 | the bucket index is below 1024 always, and non-negative if and only if the signed bytes sum to a non-negative number or a multiple of 1024 |
| `HashTable.SevenBitBucketed` | hash.c:52-61 | keys of 7-bit bytes always get a bucket inside the table |
| `HashTable.HighByteUnbucketed` | hash.c:52-61 | the one-byte key 0xFF gets bucket -1 |
| `HashTable.Hash` | hash.c:45-61 | the loop computes the truncating remainder of the sum of the signed bytes, -1 for null |
| `HashTable.HashTable.Put` | hash.c:123-155 | -1, 1 or 0 as an argument is null, the key bound or new; only a new key changes the map, by exactly that binding |
| `HashTable.HashTable.Get` | hash.c:157-183 | the bound value or null, searching only the bucket of the key |
| `HashTable.HashTable.Count` | hash.c:185-188 | the counter is the size of the map |
| `HashTable.HashTable.Delete` | hash.c:190-238 | -2 for null, -1 for an unbound key, 0 and exactly that binding gone otherwise, for head and inner nodes; the mutex is left taken exactly if no bound key has the bucket of the key |
| `HashTable.HashTable.EmptyBucket` | hash.c:198-201 | a bucket is empty exactly if no bound key belongs there |
| `HashTable.HashTable.Exist` | hash.c:240-248 | whether the key is bound |
| `HashTable.HashTable.Destroy` | hash.c:97-120 | every node is freed once, bucket by bucket, and every bucket ends null |
| `DHash.Wraps` | dhash.c:72-75 | wrapping after the shift, after the sum and after the character gives h*33+c modulo 2^32 |
| `DHash.HashFunction` | dhash.c:67-78 | the loop computes the fold of h*33+c from 5381 modulo 2^32, and an index below 100 for every key |
| `DHash.DHashTable.Put` | dhash.c:81-103 | pushes the value on the stack of its key and leaves every other stack alone |
| `DHash.DHashTable.Get` | dhash.c:106-119 | the newest value of the key, or null |
| `DHash.DHashTable.Count` | dhash.c:122-137 | the sum of the depths of all stacks |
| `DHash.DHashTable.Delete` | dhash.c:140-163 | pops the newest value of the key, re-exposing the one before; -1 and no change for a key without values |
| `DHash.DHashTable.Exist` | dhash.c:166-180 | whether the key has a value |
| `Bindings.TotalIsLength` | dhash.c:122-137 | the depths of the stacks add up to the number of linked nodes |
| `Bindings.PoppedOff` | dhash.c:155-156 | unlinking the first node of a key in any position pops its stack and leaves the others alone |
| `Protocol.ReplyTable` | kvstore.c:620-1128 | the reply of each engine to each request in any state, spelled out: SET of a bound key fails on array, rbtree and hash and succeeds on dhash and skip list, the array fails at 1023 keys, GET of an absent key says so except on the rbtree, which replies an empty value; null arguments included |
| `Protocol.StateTable` | kvstore.c:620-1128 | the bindings of each engine after each request in any state, spelled out, a dhash delete re-exposing the value before |
| `Protocol.BlockTable` | hash.c:123-199 | which commands wait for the mutex of the hash engine once it is left taken |
| `Protocol.OtherEnginesKept` | kvstore.c:620-1128 | the abstract step of a command leaves the other engines alone by the way it is written; that the code does is the frame of `KvStore.KvStore.Dispatch` |
| `Protocol.Isolation` | kvstore.c:600-1129 | over any trace in which no command blocks, an engine replies as if the commands to the other engines had not been given |
| `Protocol.AnswersLikeMap` | kvstore.c:620-1128 | in a state where an engine holds the bindings of a map, it answers any allowed request as the map would |
| `Protocol.Disagreement` | kvstore.c:620-1128 | any request that is not allowed gets different replies from two of the engines |
| `Protocol.RefinesMap` | kvstore.c:600-1129 | along every allowed run each of the five engines gives the replies of a plain map |
| `Protocol.TellsApart` | kvstore.c:600-1129 | along every other run some engine and the array engine give different replies |
| `Protocol.NeverBlocksIff` | hash.c:190-238 | over any trace, no command waits for the mutex of the hash engine if and only if each hash delete that meets an empty bucket is the last command that takes it |
| `Protocol.AllAnswered` | kvstore.c:600-1129 | a trace in which nothing blocks answers every request of every engine; any other leaves a request to the hash engine without reply |
| `Protocol.EnginesAgree` | kvstore.c:600-1129 | for any interleaving that makes the same requests of all engines: all requests are answered with identical replies if and only if every SET names an absent key with fewer than 1023 live, every GET a present one, and a delete that meets an empty hash bucket is the last request that locks; and then the replies are those of a map |
| `Protocol.RepliesAreAnswers` | kvstore.c:600-1129 | an engine's replies are the replies of the trace to its own commands, in order |
| `KvStore.OnArray` | kvstore.c:625-721 | the five array commands of the dispatcher refine the abstract engine |
| `KvStore.OnRbTree` | kvstore.c:728-820 | the five red-black tree commands refine the abstract engine |
| `KvStore.OnHash` | kvstore.c:836-928 | the five hash commands refine the abstract engine |
| `KvStore.OnDHash` | kvstore.c:933-1025 | the five dhash commands refine the abstract engine |
| `KvStore.OnSkipList` | kvstore.c:1031-1123 | the five skip list commands refine the abstract engine |
| `KvStore.KvStore.Execute` | kvstore.c:600-1129 | on the heap: the reply and the new state of all five engines are those of the abstract step, or the command blocks and nothing changes |
| `KvStore.KvStore.Dispatch` | kvstore.c:620-1128 | on the heap a command changes the objects of its own engine only, and its engine as the abstract step says |
| `KvStore.KvStore.constructor` | kvstore.c:540-572 | all engines are new and empty, with nodes and arrays of their own |
| `KvStore.Serve` | kvstore.c:540-572 | from a new store, any interleaving of the same requests: each engine gives its abstract replies; all are answered identically exactly under the condition of `Protocol.EnginesAgree`, and then as by a map |
| `KvStore.KvStore.ExecuteAll` | kvstore.c:1173-1206 | a whole run of commands on the heap gives the replies and the final state of the abstract run, up to a command that blocks |
| `Parser.CommandIs` | kvstore.c:70-101 | the thirty command words are pairwise different, so the first match is the only one |
| `Parser.FindCommand` | kvstore.c:610-615 | the loop finds the index of the word, or the end of the table exactly if no entry matches |
| `Parser.EveryCommandHasItsWord` | kvstore.c:22-101 | exactly the bytes of the prefix (none, R, H, D, Z) and of SET, GET, COUNT, DELETE or EXIST ask for that operation of that engine, with tokens 1 and 2; the SET of the array needs three tokens |
| `Parser.OtherWords` | kvstore.c:600-615 | any other word, those of the B-tree among them, returns 0; without a word the return code is 30 |
| `Parser.ShortSetAborts` | kvstore.c:625-628 | SET aborts exactly if there are not three tokens |
| `Parser.ParseProtocol` | kvstore.c:600-1129 | no tokens: code 30; an unknown or B-tree word: 0; SET without three tokens: abort, each without a state change; otherwise the command is carried out, or blocks |
| `Tokens.Strtok` | kvstore.c:1136-1141 | one call skips spaces, ends the token with a NUL and leaves every other byte alone; NULL exactly if only spaces are left |
| `Tokens.SplitTokens` | kvstore.c:1132-1148 | the tokens are exactly the maximal space-free runs in order, and each stored pointer still reads its run after all NULs are written; it writes behind the end of `tokens` if and only if there are more runs than places |
| `Tokens.StartsAreRuns` | kvstore.c:1132-1148 | the places where space-free runs start are as many as the maximal runs |
| `Tokens.RunsUnique` | kvstore.c:1132-1148 | a message has only one list of maximal space-free runs |
| `Tokens.JoinMaximal` | kvstore.c:1132-1148 | in tokens joined by single spaces the maximal runs are the tokens |
| `Tokens.SplitJoined` | kvstore.c:1132-1148 | splitting up to 32 non-empty, space-free and NUL-free tokens joined by single spaces gives the same list back |
| `Message.HandleMessage` | kvstore.c:1151-1171 | a message of at most 32 words is carried out with its words as tokens and null pointers behind them; with more, exactly then, `tokens` is overrun |
| `Message.HandleBuffer` | kvstore.c:1151-1188 | received bytes are read past their end if and only if there is no NUL among them; otherwise the message before the first NUL is handled as above |
| `Message.HandleCommand` | kvstore.c:1151-1171 | the word of an operation of an engine, a key and a value, joined by single spaces, carries out exactly that operation of that engine; the word is given by its bytes |
| `TailQueue.Queue.InsertTail` | NtyCo/core/nty_queue.h:530-538 | appends the element; all forward links and back addresses are those of the longer sequence |
| `TailQueue.Queue.Remove` | NtyCo/core/nty_queue.h:548-562 | removes exactly that element from the sequence, wherever it is, through the stored addresses |
| `TailQueue.Queue.Back` | NtyCo/core/nty_queue.h:540-541 | reading the tail address as a head gives the last element, or null for an empty queue |
| `TailQueue.Queue.Front` | NtyCo/core/nty_queue.h:462-464 | the first element, null exactly for an empty queue |
| `ReadyPass.Resume` | NtyCo/core/nty_coroutine.c:226-277 | a resumed coroutine can only append to the queue: new coroutines, and itself at the end |
| `ReadyPass.Turns` | NtyCo/core/nty_schedule.c:330-341 | the loop stops after the coroutine that was last when it began, or at the first with its end of file marked |
| `ReadyPass.Pass` | NtyCo/core/nty_schedule.c:328-341 | resumes exactly the coroutines queued when it began, once each and in FIFO order, up to one that met its end of file, which is freed; those queued meanwhile are left |
| `SleepTree.SleepCmpIsTotalOrder` | NtyCo/core/nty_schedule.c:55-63 | the deadline comparison is a total order |
| `SleepTree.Crowded` | NtyCo/core/nty_schedule.c:97-106 | pigeonhole over wrapping deadlines: if the first i deadlines tried are taken there are at least i sleepers |
| `SleepTree.Settle` | NtyCo/core/nty_schedule.c:97-106 | the insertion loop terminates with the first free deadline, after at most as many collisions as there are sleepers |
| `SleepTree.SleepDown` | NtyCo/core/nty_schedule.c:87-109 | whoever holds the stale deadline is removed, then the coroutine sleeps until the first free deadline from now + 1000*msecs on (modulo 2^64); all other deadlines are unchanged; with 0 msecs it is not inserted |
| `SleepTree.LeastFree` | NtyCo/core/nty_schedule.c:95-106 | without wrap-around the deadline is the least free one, exceeding the base by the number of collisions |
| `SleepTree.Expired` | NtyCo/core/nty_schedule.c:248-259 | removes and returns the earliest sleeper if it is due, and otherwise changes nothing |
| `SleepTree.Drain` | NtyCo/core/nty_schedule.c:323-327 | for a fixed clock, repeated calls take exactly the due sleepers in increasing order |
| `SleepTree.MinTimeout` | NtyCo/core/nty_schedule.c:268-281 | the timeout makes the first sleeper due and nobody earlier; the default without sleepers |
| `SleepRuns.SleepStep` | NtyCo/core/nty_schedule.c:87-109 | going to sleep on the heap is the step of the machine that the runs are made of |
| `SleepRuns.ExpireStep` | NtyCo/core/nty_schedule.c:248-259 | expiry on the heap is the step of the machine, or nobody is due |
| `SleepRuns.NoSleeperLost` | NtyCo/core/nty_schedule.c:87-109 | over every run whose sleeps get a deadline after every expiry so far, in particular with a clock that never steps back, going to sleep drops no other sleeper |
| `SleepRuns.EarlySleepIff` | NtyCo/core/nty_schedule.c:90-95 | with all other sleeps timely, a sleep at reading b for m msecs after a last expiry at reading a can cost another coroutine its place in the tree if and only if (b + 1000*m) mod 2^64 <= a |
| `SleepRuns.ClockStepsBack` | NtyCo/core/nty_schedule.c:90-95 | a run in which the clock steps back by a millisecond and a sleeper is dropped |
| `SleepRuns.DeadlineWraps` | NtyCo/core/nty_schedule.c:88-95 | an instance with a forward clock: the deadline asked for wraps around 2^64 and a sleeper is dropped |
| `SleepRuns.ReplayForward` | NtyCo/core/nty_schedule.c:87-109 | the same on the heap: a run of the real tree with a forward clock drops nobody |
| `Scheduler.TakeInv` | NtyCo/core/nty_schedule.c:330-341 | taking the front of the ready queue keeps the scheduler invariant |
| `Scheduler.WakeInv` | NtyCo/core/nty_schedule.c:345-359 | handling an event finds its waiter and keeps the invariant, with or without EPOLLHUP |
| `Scheduler.DeschedInv` | NtyCo/core/nty_socket.c:108-116 | a woken coroutine leaves epoll and the wait tree together |
| `Scheduler.WaitInv` | NtyCo/core/nty_socket.c:93-106 | a coroutine that waits enters epoll and the wait tree together |
| `Scheduler.QueueInv` | NtyCo/core/nty_coroutine.c:258-277 | renice (every fifth time) and sleep(0) queue the running coroutine and nothing else |
| `Scheduler.ExitInv` | NtyCo/core/nty_coroutine.c:245-253 | a coroutine that returns is freed and no longer counted |
| `Scheduler.StepInv` | NtyCo/core/nty_schedule.c:316-363 | every step of the loop and of a running coroutine keeps the invariant |
| `Scheduler.SchedulerSafety` | NtyCo/core/nty_schedule.c:121-183 | over every run: each live coroutine is in exactly one of ready or waiting when the scheduler has control, waiting keys are the epoll interest apart from the trigger, `spawned_coroutines` counts the live ones, every event finds its waiter, the loop ends only when none is left, and no coroutine marked with end of file is ever queued |
| `Scheduler.EventsAreHandled` | NtyCo/core/nty_schedule.c:345-362 | in every run, from the delivery of events to the next turn of the loop, the coroutines resumed by events are the waiters of the delivered descriptors, each once, from the last event to the first |
| `Scheduler.ReadyPassTakesQueue` | NtyCo/core/nty_schedule.c:328-341 | in every run, a ready phase takes exactly the coroutines queued at its start, once each and in order; creations, sleep(0) and every fifth renice meanwhile stand behind in the order they were queued |
| `Scheduler.NothingElseHappens` | NtyCo/core/nty_coroutine.c:175-349 | in every run, live coroutines are those created and not returned, and waiters are those who asked to wait and were not woken since |
| `Scheduler.EndsWhenNoneLeft` | NtyCo/core/nty_schedule.c:261-266 | the loop ends exactly when it is tested with no coroutine left |
| `Scheduler.WakeMarks` | NtyCo/core/nty_schedule.c:350-358 | a waiter is marked with end of file exactly for EPOLLHUP, until it has left the wait tree |
| `Scheduler.NeverStuck` | NtyCo/core/nty_schedule.c:316-363 | in every run some step is possible until the loop has ended |
| `Atomic.Int32Is` | NtyCo/sample/ntyco_httpd.c:139-161 | a wrapped value is the `int` congruent to it modulo 2^32 |
| `Atomic.WrapsOnce` | NtyCo/sample/ntyco_httpd.c:139-161 | wrapping to 32 bits at each addition or once at the end is the same |
| `AcceptLock.StepInv` | NtyCo/sample/ntyco_httpd.c:419-451 | as long as no process counts in a word that `lock` compares, every atomic step of any process keeps: lock word = number of processes inside, every other word = open connections of its processes |
| `AcceptLock.AcceptSafety` | NtyCo/sample/ntyco_httpd.c:186-193 | if no process has slot 20, where `accept_mtx` lies, nor on 64 bits slot 21, which `lock` compares with it, then under every interleaving of any number of processes: at most one is between lock and unlock, the lock word is 1 exactly while one is, and each slot counts the connections counted in and not out by its processes |
| `AcceptLock.ProcessAccount` | NtyCo/sample/ntyco_httpd.c:419-451 | in every run, a process has returned exactly if it failed to accept and then unlocked; it has counted in every connection it accepted but one it is about to; and it serves those counted in and not out |
| `AcceptLock.FreeLockIsTaken` | NtyCo/sample/ntyco_httpd.c:429-432 | in every run of processes apart from the lock, one that tries while nobody is inside gets in |
| `AcceptLock.TakenLockIsTriedAgain` | NtyCo/sample/ntyco_httpd.c:429-432 | one that tries while somebody is inside changes nothing and goes on trying |
| `AcceptLock.SmallMachines` | NtyCo/sample/ntyco_httpd.c:77-92 | up to 20 processors that is always so; up to 16 every slot is inside `totalfds` and `cpu_lb` stays untouched |
| `AcceptLock.TwoInside` | NtyCo/sample/ntyco_httpd.c:186-193 | a process with slot 20 and any other one have a run that ends with both between lock and unlock |
| `AcceptLock.AcceptSafetyIff` | NtyCo/sample/ntyco_httpd.c:80-92 | on 64 and on 32 bits: every run keeps lock and counters right if and only if no process has a slot that `lock` compares (20, and on 64 bits 21); every run keeps two processes from being inside at once if and only if that holds or there is only one process |
| `AcceptLock.TwentyOneProcessors` | NtyCo/sample/ntyco_httpd.c:80-92 | a failing run with 21 processors, on either width |
| `AcceptLock.LockPassedBy` | NtyCo/sample/ntyco_httpd.c:104-131 | on 64 bits a connection counted in slot 21 makes `lock` return 0 without taking the lock |
| `AcceptLock.TwentyTwoProcessors` | NtyCo/sample/ntyco_httpd.c:104-131 | a failing run on 64 bits with 22 processors in which no process has slot 20 |
| `SharedTotal.StepInv` | NtyCo/sample/nty_server_mulcore.c:286-312 | every read, compare-and-swap and test of any process keeps the account of who has changed the total, and on 64 bits the field behind it, which the swap covers, is the sign of the total |
| `SharedTotal.NoUpdateLost` | NtyCo/sample/nty_server_mulcore.c:286-312 | under every interleaving: a call that has left its loop has changed the total exactly once by one, and the total is additions minus subtractions whenever no process is between its swap and its test |
| `SharedTotal.CallsAccounted` | NtyCo/sample/nty_server_mulcore.c:286-312 | in every run, the additions and subtractions a process has started are those that have left their loop and the one still in it: no call is given up |
| `SharedTotal.TotalOfCalls` | NtyCo/sample/nty_server_mulcore.c:286-312 | when every call has returned, the total is the number of additions started minus subtractions, modulo 2^32 |
| `SharedTotal.UndisturbedCall` | NtyCo/sample/nty_server_mulcore.c:286-312 | without interference a call takes one turn of its loop, changes the total by one and returns what it stored |
| `SharedTotal.ReturnsStored` | NtyCo/sample/nty_server_mulcore.c:286-312 | in every run, a call that returns has swapped once and returns the value it stored if and only if what the other processes have swapped in since cancels modulo 2^32; so it does whenever none of them has |
| `SharedTotal.AddsReturnTheSame` | NtyCo/sample/nty_server_mulcore.c:297 | a run, on either width, in which the others do not cancel: two additions from 0 both return 2 |

## Left out

- Memory: `malloc` failure, use after free and stack copying; freeing is only the ghost list of freed nodes that `Destroy` returns.
- Concurrent use of the engines: one thread serves all coroutines. Of the mutexes only that of the hash engine is modelled, because one path leaves it taken; the others are released on every path.
- The `int` width of `nb_elements`, `count` and `array_count`: they are unbounded integers here. So is the character sum of `_hash`, which keys under 128 bytes keep small.
- Skip list `forward` arrays are sequence-valued fields of the nodes, and `update` is a local sequence: an assignment to one entry is an update of the sequence.
- `rbtree.c`: the sentinel's parent field, zero after `init_rbtree`, starts as the sentinel itself; nothing reads it before it is written.
- `SkipList.SkipList.Exist`: a null key is excluded, because the code compares it without a check; the same holds for `DeleteKey`.
- `DHash.DHashTable.Put`: null arguments are excluded, because the code dereferences them; the same holds for the other dhash operations.
- `HashTable.HashTable.Put`: keys whose bucket index is negative are excluded, because the code then writes outside the table.
- `init_hashtable`: buckets start null here; the code relies on that without storing it (hash.c:85-90).
- What the code does after it has written behind `tokens` or read past a receive buffer without NUL.
- `SPLAY_REMOVE` returns its argument; the model returns whether the key was found.
- `RB_NEXT`, `RB_PREV`, `RB_NFIND`, `SPLAY_NEXT` and `SPLAY_MINMAX`, which the modelled code does not use, and the list macros of `nty_queue.h` other than the tail queue operations of the scheduler.
- Replies are the values printed, not the bytes `snprintf` writes into the message, nor its return value; logging and printing are absent.
- The B-tree commands are empty cases and the memory pool and the integer-key skip list are compiled out.
- Sockets, epoll and context switching: a running coroutine is a sequence of scheduler calls ended by a yield, and epoll reports any list of distinct watched descriptors except the trigger, on which nothing is ever written.
- Meaning of the wait status bits, timed waits other than timeout 1, and timed sleep mixed with waiting; the sleep tree is treated on its own.
- Descriptors closed while another coroutine waits on them, and two coroutines waiting on one descriptor, which the code excludes with an assertion.
- `SleepTree.SleepDown`: the clock reading is a parameter, and fewer than 2^64 coroutines sleep at a time.
- `AcceptLock.Laid`: there is a word for every slot; beyond 1024 processors a slot may lie outside the shared page and counting there faults.
- Crashes of server processes while they hold the accept lock.
- The other samples, clients, test driver, HTML and CGI files.
