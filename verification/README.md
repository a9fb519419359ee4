# A Dafny model of the data structures and protocols of the key-value store repository

The repository collects small self-contained C and C++ components: two red-black tree
maps, a lock-free queue, a thread pool, a cache, a B+ tree, a slab allocator and an
event-driven configuration loader.  This project models the hard parts of each and proves
what they are for.  The project file is `dfyconfig.toml`.

| files | component | form |
|---|---|---|
| `KVRedBlackTree.dfy` | `KV_Store/RBTree.cpp`, null leaves and a passed parent | a class with nodes, parent links and loops |
| `SentinelRBTree.dfy` | `Red_Black_Tree/RBTree.hpp`, one shared `nil` whose parent is borrowed | a class with nodes, parent links and loops |
| `RBShape.dfy`, `RBMemory.dfy`, `RBBalance.dfy`, `RBContents.dfy`, `RBUpdates.dfy` | what both trees share | shapes, paths, memory snapshots and lemmas |
| `LockfreeQueue.dfy`, `LockfreeHistory.dfy`, `LockfreeProgress.dfy` | `atomic/LockfreeQueue.cpp` | a step system over a heap of nodes, the history of a run, and its progress |
| `ThreadPool.dfy`, `ThreadPoolProgress.dfy`, `ThreadPoolLiveness.dfy` | `ThreadPool/Threadpool.cpp` | a step system with a mutex and sleepers, its wakeups and joins, and its liveness |
| `ConfigLoader.dfy` | `spdk_filesystem/json_config.c` | a class that handles events |
| `LRUCache.dfy` | `LRU_with_TTL/LRUCache.cpp` | histories of calls, and a class proved against them |
| `BPlusLeaves.dfy`, `BPlusSeparators.dfy`, `BPlusRootSplit.dfy`, `BPlusLostOrder.dfy`, `BPlusTree.dfy` | `KV_Store/BplusTree.cpp` | layouts of leaves, and classes proved against them |
| `Slab.dfy` | `KV_Store/simple_slab.c` | a byte array with links in it |
| `Common.dfy` | used by several | an option type and two facts about sequences |

## How the pieces are modelled

**Red-black trees.**  A tree value is a *shape*; a position in it is a *path* (the
ancestors, each with the sibling subtree) together with the subtree below.  The classes
keep a ghost shape, and `Wired` says that every left, right, parent and colour field of
every node, and the root, is what the shape says.  The loops follow the path, so a step of
a fix-up is one lemma about a path and a subtree, stated once for both sides.  `Climbing`
says that the only flaw is a red node that may have a red parent; `Deficient` says that
one subtree is one black short.  The early `break`s in `fix_insert` and `fix_delete` are
kept as branches that are proved dead.

**Lock-free queue.**  Each atomic load and each compare-and-swap is one step of one of any
number of threads; a weak compare-and-swap may fail for no reason.  The contents of the
queue are read off the heap by following links; the chain is a consequence, not part of
the state.

**Thread pool.**  Workers, callers of `add_task` and the destructor interleave freely; a
wait releases the mutex and sleeps in one step, and may end for no reason.

**Configuration loader.**  The file is a list of subsystems with entries; an entry is
undecodable, unregistered, or a method with its two permissions.  Pollers, messages,
responses and the end of subsystem initialisation are events whose order and outcome the
environment chooses.

**LRU cache.**  Each call reads the clock once, and the clock does not go back.

**B+ tree.**  A layout lists the leaves in the order of their `next` links, including the
empty ones the root has dropped, and the places of those it still points to.

**Slab.**  A link is an eight byte address stored in the first bytes of a free block;
holders may overwrite any byte of their own blocks.  The byte array goes on behind the
page, with the memory of others, who may overwrite it.

## Properties that hold only under a condition

* Tasks are *taken* from the pool's queue in push order, but with two workers the later
  one can *start* first, since a task runs after the lock is released.
  `ThreadPool.Overtaking` gives the schedule and `ThreadPool.StartOrder` the exact
  condition: at most one worker.
* A lookup in the B+ tree goes left on equality, while a promoted key lives in the right
  leaf.  In every run that does not insert a stored key, each separator is stored and
  hidden, and a lookup finds, and a removal takes, a stored key if and only if it is not a
  separator: `BPlusSeparators.SeparatorsAreLost`.  Range queries are exact nevertheless.
  `BPlusTree.LookupMisses` inserts 1, 2, 3, 4 into a tree of degree two: 2 is listed by a
  range query, is not found, and is still listed after its removal.
* The leaves of a two-level tree are in order in every run.  An insert that splits a full
  internal root promotes a separator from the left half and drops the middle one, and the
  left half keeps one child too many.  A key *strays* if it is sent to the last leaf the
  left half can reach, that leaf is full and the key belongs to its upper half: the new
  half is then appended behind another child, which gets the key; this takes a degree of
  two or three.  The insert keeps the order if and only if its key is not smaller than
  anything in the left half, or is at most the promoted one and, if it strays, not smaller
  than anything in the leaf it was sent to: `BPlusRootSplit.SplitOrder`.
  `BPlusLostOrder.OrderIsLost` and `BPlusLostOrder.StrayIsLost` give runs, of eight and of
  nine inserts, after which a range query misses a stored key.
* The tree of `BPlusTree.LookupMisses` fails its own `validate`: the smallest key is not reset between children,
  so `BPlusTree.Tree.Validate` passes exactly the empty tree and a lone leaf with
  increasing keys.
* The slab writes a null word behind its last block.  It reaches out of the page if and
  only if the block size leaves fewer than eight bytes over: `Slab.InitSlab` says which
  bytes change, and `Slab.SixteenOverruns` is the case of the source's own example.  The
  free list does not depend on that word.
* The loader's callback runs at most once as long as no poll fails while nothing is
  outstanding (`ConfigLoader.AtMostOnce`, and `ConfigLoader.Drive` for whole runs).  A poll
  that fails with nothing outstanding leaves a message or the initialisation to come, which
  can run it again: in every state with a poller a failing poll leads to one callback if a
  request is outstanding and can lead to two if none is (`ConfigLoader.FailPoll`), and
  `ConfigLoader.CalledTwice` is a run on an empty file.

## Model

| member | source | states |
|---|---|---|
| `KVRedBlackTree.RedBlackTree.Remove` | KV_Store/RBTree.cpp:393-451 | on a valid tree: a valid tree (key order, all links, black root, no red-red edge, equal black counts, count) that stands for the old map without the key; true exactly if the key was there |
| `KVRedBlackTree.RedBlackTree.Unlink` | KV_Store/RBTree.cpp:397-435 | the node is out of all links and of the map; if a black node went, the place of `x` under `parent` is exactly one black short, otherwise all rules hold |
| `KVRedBlackTree.RedBlackTree.RepairAfterUnlink` | KV_Store/RBTree.cpp:437-447 | from one black short to a red-black tree with the same entries; the case without a parent does not arise |
| `KVRedBlackTree.RedBlackTree.FixDelete` | KV_Store/RBTree.cpp:214-303 | terminates; from a deficient place to a red-black tree with the same entries, all links right; none of its null breaks is reached, also when the node is null |
| `KVRedBlackTree.RedBlackTree.FixDeleteLeft` | KV_Store/RBTree.cpp:223-259 | one round for a left position: done with all rules, or a deficient place strictly higher, or a red one |
| `KVRedBlackTree.RedBlackTree.FixDeleteRight` | KV_Store/RBTree.cpp:260-297 | the mirror image |
| `KVRedBlackTree.RedBlackTree.Transplant` | KV_Store/RBTree.cpp:198-211 | exactly the parent's child link (or the root) and the parent link of `v` change |
| `KVRedBlackTree.RedBlackTree.SpliceSuccessor` | KV_Store/RBTree.cpp:411-435 | the leftmost node of the right subtree takes the node's place and colour, and `x` stands where it was, under the `parent` that the code computes |
| `KVRedBlackTree.RedBlackTree.Insert` | KV_Store/RBTree.cpp:349-390 | a valid tree for the old map with the key bound to the value; true exactly if the key is new |
| `KVRedBlackTree.RedBlackTree.FixInsert` | KV_Store/RBTree.cpp:111-171 | terminates; from one possible red-red edge to a red-black tree with the same entries; the grandparent breaks are not reached |
| `KVRedBlackTree.RedBlackTree.LeftRotate` | KV_Store/RBTree.cpp:61-83 | all links agree with the rotated shape, and the entries keep their order |
| `KVRedBlackTree.RedBlackTree.RightRotate` | KV_Store/RBTree.cpp:86-108 | the mirror image |
| `KVRedBlackTree.RedBlackTree.FindNode` | KV_Store/RBTree.cpp:183-195 | null exactly if the key is not in the map; otherwise the node that holds its value |
| `KVRedBlackTree.RedBlackTree.Find` | KV_Store/RBTree.cpp:454-460 | the value the map has for the key, if any |
| `KVRedBlackTree.RedBlackTree.ValidateRb` | KV_Store/RBTree.cpp:315-335 | true exactly if the subtree has no red-red edge and every path to a leaf counts as many blacks as the path count that comes in, or as the first path when none does |
| `KVRedBlackTree.RedBlackTree.Validate` | KV_Store/RBTree.cpp:519-536 | on any well linked tree: true exactly if it is red-black |
| `KVRedBlackTree.RedBlackTree.GetHeight` | KV_Store/RBTree.cpp:564-566 | every node is less deep than the height and one is just that deep; the height is at most 2 * floor(log2(count + 1)) |
| `KVRedBlackTree.RedBlackTree.Inorder` | KV_Store/RBTree.cpp:484-488 | all bindings of the map, by strictly increasing key |
| `KVRedBlackTree.Replay` | KV_Store/RBTree.cpp:349-536 | for every run of inserts and removes on a new tree: every answer is that of the map, `validate` then returns true, the height bound holds and `inorder` lists the map |
| `RBBalance.InsertRecolour` | KV_Store/RBTree.cpp:120-125 | red uncle: recolouring moves the only possible flaw two levels up |
| `RBBalance.InsertInner` | KV_Store/RBTree.cpp:127-134 | inner node: the rotation keeps the only flaw and makes the node outer |
| `RBBalance.InsertOuter` | KV_Store/RBTree.cpp:136-139 | outer node: recolouring and one rotation leave no flaw |
| `RBBalance.InsertHasGrandparent` | KV_Store/RBTree.cpp:112-115 | a red parent has a black parent itself, so the break is dead |
| `RBBalance.DeleteHasSibling` | KV_Store/RBTree.cpp:224-225 | a deficient place that is not the root has a sibling |
| `RBBalance.DeleteRedSibling` | KV_Store/RBTree.cpp:227-234 | case 1 keeps the deficit where it is and brings a black, non-null sibling |
| `RBBalance.DeleteRecolour` | KV_Store/RBTree.cpp:236-241 | case 2 moves the deficit to the parent |
| `RBBalance.DeleteNear` | KV_Store/RBTree.cpp:243-250 | case 3 keeps the deficit and brings a black sibling with a red far child |
| `RBBalance.DeleteFar` | KV_Store/RBTree.cpp:252-258 | case 4 removes the deficit: the whole tree is red-black |
| `RBBalance.DeleteDone` | KV_Store/RBTree.cpp:300-302 | blackening a red node, or the root, removes the deficit |
| `RBBalance.CutRules` | KV_Store/RBTree.cpp:401-410 | cutting out a node with one child leaves a deficit exactly of its black, or none if it was red |
| `RBBalance.SpliceRules` | KV_Store/RBTree.cpp:411-435 | replacing a node by its successor leaves the deficit at the successor's old place |
| `RBBalance.UniformIsBalanced` | KV_Store/RBTree.cpp:315-335 | counting blacks down to every leaf agrees with equal black heights at every node |
| `RBBalance.HeightBound` | KV_Store/RBTree.cpp:705-713 | every red-black tree of n entries is at most 2 * floor(log2(n + 1)) high |
| `RBBalance.HeightIsDepth` | KV_Store/RBTree.cpp:338-341 | for every tree the recursive height is one more than the depth of the deepest node |
| `RBContents.SpliceContents` | KV_Store/RBTree.cpp:411-435 | replacing by the successor takes exactly the removed key out of the sorted entries |
| `RBUpdates.AttachSpec` | KV_Store/RBTree.cpp:362-385 | a red leaf at the place of a missing key: sorted, one entry more, the map with the binding, at most one flaw |
| `RBUpdates.CutSpec` | KV_Store/RBTree.cpp:401-410 | order, size, map and rules after cutting a node with at most one child |
| `RBUpdates.SpliceSpec` | KV_Store/RBTree.cpp:411-435 | order, size, map and rules after the successor took the place |
| `RBMemory.TurnInPlace` | KV_Store/RBTree.cpp:61-108 | the pointer writes of a rotation turn a memory that stores a shape into one that stores the rotated shape |
| `RBMemory.CutInPlace` | KV_Store/RBTree.cpp:198-211 | the writes of a transplant store the shape without the node |
| `RBMemory.VacateRemote` | KV_Store/RBTree.cpp:418-423 | a successor from deeper down has left its place and taken the right subtree |
| `RBMemory.TakeOver` | KV_Store/RBTree.cpp:429-434 | with the node's parent link, left subtree and colour the successor stands in its place |
| `SentinelRBTree.RBTree.Remove` | Red_Black_Tree/RBTree.hpp:383-423 | all invariants, with the parent of `nil` cleared, and the old map without the key |
| `SentinelRBTree.RBTree.RemoveNode` | Red_Black_Tree/RBTree.hpp:387-422 | from a valid tree to a valid tree although the parent of `nil` is borrowed in between |
| `SentinelRBTree.RBTree.Unlink` | Red_Black_Tree/RBTree.hpp:387-415 | `x`, possibly `nil`, stands where a black may be missing and its parent field is the true parent |
| `SentinelRBTree.RBTree.DeleteFixup` | Red_Black_Tree/RBTree.hpp:304-380 | terminates; the parent field of `x` is the true parent in every round, also when `x` is `nil`; the parent of `nil` is not overwritten, `nil` stays black, the result is red-black with the same entries |
| `SentinelRBTree.RBTree.DeleteFixupLeft` | Red_Black_Tree/RBTree.hpp:307-342 | one round for a left position, `x` keeping its true parent throughout |
| `SentinelRBTree.RBTree.DeleteFixupRight` | Red_Black_Tree/RBTree.hpp:343-375 | the mirror image |
| `SentinelRBTree.RBTree.Transplant` | Red_Black_Tree/RBTree.hpp:255-268 | the links of the shape, and the parent of `v` even when `v` is `nil` |
| `SentinelRBTree.RBTree.SpliceSuccessor` | Red_Black_Tree/RBTree.hpp:397-415 | the successor takes the place; the parent of `x` is right in both the direct and the remote case |
| `SentinelRBTree.RBTree.LeftRotate` | Red_Black_Tree/RBTree.hpp:91-110 | all links agree with the rotated shape; `nil` is not touched |
| `SentinelRBTree.RBTree.RightRotate` | Red_Black_Tree/RBTree.hpp:113-132 | the mirror image |
| `SentinelRBTree.RBTree.InsertFixup` | Red_Black_Tree/RBTree.hpp:135-187 | terminates; from one possible red-red edge to a red-black tree with the same entries |
| `SentinelRBTree.RBTree.Insert` | Red_Black_Tree/RBTree.hpp:190-236 | all invariants; a new key is bound, an existing one keeps its value |
| `SentinelRBTree.RBTree.SearchNode` | Red_Black_Tree/RBTree.hpp:271-283 | null exactly if the key is not in the map; otherwise the node that holds its value |
| `SentinelRBTree.RBTree.Get` | Red_Black_Tree/RBTree.hpp:286-292 | the value of the map, or the exception |
| `SentinelRBTree.RBTree.Modify` | Red_Black_Tree/RBTree.hpp:295-301 | rebinds an existing key and changes nothing otherwise |
| `SentinelRBTree.RBTree.InOrder` | Red_Black_Tree/RBTree.hpp:450-467 | the walk with an explicit stack lists the entries of the shape in order |
| `SentinelRBTree.RBTree.CheckBlackHeight` | Red_Black_Tree/RBTree.hpp:521-536 | appends the number of blacks to every leaf, from left to right |
| `SentinelRBTree.RBTree.VerifyRBProperties` | Red_Black_Tree/RBTree.hpp:494-551 | on any well linked tree: true exactly if it is red-black |
| `SentinelRBTree.Replay` | Red_Black_Tree/RBTree.hpp:190-551 | for every run of insert, modify and remove on a new tree: `verifyRBProperties` returns true, and listing and lookup are those of the map |
| `LockfreeQueue.ChainStep` | atomic/LockfreeQueue.cpp:44-98 | every legal write keeps one acyclic null-terminated chain with head not past tail and tail last or last but one |
| `LockfreeQueue.StepInv` | atomic/LockfreeQueue.cpp:40-112 | every step of any thread keeps the chain and what every other thread knows about its local pointers |
| `LockfreeQueue.AlwaysChained` | atomic/LockfreeQueue.cpp:28-98 | the chain, in every state of every run with any number of threads |
| `LockfreeQueue.WriteOnce` | atomic/LockfreeQueue.cpp:51-54 | a link once written never changes, and no node changes its value |
| `LockfreeQueue.StepRefines` | atomic/LockfreeQueue.cpp:51-100 | each step is an atomic enqueue, an atomic dequeue of the front, or invisible |
| `LockfreeQueue.Linearizable` | atomic/LockfreeQueue.cpp:40-106 | the events of every run replay on an atomic first-in first-out queue and end in the contents; values enqueued are values dequeued followed by the contents |
| `LockfreeQueue.Conserved` | atomic/LockfreeQueue.cpp:40-106 | nothing is lost, duplicated or reordered |
| `LockfreeHistory.History` | atomic/LockfreeQueue.cpp:40-112 | every run has one sequential history, right for a queue with empty answers, that holds each returned call exactly once with its answer, no call that has not taken effect, and each call before those that began after its return |
| `LockfreeHistory.StepHist` | atomic/LockfreeQueue.cpp:40-112 | any step extends such a history: a deciding compare-and-swap at its end, an empty answer at an earlier state where it was true |
| `LockfreeProgress.LockFree` | atomic/LockfreeQueue.cpp:43-105 | in every run a thread goes round its loop, spurious failures aside, at most as often as the queue is written to, and that is at most two writes for each enqueue and one for each dequeue that takes effect; all threads together at most that times their number |
| `LockfreeProgress.StepsBounded` | atomic/LockfreeQueue.cpp:40-112 | a thread takes at most seven steps for each call it begins, each round and each spurious failure |
| `LockfreeQueue.CallKept` | atomic/LockfreeQueue.cpp:40-112 | a call keeps its operation and its argument until it returns |
| `LockfreeQueue.ExactlyOnce` | atomic/LockfreeQueue.cpp:40-106 | what a thread's calls report on return is, once each and in order, what that thread did to the queue |
| `LockfreeQueue.AnswersWereTrue` | atomic/LockfreeQueue.cpp:76-112 | an empty dequeue and both answers of `empty` were true at some instant of the call |
| `ConfigLoader.Loader.LoadDone` | spdk_filesystem/json_config.c:103-118 | the callback runs once, with this result, and nothing is left under way |
| `ConfigLoader.Loader.LoadEntry` | spdk_filesystem/json_config.c:325-419 | at the end of the entries the next subsystem follows; otherwise the current entry is skipped, sent or ends the load, so that sent and still wanted requests stay the whole plan; the measure decreases |
| `ConfigLoader.Loader.OneEntry` | spdk_filesystem/json_config.c:345-419 | -EINVAL for an entry that cannot be decoded and -ENOENT for an unregistered method, nothing being sent; an entry whose permissions do not fit the pass, or that ran in the first one, is skipped; any other is sent, or the load ends with the error of creating, encoding or sending |
| `ConfigLoader.Loader.SendEntry` | spdk_filesystem/json_config.c:388-419 | one request more is outstanding and listed as sent, or the load ends with the error number, -ENOMEM or the negated code of the send, nothing being listed |
| `ConfigLoader.Loader.LoadSubsystem` | spdk_filesystem/json_config.c:466-495 | starts the next subsystem, ends with -EINVAL at one that cannot be decoded, or ends the pass; the plan is kept |
| `ConfigLoader.Loader.EndPass` | spdk_filesystem/json_config.c:470-479 | the first pass ends in the initialisation, the second in success |
| `ConfigLoader.Loader.OnConnectPoll` | spdk_filesystem/json_config.c:218-239 | nothing changes while it waits, the walk starts on a connection, and -ETIMEDOUT is reported after the time-out |
| `ConfigLoader.Loader.OnResponse` | spdk_filesystem/json_config.c:157-215 | the asserted handler is there; an error response ends the load with -EINVAL, nothing more being sent and the poller gone, if the load is to stop on errors, and otherwise the walk goes on |
| `ConfigLoader.Loader.OnPollFailure` | spdk_filesystem/json_config.c:178-180 | the callback runs with the error; with nothing outstanding the walk goes on all the same |
| `ConfigLoader.Loader.OnInitDone` | spdk_filesystem/json_config.c:422-441 | failure ends the load with that code and nothing more is sent; success starts the second pass from the first subsystem |
| `ConfigLoader.Handle` | spdk_filesystem/json_config.c:156-258 | every event that can happen is handled and keeps the invariant: exactly one thing under way until the walk reports, nothing after it; each response answers one request; a fatal event ends the load; the measure decreases except for idle polls and a poll that fails with nothing outstanding |
| `ConfigLoader.PlanIsWanted` | spdk_filesystem/json_config.c:312-374 | the walk over both passes visits exactly the startup entries in file order and then the runtime-only entries in file order |
| `ConfigLoader.WantedOnce` | spdk_filesystem/json_config.c:352-374 | each permitted entry is wanted once over both passes, every other position never |
| `ConfigLoader.WantedOrder` | spdk_filesystem/json_config.c:352-374 | the wanted requests are methods allowed at startup followed by methods allowed at run time only, each part strictly in file order |
| `ConfigLoader.Drive` | spdk_filesystem/json_config.c:103-495 | for any events in any order: sent is a prefix of wanted with at most one request unanswered; the callback runs at most once unless a poll fails among them, and then at most twice; success means that all was sent and answered and that no fatal event happened; an error response that stops the load gives exactly one callback, with -EINVAL; without faults there is no failure; the work is bounded |
| `ConfigLoader.Complete` | spdk_filesystem/json_config.c:312-495 | a fault-free load of a good file ends, has sent exactly the wanted requests in order, and reports 0 |
| `ConfigLoader.AtMostOnce` | spdk_filesystem/json_config.c:103-118 | in every state of the loader: at most one callback unless a poll has failed with nothing outstanding |
| `ConfigLoader.FailPoll` | spdk_filesystem/json_config.c:156-215 | in every state with a poller: a poll that fails with a request outstanding leads to exactly one callback, and one that fails with nothing outstanding can be followed by a second |
| `ConfigLoader.CalledTwice` | spdk_filesystem/json_config.c:422-441 | an empty file and a poll that fails during the initialisation: the callback gets the error, and then 0 |
| `ThreadPool.StepInv` | ThreadPool/Threadpool.cpp:13-74 | every step keeps mutual exclusion, the order of the queue, the tally of every task, the wakeups and the ending |
| `ThreadPool.AlwaysInv` | ThreadPool/Threadpool.cpp:13-74 | the same in every state of every run, any number of workers and callers |
| `ThreadPool.StartedOnce` | ThreadPool/Threadpool.cpp:26-33 | no task is started twice or before it was pushed; the queue holds the accepted tasks that nobody has taken, in push order |
| `ThreadPool.SleepersAreOwed` | ThreadPool/Threadpool.cpp:20-72 | no lost wakeup: work and only sleepers means an owed notification; stop and a sleeper means that `notify_all` is still to come |
| `ThreadPool.JoinedMeansDone` | ThreadPool/Threadpool.cpp:41-50 | after the joins the queue is empty and every accepted task has finished exactly once |
| `ThreadPool.NoDeadlock` | ThreadPool/Threadpool.cpp:17-50 | while the destructor joins, some worker can move |
| `ThreadPoolProgress.NoTaskForgotten` | ThreadPool/Threadpool.cpp:20-72 | in every run: if a worker sleeps, there are at most as many tasks as workers on the way to the queue plus notifications owed |
| `ThreadPoolProgress.JoinStep` | ThreadPool/Threadpool.cpp:17-50 | while the destructor joins, every step that moves a worker or the destructor lowers a bound, and no step raises it |
| `ThreadPoolProgress.JoinsBounded` | ThreadPool/Threadpool.cpp:41-50 | however the run goes on, the number of such steps is bounded, and at the bound the joins are done |
| `ThreadPoolProgress.JoinsEnd` | ThreadPool/Threadpool.cpp:41-50 | from every state in which the destructor joins, the joins can be completed within twice the bound |
| `ThreadPoolLiveness.WaitStep` | ThreadPool/Threadpool.cpp:17-35 | while a task waits in the queue, every step that moves a worker lowers a bound for it, and no step of anybody raises the bound |
| `ThreadPoolLiveness.WaitsBounded` | ThreadPool/Threadpool.cpp:17-35 | however the run goes on, a task that waits is taken before the workers have made that many moves |
| `ThreadPoolLiveness.WaitMove` | ThreadPool/Threadpool.cpp:20-72 | while a task waits and no caller or destructor has the mutex, a step of a worker, or a notification that is owed, moves a worker |
| `ThreadPoolLiveness.HolderFinishes` | ThreadPool/Threadpool.cpp:30-33 | however the run goes on, a task that was taken has finished exactly once when its worker has made at most three steps |
| `ThreadPoolLiveness.EveryTaskRuns` | ThreadPool/Threadpool.cpp:13-72 | for every run, any number of callers and at least one worker: steps of workers and callers alone, and of the destructor if it was called, bring every accepted task to exactly one start and one end, within 6 * (tasks + workers) + 4 steps |
| `ThreadPoolLiveness.GivesBack` | ThreadPool/Threadpool.cpp:19-32 | whoever has the mutex gives it back within three steps of its own |
| `ThreadPoolLiveness.PushStep` | ThreadPool/Threadpool.cpp:64-70 | in the mutex a call is refused exactly if the pool stops; otherwise its task becomes the last in the queue and a notification is owed |
| `ThreadPoolLiveness.CallIsServed` | ThreadPool/Threadpool.cpp:53-74 | in every run without a call of the destructor, a waiting caller can come in within four steps, its task is accepted, and that task can be brought to exactly one start and one end |
| `ThreadPoolLiveness.ComesToJoin` | ThreadPool/Threadpool.cpp:41-47 | a destructor that was called can come to its joins within six steps, at most one more task being pushed |
| `ThreadPoolLiveness.DestructionEnds` | ThreadPool/Threadpool.cpp:41-50 | in every run in which the destructor was called it can be brought to its end, within a bound linear in tasks and workers |
| `ThreadPool.Overtaking` | ThreadPool/Threadpool.cpp:30-33 | with two workers the second task can start first |
| `ThreadPool.StartOrder` | ThreadPool/Threadpool.cpp:30-33 | tasks start in push order in every run if and only if there is at most one worker |
| `LRUCache.AlwaysSound` | LRU_with_TTL/LRUCache.cpp:47-81 | after every history: at most capacity entries, different keys in order of last use, each the last binding put |
| `LRUCache.HitIsLastPut` | LRU_with_TTL/LRUCache.cpp:47-62 | a hit returns the last value put, by a put younger than the time to live |
| `LRUCache.AnswerIs` | LRU_with_TTL/LRUCache.cpp:47-62 | after every history a get answers -1 or the value of the last put of its key, unexpired; without such a put, or with an expired one, it answers -1 |
| `LRUCache.HitMovesFront` | LRU_with_TTL/LRUCache.cpp:60-61 | a hit moves its entry to the front, and the others keep their order |
| `LRUCache.EvictsLeastRecent` | LRU_with_TTL/LRUCache.cpp:69-73 | a put drops another live key only from a full cache, for a new key, and then the least recently used one |
| `LRUCache.PutStandsFront` | LRU_with_TTL/LRUCache.cpp:74-79 | after a put the entry in front has its key, its value and the time of the put plus the time to live |
| `LRUCache.Retention` | LRU_with_TTL/LRUCache.cpp:26-81 | with fewer than capacity other keys used since its last use and an unexpired last put, a key is found with the last value |
| `LRUCache.LRUCacheWithTTL.CleanExpire` | LRU_with_TTL/LRUCache.cpp:26-37 | exactly the expired entries leave list and index, the others keep their order |
| `LRUCache.LRUCacheWithTTL.Get` | LRU_with_TTL/LRUCache.cpp:47-62 | list and index stay a bijection; the second expiry test never succeeds; a live key moves to the front and its value is the answer, and any other key gets -1 |
| `LRUCache.LRUCacheWithTTL.Put` | LRU_with_TTL/LRUCache.cpp:64-81 | list and index stay a bijection within capacity; the key is in front with the new value and expiry |
| `LRUCache.Replay` | LRU_with_TTL/LRUCache.cpp:43-81 | for every history, the object answers as the list model does, and each get answers -1 or the value of the last put of its key, unexpired |
| `BPlusLeaves.InsertKeeps` | KV_Store/BplusTree.cpp:235-269 | leaves stay ordered and within size, and the entry is put at the first place of its key among all entries |
| `BPlusLeaves.RemoveKeeps` | KV_Store/BplusTree.cpp:272-302 | leaves stay ordered, dropped leaves are empty, and at most the first entry of the key goes |
| `BPlusLeaves.SplitArranged` | KV_Store/BplusTree.cpp:211-228 | a split changes no entry and no order, and the promoted key divides the halves |
| `BPlusLeaves.DetachArranged` | KV_Store/BplusTree.cpp:287-294 | dropping an empty child with the separator the code picks keeps every other separator right |
| `BPlusLeaves.RangeFromRouted` | KV_Store/BplusTree.cpp:480-488 | a query that starts at the routed leaf misses nothing before it |
| `BPlusLeaves.InRangeIndex` | KV_Store/BplusTree.cpp:183-199 | of sorted entries, the values in a range are, in order, those between the first key that is not below its start and the first that is above its end |
| `BPlusLeaves.InRangeConcat` | KV_Store/BplusTree.cpp:183-199 | of entries in any order, each one contributes its value in its turn exactly if its key is in the range |
| `BPlusLeaves.ScannedPart` | KV_Store/BplusTree.cpp:183-199 | stopping at the first key past the range lists what is in the range before it, and loses nothing if the entries are sorted |
| `BPlusLeaves.LookupExact` | KV_Store/BplusTree.cpp:305-318 | also with repeated keys: a key that is no separator is found if and only if it is stored, a separator if and only if the leaf on its left holds it; and what is found is the first entry |
| `BPlusLeaves.StepContents` | KV_Store/BplusTree.cpp:407-468 | what one call does to the entries, also with repeated keys |
| `BPlusLeaves.AlwaysOrdered` | KV_Store/BplusTree.cpp:407-488 | after every run without an internal split the chain of leaves, detached ones included, is nondecreasing, and a range query from the routed leaf gives what one over all entries gives |
| `BPlusSeparators.InsertUnique` | KV_Store/BplusTree.cpp:235-269 | inserting a key that is not stored keeps the keys strictly increasing and every separator the first key of the leaf behind it |
| `BPlusSeparators.RemoveUnique` | KV_Store/BplusTree.cpp:272-302 | so does any removal; only the first child can run empty |
| `BPlusSeparators.SeparatorIsHidden` | KV_Store/BplusTree.cpp:89-95 | a separator is stored, and everything in the leaf it is sent to is smaller |
| `BPlusSeparators.DifferentAreNew` | KV_Store/BplusTree.cpp:407-468 | a run that inserts no key twice never inserts a stored key |
| `BPlusSeparators.SeparatorsAreLost` | KV_Store/BplusTree.cpp:89-95 | after every run that never inserts a stored key: a lookup finds a key, and a removal takes it, if and only if it is stored and is not a separator |
| `BPlusRootSplit.SplitOrder` | KV_Store/BplusTree.cpp:413-444 | an insert that splits a full internal root keeps the leaves in order if and only if its key is at least everything in the left half, or at most the promoted key and, if it strays, at least everything in the leaf it was sent to |
| `BPlusRootSplit.FlatAfter` | KV_Store/BplusTree.cpp:119-127 | that insert changes nothing but to put the entry among those of one child of the old root: the one it is sent to, or, if it strays, the last of the left half |
| `BPlusRootSplit.LandCases` | KV_Store/BplusTree.cpp:239-268 | where an insert through any internal node over leaves ends, with the child that is put at the index or at the end |
| `BPlusRootSplit.StraysAreSmall` | KV_Store/BplusTree.cpp:98-116 | keys stray with degree two and three only |
| `BPlusLostOrder.OrderIsLost` | KV_Store/BplusTree.cpp:428-441 | for any eight keys in a given order: after seven inserts into a new tree of degree two and an eighth that splits the root, the leaves are out of order and a range query from the leaf the tree leads to misses a stored key |
| `BPlusLostOrder.StrayIsLost` | KV_Store/BplusTree.cpp:119-127 | the same for nine keys of which the last is at most the promoted one |
| `BPlusTree.LeafNode.InsertKey` | KV_Store/BplusTree.cpp:151-158 | keys and values get the entry at the same, first place of its key |
| `BPlusTree.LeafNode.RemoveKey` | KV_Store/BplusTree.cpp:161-168 | the first entry of the key goes, if there is one |
| `BPlusTree.LeafNode.Split` | KV_Store/BplusTree.cpp:211-228 | the upper half moves to a new leaf linked in behind this one |
| `BPlusTree.LeafNode.RangeQuery` | KV_Store/BplusTree.cpp:183-199 | along the links, in whatever order the keys are: the values in the range before the first key past it; all values in the range if the keys are in order |
| `BPlusTree.InternalNode.FindChildIndex` | KV_Store/BplusTree.cpp:89-95 | the first separator that is not smaller than the key |
| `BPlusTree.InternalNode.InsertChild` | KV_Store/BplusTree.cpp:119-127 | the key is put at the index, and the child behind the child at the index, or at the very end if the key is the last |
| `BPlusTree.Tree.InsertBelow` | KV_Store/BplusTree.cpp:239-268 | a full child is split on the way and the entry goes into the right half |
| `BPlusTree.Tree.Insert` | KV_Store/BplusTree.cpp:407-445 | the tree stays valid and its entries get the new one before those of the same key |
| `BPlusTree.Tree.Remove` | KV_Store/BplusTree.cpp:448-468 | the tree stays valid; the first entry of the key goes unless the key is missing or hidden |
| `BPlusTree.Tree.FindLeaf` | KV_Store/BplusTree.cpp:305-318 | the routed leaf; the case that should not happen does not |
| `BPlusTree.Tree.Find` | KV_Store/BplusTree.cpp:471-477 | the first value of the key, if it is there and not hidden; what is found is stored under the key, and a key that is not found is a separator or is not stored |
| `BPlusTree.Tree.RangeQuery` | KV_Store/BplusTree.cpp:480-488 | the values of the entries, by index, from the first key not below the start to the last not above the end; nothing for an empty range |
| `BPlusTree.Replay` | KV_Store/BplusTree.cpp:404-488 | for every degree, every run without an internal split and every range, the answer is the block of values, by index, that the sorted entries have in the range |
| `BPlusTree.ReplayLookup` | KV_Store/BplusTree.cpp:404-488 | for every run that inserts no key twice: a lookup, and a range query after a removal, are those of the sorted entries, except that separators are neither found nor removed |
| `BPlusTree.ValidateLeaf` | KV_Store/BplusTree.cpp:324-363 | true exactly if the leaf is big enough or the root, not empty, increasing and above the largest key so far |
| `BPlusTree.ValidateInner` | KV_Store/BplusTree.cpp:364-400 | with the first child below the first separator: passes if and only if there is one child, no key, and the child passes |
| `BPlusTree.Tree.Validate` | KV_Store/BplusTree.cpp:496-502 | on every valid tree: true if and only if it is empty or one leaf with increasing keys |
| `BPlusTree.LookupMisses` | KV_Store/BplusTree.cpp:89-95 | four inserts after which a stored key is listed by a range query, not found, and still listed after its removal, and the tree fails `validate` |
| `Slab.DecodeEncode` | KV_Store/simple_slab.c:30-33 | an address stored in eight bytes is read back |
| `Slab.TerminatorAt` | KV_Store/simple_slab.c:29-33 | the word behind the last block starts at the page size minus what is left over |
| `Slab.InitSlab` | KV_Store/simple_slab.c:20-35 | for every block size that holds a word: the return codes; every block is on the free list, in order; behind the page exactly the bytes of the null word that reach out of it change, and some do if and only if fewer than eight bytes are left over |
| `Slab.SixteenOverruns` | KV_Store/simple_slab.c:59-61 | with blocks of sixteen bytes the eight bytes behind the page are cleared |
| `Slab.AllocSlab` | KV_Store/simple_slab.c:42-50 | null exactly if no block is free; otherwise a block that nobody holds, the rest of the list intact |
| `Slab.FreeSlab` | KV_Store/simple_slab.c:52-56 | the block is first on the free list, whatever its holder wrote into it, and no byte but those of its link changes |
| `Slab.Slab.Scribble` | KV_Store/simple_slab.c:42-56 | a holder writing inside its block leaves the free list intact |
| `Slab.Slab.WriteOutside` | KV_Store/simple_slab.c:42-56 | whatever is written behind the page, also over the null word, the free list is intact |
| `Slab.Slab.Conserved` | KV_Store/simple_slab.c:22-55 | free count plus held blocks is page size divided by block size |
| `Slab.Slab.Disjoint` | KV_Store/simple_slab.c:29-32 | blocks lie inside the page and do not overlap |
| `Slab.AlwaysSplit` | KV_Store/simple_slab.c:42-56 | in every run each block is free once or held once, and the numbers add up |
| `Slab.AllRememberNext` | KV_Store/simple_slab.c:42-56 | no call touches a byte that the holder of another block wrote |
| `Slab.Replay` | KV_Store/simple_slab.c:20-56 | for every block size that holds a word and every run of alloc, free, writes by holders and writes behind the page, the pointers held are the blocks a stack would give, inside the page and pairwise disjoint, and each byte a holder wrote since it got its block is what it wrote last |

## Left out

- BPlusTree.Tree.Insert: requires that the root is not a full internal node, so trees of nodes are at most two levels high. The insert that makes the third level is modelled on values, in `BPlusRootSplit.SplitOrder`; what later inserts do to taller trees is not modelled, and splitting a lower internal node reads past the end of its keys (KV_Store/BplusTree.cpp:255).
- BPlusTree.ReplayLookup: ends at the first insert that would split an internal node, as `BPlusTree.Replay`.
- BPlusTree.Replay: ends at the first insert that would split an internal node, for the same reason.
- BPlusLeaves.RemoveKeeps: says nothing about minimum fill, since underflow is not repaired by the code (KV_Store/BplusTree.cpp:285-286).
- Slab.InitSlab: requires blocks of at least eight bytes, since the code writes a link into every block; smaller blocks overlap.
- Slab.FreeSlab: requires a block that is held, as the code does not check it; freeing twice is not modelled.
- LRUCache.LRUCacheWithTTL.Put: one clock reading per call, while the code reads the clock again for the expiry; and a capacity of at least one, since with capacity zero the code takes the back of an empty list, which has no defined result. A negative capacity is not modelled.
- BPlusTree.Tree.InsertBelow: as `BPlusTree.Tree.Insert`, the internal root is not full.
- ConfigLoader.Loader.OnPollFailure: the code frees its context with the first callback; what still runs afterwards is modelled as if the memory kept its contents.
- ConfigLoader.Handle: an event that cannot happen in a state is skipped; each request gets at most one response.
- ThreadPool.NoDeadlock: is about the workers; that the joins end is `ThreadPoolProgress.JoinsBounded` and `ThreadPoolProgress.JoinsEnd`, for tasks that end and schedules that do not starve them.
- ThreadPool.SleepersAreOwed: is about who will be woken; that every accepted task is then taken and finished is `ThreadPoolLiveness.WaitsBounded`, `ThreadPoolLiveness.HolderFinishes` and `ThreadPoolLiveness.EveryTaskRuns`.
- ThreadPoolProgress.NoTaskForgotten: counts who will look at the queue; what comes of it is said in the same place.
- ThreadPoolLiveness.EveryTaskRuns: gives a schedule; for other schedules there are the two bounds, on the moves before a task is taken and on the steps of its worker afterwards, and a task is taken to end.
- ThreadPool.StepInv: tasks are numbers; futures, exceptions of tasks and the exception thrown by `add_task` after the stop are reduced to an accepted or refused call.
- LockfreeQueue.Linearizable: holds enqueues and successful dequeues only; `LockfreeHistory.History` has all calls.
- LockfreeHistory.History: steps are sequentially consistent; weak memory orders, the reference counts of shared pointers and the reuse of node addresses are not modelled, and the element type is copied, not moved.
- Termination of a single retry loop of the lock-free queue: other threads can keep it going round, as often as their operations take effect.
- Keys of the trees, the cache and the B+ tree are integers.
- Weak parent pointers of the trees are plain references, and nodes are not freed.
- Sizes of counters (`int`, `size_t`) are unbounded; the slab's addresses are below 2^64.
- Parsing of JSON text, reading the file, naming the socket and encoding requests in `spdk_filesystem/json_config.c`: these are library calls, and the file is a list of subsystems and entries here.
- Printing, `level_order`, `print_tree`, `min`, `max`, `clear`, `maximum` and the height function of the sentinel tree, which would only add easy members.
- `B+Tree/`, copies of the tree sources in `KV_Store/`.
- `KV_Store/kv_main.cpp`, `KV_Store/spdk_server.c`, `spdk_nvme/`, `spdk_echo_server/` and `spdk_filesystem/myfs.c`: device, socket and blob plumbing over libraries that are not part of the repository.
