# Verified model of cpp-socket-programming

The data structures and small protocols of this repository, modelled in Dafny and proved.

* **Red-black tree** (`RbShape`, `RbSurgery`, `RbBalance`, `RbSearch`, `RedBlackTree`, `RbSet`). The
  macros of `libuv-based/include/uv/tree.h` over heap nodes with left, right, parent and colour fields.
  A tree value and a path value (the way from a position up to the root) say what the pointers spell
  out. Every pointer change is a small method proved against them, and the two fix-up loops are proved
  on the values.
* **Splay tree** (`SplayShape`, `SplaySurgery`, `SplayFunction`, `SplayTree`, `SplayCost`, `SplaySet`). The
  top-down splay with its header node and its two growing side trees. While it runs the tree is a `Config`
  of two open spines and a middle tree. The pointer code is also proved to arrive at the very tree, in the
  very number of turns, of a recursive function (`Splayed`, `Turns`), and that function has the amortised
  bound the header promises: with the product of all subtree sizes as potential, an operation on fewer
  than n keys costs at most 2 + 5 lg n turns, amortised. `Powers` holds the arithmetic.
* **Sorted set** (`SortedSet`, `KeyOrder`, `Options`). What both trees must answer over any history of
  operations, and what a sequence in key order says about its set of keys.
* **Thread pool** (`ThreadPool`, `ThreadPoolShutdown`, `ThreadPoolProgress`, `ThreadPoolClients`).
  Workers, clients, constructor and destructor as interleaved steps over the blocking queue with an
  explicit mutex and condition variable; the order of pushes and joins in the destructor is a parameter,
  so that the code and its repair share one model.
* **Task protocol** (`TaskProtocol`). CONNECT and CHECK_STATUS on top of that thread pool.
* **Connection pool** (`PoolModel`, `ConnectionPool`). The pool and its handles as objects, each call
  proved to be one step of a model on values, and properties of all runs of that model.
* **Small cores** (`WeightedRoundRobin`, `StringSplit`, `Scheduler`).

`dafny verify dfyconfig.toml` checks the whole project.

## Where the code falls short of its purpose

* The thread pool's destructor pushes one stop and then joins one particular thread. With two or more
  workers another worker can take the stop, and the destructor then waits for ever
  (`ThreadPoolShutdown.DoomedIff`, `GetsThroughIff`). Pushing all stops first removes this.
* A pool of no workers, which `std::thread::hardware_concurrency() - 1` yields on one hardware thread,
  is destroyed without running its tasks (`ThreadPoolShutdown.LeavesNothingIff`).
* A CONNECT pushes its task before it writes the initial empty entry. If the task runs in between, its
  response is overwritten and the id stays pending (`TaskProtocol.PromptIff`, `LostIff`).
* Releasing a connection explicitly leaves the handle pointing at it, so two live handles can hold the
  same connection (`PoolModel.ExclusiveStep`, `DoubleLease`).
* Move-assigning another handle over the only handle that points at a busy connection loses that
  connection for good. Nothing else does; explicit releases do not (`PoolModel.HeldStep`, `AllIdleIff`,
  `LossReachable`).
* A server of weight zero is still picked once a round (`WeightedRoundRobin.FairIff`). The first server of
  negative weight is picked by every call once the servers before it have had their shares, and so
  some server is never picked again exactly if there is a negative weight and more than one server
  (`PickAt`, `NobodyStarvesIff`).
* A call of the selector on a list that became shorter reads past its end, exactly if the list ends
  before the server picked last and the share of that server lasts (`WeightedRoundRobin.ShrunkIff`,
  `Outside`); on lists that never shrink none does (`NeverOutside`).
* `split` with an empty delimiter cuts off empty tokens for ever, for every string; with any other it
  ends (`StringSplit.EndsIff`, `Stuck`).
* SPLAY_REMOVE returns its argument even when the node it takes out is another one with the same key,
  that is, exactly if the argument is not in the tree but its key is (`SplayTree.Splay.Remove`,
  `SplaySet.RemovedByAnother`).

## Model

| member | source | states |
|---|---|---|
| RbShape.PlugInorder | libuv-based/include/uv/tree.h:312-318 | the key order of a whole tree is what lies before a position, the subtree there, and what lies after |
| RbShape.SortedPlug | libuv-based/include/uv/tree.h:312-318 | in a sorted tree the subtree at a position shares no node with the rest |
| RbShape.PlugFields | libuv-based/include/uv/tree.h:312-323 | the pointer fields of a whole tree are those of the path and of the subtree at any position |
| RbShape.PlugRedBlack | libuv-based/include/uv/tree.h:53-58 | the red-black conditions of a whole tree hold exactly if the subtree is good and the path fits around it |
| RbSearch.BlackHeightBounds | libuv-based/include/uv/tree.h:53-61 | a good tree of black height b has at least 2^b - 1 nodes and height at most 2b, plus one below a red root |
| RbSearch.HeightBound | libuv-based/include/uv/tree.h:60-61 | 2^h <= (n+1)^2 for every red-black tree of n nodes and height h |
| RbSearch.DescentBound | libuv-based/include/uv/tree.h:60-61 | the nodes looked at on the way to any position, that one included, are within the same bound |
| RedBlackTree.RbTree.Seek | libuv-based/include/uv/tree.h:605-614 | the descent of an insert ends at the equal key or at the empty place between all smaller and all larger keys, in at most 2 lg (n + 1) steps |
| RedBlackTree.RbTree.constructor | libuv-based/include/uv/tree.h:306-308 | the initial tree is empty and valid |
| RedBlackTree.RbTree.SetBlackRed | libuv-based/include/uv/tree.h:333-336 | recolours a node and the node above it, nothing else |
| RedBlackTree.RbTree.RelinkLeft | libuv-based/include/uv/tree.h:342-360 | the left rotation field by field, for every node of the tree |
| RedBlackTree.RbTree.RotateLeft | libuv-based/include/uv/tree.h:342-360 | the pointers spell out the turned tree, in the same key order, parent links included |
| RedBlackTree.RbTree.RelinkRight | libuv-based/include/uv/tree.h:362-380 | the right rotation field by field |
| RedBlackTree.RbTree.RotateRight | libuv-based/include/uv/tree.h:362-380 | the pointers spell out the turned tree, in the same key order |
| RbBalance.InsertRecolored | libuv-based/include/uv/tree.h:416-420 | a red uncle: recolouring moves the only possible red-red pair two levels up |
| RbBalance.InsertOuter | libuv-based/include/uv/tree.h:428-429 | an outer grandchild: recolouring and one rotation leave a good path below a black node |
| RbBalance.InsertInner | libuv-based/include/uv/tree.h:422-429 | an inner grandchild: the same after two rotations |
| RbBalance.InsertDone | libuv-based/include/uv/tree.h:411-448 | when the loop stops, blackening the root gives a red-black tree |
| RedBlackTree.RbTree.InsertTurnLeft | libuv-based/include/uv/tree.h:414-429 | one turn for a left parent keeps order and balance around the active node, which is then nearer the root, with at most two rotations after which the loop is over |
| RedBlackTree.RbTree.InsertTurnRight | libuv-based/include/uv/tree.h:430-446 | the same for a right parent |
| RedBlackTree.RbTree.InsertColor | libuv-based/include/uv/tree.h:407-449 | ends, with a valid red-black tree in the same order and at most two rotations |
| RedBlackTree.RbTree.Attach | libuv-based/include/uv/tree.h:615-623 | links the new red node in its place and keeps the key order |
| RedBlackTree.RbTree.Insert | libuv-based/include/uv/tree.h:597-626 | an equal key is returned and nothing changes; otherwise exactly the new node is added at its place, the tree is valid, at most two rotations, at most 2 lg (n + 1) steps down |
| RbSearch.SuccessorOrder | libuv-based/include/uv/tree.h:540-577 | moving the successor to the node's place takes exactly the node out of the key order |
| RbBalance.TakenOut | libuv-based/include/uv/tree.h:579-593 | taking out a node with at most one child leaves a red-black tree if it was red, and its place one black node short if it was black |
| RbBalance.SuccessorMoved | libuv-based/include/uv/tree.h:540-577 | the same for the successor's place, described in the tree in which the successor has replaced the node |
| RbBalance.RemoveRedSibling | libuv-based/include/uv/tree.h:460-464 | rotating a red sibling up keeps the place one short, now with a black sibling |
| RbBalance.RemoveRecolored | libuv-based/include/uv/tree.h:465-471 | a black sibling with black children turns red and the parent becomes one short |
| RbBalance.RemoveFar | libuv-based/include/uv/tree.h:483-487 | a red far nephew: one rotation makes the whole tree red-black |
| RbBalance.RemoveNear | libuv-based/include/uv/tree.h:473-487 | a red near nephew only: two rotations make the whole tree red-black |
| RbBalance.RemoveDone | libuv-based/include/uv/tree.h:456-457 | stopping at a red node or at the root, blackening it gives a red-black tree |
| RedBlackTree.RbTree.RemoveSiblingLeft | libuv-based/include/uv/tree.h:459-464 | after it the sibling is black, with at most one rotation, below a red parent if one was made |
| RedBlackTree.RbTree.RemoveEndLeft | libuv-based/include/uv/tree.h:473-489 | ends with a red-black tree in the same order after at most two rotations |
| RedBlackTree.RbTree.RemoveTurnLeft | libuv-based/include/uv/tree.h:458-490 | one turn for a left child: done, or nearer the root, or at a red node where the loop stops |
| RedBlackTree.RbTree.RemoveTurnRight | libuv-based/include/uv/tree.h:491-524 | the same for a right child |
| RedBlackTree.RbTree.RemoveColor | libuv-based/include/uv/tree.h:451-528 | ends, with a valid red-black tree in the same order and at most three rotations |
| RedBlackTree.RbTree.RelinkOut | libuv-based/include/uv/tree.h:581-590 | unlinking field by field, for every node |
| RedBlackTree.RbTree.RelinkIn | libuv-based/include/uv/tree.h:559-570 | copying the fields and redirecting the neighbours, field by field, for every node |
| RedBlackTree.RbTree.SpliceSuccessor | libuv-based/include/uv/tree.h:540-577 | the node with two children is out of the order, its successor has its place, and the position the successor left is one short if the successor was black |
| RedBlackTree.RbTree.Unlink | libuv-based/include/uv/tree.h:533-591 | the same for every kind of node |
| RedBlackTree.RbTree.Remove | libuv-based/include/uv/tree.h:530-595 | the key order is the old one without exactly this node, the tree is valid, at most three rotations |
| RedBlackTree.RbTree.Find | libuv-based/include/uv/tree.h:628-644 | returns a node of the tree with the key, or null exactly if there is none, in at most 2 lg (n + 1) steps |
| RedBlackTree.RbTree.NFind | libuv-based/include/uv/tree.h:646-665 | returns the node with the least key not below the argument, or null if all keys are below, in at most 2 lg (n + 1) steps |
| RedBlackTree.RbTree.MinMax | libuv-based/include/uv/tree.h:711-724 | returns the first or the last node in key order, or null if there is none, in at most 2 lg (n + 1) steps |
| RedBlackTree.RbTree.Next | libuv-based/include/uv/tree.h:667-687 | from the i-th node in key order returns node i+1, or null after the last |
| RedBlackTree.RbTree.Prev | libuv-based/include/uv/tree.h:689-709 | from the i-th node returns node i-1, or null before the first |
| RedBlackTree.RbTree.NextThenPrev | libuv-based/include/uv/tree.h:733-734 | going to the next node and back returns to the start |
| RedBlackTree.RbTree.PrevThenNext | libuv-based/include/uv/tree.h:733-734 | going to the previous node and back returns to the start |
| RedBlackTree.RbTree.ForEach | libuv-based/include/uv/tree.h:738-741 | visits the contents once each in key order |
| RedBlackTree.RbTree.ForEachReverse | libuv-based/include/uv/tree.h:753-756 | visits the contents once each in reverse order |
| RbSet.Run | libuv-based/include/uv/tree.h:597-724 | any history of inserts, removes, finds, nearest finds and extremes answers as a sorted set does |
| SplayShape.SortedConfig | libuv-based/include/uv/tree.h:212-216 | the side trees and the middle of a sorted splay in progress are sorted and share no node |
| SplayFunction.TurnedOnce | libuv-based/include/uv/tree.h:212-241 | through a turn the tree the splay will end with stays the same, one turn fewer remains, the side trees keep only smaller and only larger keys, and the middle shrinks or the splay stops |
| SplaySurgery.AssembledOrder | libuv-based/include/uv/tree.h:112-117 | assembling keeps every node in key order |
| SplaySurgery.AssembledFields | libuv-based/include/uv/tree.h:112-117 | assembling needs the two open fields and the two of the middle root, and no other |
| SplaySurgery.NearDecides | libuv-based/include/uv/tree.h:160-162 | a root next to the key is the node with that key if there is one; no key lies between the two |
| SplaySurgery.LargestRoot | libuv-based/include/uv/tree.h:199-202 | splaying the left part for a key above all of it leaves a root without right child |
| SplayTree.Splay.RotateRight | libuv-based/include/uv/tree.h:88-92 | the rotation of the middle, as pointers and as a config |
| SplayTree.Splay.RotateLeft | libuv-based/include/uv/tree.h:94-98 | the mirror image |
| SplayTree.Splay.LinkLeft | libuv-based/include/uv/tree.h:100-104 | the middle root and its right subtree become the edge of the right tree |
| SplayTree.Splay.LinkRight | libuv-based/include/uv/tree.h:106-110 | the middle root and its left subtree become the edge of the left tree |
| SplayTree.Splay.Assemble | libuv-based/include/uv/tree.h:112-117 | the pointers spell out the assembled tree, in the same key order with the same nodes |
| SplayTree.Splay.SplayTo | libuv-based/include/uv/tree.h:209-242 | ends, keeps nodes and key order, and brings up the searched key or an immediate neighbour of it; shape and number of turns are those of the recursive splay |
| SplayTree.Splay.RoundOut | libuv-based/include/uv/tree.h:255-276 | a round with a direction brings the end of the loop nearer; one with direction zero changes nothing and does not stop |
| SplayTree.Splay.MinMaxTo | libuv-based/include/uv/tree.h:247-278 | ends, keeps nodes and key order, and brings up the first or last node, as a splay for a key beyond all others does |
| SplayTree.Splay.MinMax | libuv-based/include/uv/tree.h:153-158 | returns the first or the last node, or null for an empty tree |
| SplayTree.Splay.Find | libuv-based/include/uv/tree.h:127-137 | returns the node with the key, now the root, or null exactly if there is none |
| SplayTree.Splay.Next | libuv-based/include/uv/tree.h:139-151 | from the i-th node returns node i+1, or null after the last, in a tree that kept its order |
| SplayTree.Splay.Insert | libuv-based/include/uv/tree.h:164-186 | an equal key is returned and the order stays; otherwise exactly the new node is added at its place |
| SplayTree.Splay.Rejoin | libuv-based/include/uv/tree.h:199-202 | the right part is attached where nothing was, so both parts are kept whole |
| SplayTree.Splay.Remove | libuv-based/include/uv/tree.h:188-207 | the order loses exactly the node with the key, or stays if there is none; the node returned is the one taken out exactly if the argument was in the tree |
| SplaySet.RemovedByAnother | libuv-based/include/uv/tree.h:188-207 | an argument that only shares the key is returned, and the node in the tree is taken out |
| SplayTree.Splay.ForEach | libuv-based/include/uv/tree.h:292-295 | visits the contents once each in key order and stops, although every step reshapes the tree |
| SplayCost.SplayedSize | libuv-based/include/uv/tree.h:209-242 | a splay keeps the number of nodes |
| SplayCost.PaysStraight | libuv-based/include/uv/tree.h:220-227 | a rotation with its link pays for its turn out of the potential |
| SplayCost.PaysAcross | libuv-based/include/uv/tree.h:218-240 | two links to opposite sides pay for their two turns |
| SplayCost.PaysAcrossStraight | libuv-based/include/uv/tree.h:218-240 | a link, and a rotation with a link on the other side, pay for their two turns |
| SplayCost.SplayPays | libuv-based/include/uv/tree.h:49-51 | for every tree and key, two to the turns of the splay times the potential it leaves below the root is at most twice the squared size times the potential before |
| SplayCost.InsertAfforded | libuv-based/include/uv/tree.h:164-186 | an insert into fewer than n nodes multiplies the potential, with its turns, by at most 4 n^5 |
| SplayCost.RemoveAfforded | libuv-based/include/uv/tree.h:188-207 | so does a remove, with both of its splays |
| SplaySet.Run | libuv-based/include/uv/tree.h:121-295 | any history of inserts, removes, finds and extremes answers as a sorted set does, and over m operations on fewer than n keys two to the number of all turns is at most (4 n^5)^m |
| ThreadPool.Reached | protocol-server/src/utils/thread_pool/thread_pool.cpp:4-40 | every state of every run keeps the mutex, queue, counting and owner invariants |
| ThreadPool.NoLostWakeUp | protocol-server/src/utils/thread_safe_queue/thread_safe_queue.h:13-28 | while a worker sleeps un-notified, queued tasks do not outnumber the awake free workers, but for the push that is about to notify |
| ThreadPool.Conserved | protocol-server/src/utils/thread_safe_queue/thread_safe_queue.h:13-28 | popped then queued is the push order; each task is run, running or queued as often as pushed; stops end one worker each |
| ThreadPoolShutdown.ShutdownRunsAll | protocol-server/src/utils/thread_pool/thread_pool.cpp:27-35 | with a worker, a finished destructor has had every earlier task popped and every popped task run, in push order |
| ThreadPoolShutdown.NoWorkersRunNothing | protocol-server/src/utils/thread_pool/ThreadPoolSingleton.h:6 | with no worker a task pushed before is still queued when the destructor ends |
| ThreadPoolShutdown.LeavesNothingIff | protocol-server/src/utils/thread_pool/thread_pool.cpp:21-35 | no finished destructor leaves an earlier task behind exactly if there is a worker |
| ThreadPoolShutdown.DoomedForever | protocol-server/src/utils/thread_pool/thread_pool.cpp:29-34 | once the destructor joins a worker no stop can reach, no later step lets it finish |
| ThreadPoolShutdown.NeverDoomed | protocol-server/src/utils/thread_pool/thread_pool.cpp:29-34 | with one worker, or with all stops pushed first, no run gets there |
| ThreadPoolShutdown.DoomReachable | protocol-server/src/utils/thread_pool/thread_pool.cpp:29-34 | as written, with any two or more workers, a run gets there |
| ThreadPoolShutdown.DoomedIff | protocol-server/src/utils/thread_pool/thread_pool.cpp:29-34 | such a state is reachable exactly as written with two or more workers |
| ThreadPoolShutdown.OwnStep | protocol-server/src/utils/thread_pool/thread_pool.cpp:6-15 | during the destructor every step but a new push or a spurious wake-up lowers the remaining work |
| ThreadPoolShutdown.OwnEnabled | protocol-server/src/utils/thread_pool/thread_pool.cpp:6-34 | while the destructor runs and is not doomed some such step is possible |
| ThreadPoolShutdown.Finishes | protocol-server/src/utils/thread_pool/thread_pool.cpp:27-35 | so it ends, within that work, in the safe cases |
| ThreadPoolShutdown.OwnRunsAreShort | protocol-server/src/utils/thread_pool/thread_pool.cpp:27-35 | no interleaving of the pool's own steps is longer than that work |
| ThreadPoolShutdown.GetsThroughIff | protocol-server/src/utils/thread_pool/thread_pool.cpp:27-35 | from every reachable state the destructor can still end exactly if all stops come first or there is at most one worker |
| ThreadPoolProgress.QuietRunsAreShort | protocol-server/src/utils/thread_pool/thread_pool.cpp:6-15 | while the pool is live, no interleaving of its own steps is longer than the work there is |
| ThreadPoolProgress.RestingIff | protocol-server/src/utils/thread_pool/thread_pool.cpp:6-15 | a live pool with a worker has no step of its own exactly when nothing is queued, pushed or run and all workers sleep |
| ThreadPoolProgress.Drains | protocol-server/src/utils/thread_pool/thread_pool.cpp:6-15 | by its own steps it gets there, within that work |
| ThreadPoolProgress.DrainsIff | protocol-server/src/utils/thread_pool/thread_pool.cpp:6-25 | a live pool can always drain by itself exactly if it has a worker |
| ThreadPoolClients.CanPush | protocol-server/src/utils/thread_safe_queue/thread_safe_queue.h:13-18 | in every reachable state before the destructor is through a client can push any task, whoever holds the mutex and whatever is queued |
| ThreadPoolClients.PushRun | protocol-server/src/utils/thread_safe_queue/thread_safe_queue.h:13-18 | on a free mutex a push appends its task, and may wake one sleeping worker; nothing else changes |
| ThreadPoolClients.SpuriousWakeUp | protocol-server/src/utils/thread_safe_queue/thread_safe_queue.h:20-28 | a worker that wakes up un-notified and finds the queue empty goes back to sleep, and the state is the old one |
| ThreadPoolClients.Accepts | protocol-server/src/utils/thread_pool/thread_pool.cpp:37-40 | for any number of workers and any list of tasks a run leaves exactly these queued, in push order |
| ThreadPoolClients.Parallel | protocol-server/src/utils/thread_pool/thread_pool.cpp:4-17 | all workers can execute at the same time, each the task that was pushed at its turn |
| ThreadPoolClients.EndsAnyTime | protocol-server/src/utils/thread_pool/thread_pool.cpp:7-15 | a task ends, and its worker goes on or exits, whoever holds the mutex |
| ThreadPoolClients.WakesAnyTime | protocol-server/src/utils/thread_safe_queue/thread_safe_queue.h:20-28 | a sleeping worker may wake up un-notified whoever holds the mutex |
| ThreadPoolClients.ClosesAnyTime | protocol-server/src/utils/thread_pool/thread_pool.cpp:27-35 | the destructor can begin at any time, in the middle of a push and whatever is queued |
| ThreadPoolClients.JoinsAnyTime | protocol-server/src/utils/thread_pool/thread_pool.cpp:29-34 | once its stop is pushed it joins an exited worker whoever holds the mutex |
| ThreadPoolClients.RunsAll | protocol-server/src/utils/thread_pool/thread_pool.cpp:27-40 | with one worker, or with all stops first, a whole life of the pool runs each of any list of tasks as often as it is in it |
| TaskProtocol.CompletedIff | protocol-server/src/handler/SyncApiProtocolHandler.cpp:32-72 | completed is answered only after the task ran, and for an issued id exactly if it ran after the initial write; a task runs at most once |
| TaskProtocol.NeverBack | protocol-server/src/handler/SyncApiProtocolHandler.cpp:66-72 | an issued id that is completed stays completed, and a lost one stays pending |
| TaskProtocol.DrainedCompletes | protocol-server/src/handler/SyncApiProtocolHandler.cpp:32-72 | once the pool is drained every issued id is completed unless its completion was lost |
| TaskProtocol.QuietRuns | protocol-server/src/handler/SyncApiProtocolHandler.cpp:32-72 | from any reachable state of a live pool with a worker, every run of the pool's own steps is bounded by the work there is, and when it cannot go on every issued id is completed exactly if it was not lost |
| TaskProtocol.AnswersAllIff | protocol-server/src/handler/SyncApiProtocolHandler.cpp:32-72 | at every moment of every run with a live pool its own steps can complete every issued id that was not lost, exactly if there is a worker |
| TaskProtocol.PoolSide | protocol-server/src/handler/SyncApiProtocolHandler.cpp:32-72 | what a run of the protocol does to the pool is a run of the pool |
| TaskProtocol.ProtocolSide | protocol-server/src/handler/SyncApiProtocolHandler.cpp:32-72 | and every run of the pool whose tasks have new ids is the pool's part in a run of the protocol |
| TaskProtocol.CheckChangesNothing | protocol-server/src/handler/SyncApiProtocolHandler.cpp:66-72 | any id can be asked for at any time, and asking changes no answer |
| TaskProtocol.Settles | protocol-server/src/handler/SyncApiProtocolHandler.cpp:32-72 | from every reachable state of a live pool with a worker, a run of initial writes and the pool's own steps leaves every id known to its client, and completed exactly if its initial write did not come, and does not have to come, after its task |
| TaskProtocol.Serves | protocol-server/src/handler/SyncApiProtocolHandler.cpp:32-72 | from every such state a CONNECT with any new id can be answered and completed |
| TaskProtocol.CompletionReachable | protocol-server/src/handler/SyncApiProtocolHandler.cpp:32-72 | with a worker a prompt run from the start completes any given id |
| TaskProtocol.CompletesIff | protocol-server/src/handler/SyncApiProtocolHandler.cpp:32-72 | some run completes a given id exactly if there is a worker |
| TaskProtocol.PromptIff | protocol-server/src/handler/SyncApiProtocolHandler.cpp:32-46 | all issued ids complete exactly in the runs whose initial writes come before the task's write |
| TaskProtocol.LostReachable | protocol-server/src/handler/SyncApiProtocolHandler.cpp:32-46 | as written, with any number of workers but none, a run loses the completion of any id |
| TaskProtocol.LostIff | protocol-server/src/handler/SyncApiProtocolHandler.cpp:32-46 | some run loses a completion exactly if there is a worker |
| PoolModel.Kept | connection-pool/src/pool.cpp:100-148 | in every run idle and busy stay disjoint with the same union |
| PoolModel.ExclusiveStep | connection-pool/src/pool.cpp:15-45 | a step keeps busy connections in bijection with pointing handles exactly if it neither releases through nor assigns over a pointing handle |
| PoolModel.ExclusiveRun | connection-pool/src/pool.cpp:15-148 | the bijection lasts through a run exactly as long as all its steps are of that kind |
| PoolModel.LeasesEnd | connection-pool/src/pool.cpp:38-60 | after such a run every pointing handle is valid and alone, and with no handle left all connections are idle |
| PoolModel.HeldStep | connection-pool/src/pool.cpp:22-36 | a step leaves some busy connection without a handle exactly if it assigns another handle over the only one that points at it |
| PoolModel.HeldRun | connection-pool/src/pool.cpp:15-148 | at the end of any run, explicit releases included, every busy connection has a handle exactly if no step was of that kind |
| PoolModel.AllIdleIff | connection-pool/src/pool.cpp:15-148 | after any run, with no handle left, all connections are idle exactly if no step was of that kind |
| PoolModel.MoveHandsOver | connection-pool/src/pool.cpp:15-20 | after a move construction and the end of the old handle only the owner of the lease has changed: the new handle is valid exactly if the old one was |
| PoolModel.AssignHandsOver | connection-pool/src/pool.cpp:22-36 | the same for a move assignment |
| PoolModel.AssignToItself | connection-pool/src/pool.cpp:25-29 | assigning a handle to itself changes nothing |
| PoolModel.LossReachable | connection-pool/src/pool.cpp:22-36 | such a run from a fresh pool |
| PoolModel.SharingStep | connection-pool/src/pool.cpp:100-126 | two handles come to share a connection exactly when one is handed out that a live handle still points at |
| PoolModel.DoubleLease | connection-pool/src/pool.cpp:128-148 | an explicit release allows two valid handles on one connection, and the first one's end ends the lease of the second |
| PoolModel.OverwrittenLeaks | connection-pool/src/pool.cpp:22-36 | assigning over a valid handle leaves its connection busy, and without a handle exactly if no other points at it |
| PoolModel.LeakedForever | connection-pool/src/pool.cpp:22-36 | and it stays so whatever happens |
| ConnectionPool.Proxy.Move | connection-pool/src/pool.cpp:15-20 | move construction is the model's step: the new handle has what the old one had, which is null afterwards |
| ConnectionPool.Proxy.Assign | connection-pool/src/pool.cpp:22-36 | move assignment is the model's step, self-assignment included: the target has what the source had, which is null afterwards |
| ConnectionPool.Proxy.Destroy | connection-pool/src/pool.cpp:38-45 | the destructor is the model's step |
| ConnectionPool.Proxy.IsValid | connection-pool/src/pool.cpp:51-60 | valid means that the handle points at a busy connection |
| ConnectionPool.Pool.constructor | connection-pool/src/pool.cpp:89-96 | all connections start idle |
| ConnectionPool.CheckConnect | connection-pool/src/pool.cpp:69-85 | only a reconnect that fails makes a connection unusable; an exception does not |
| ConnectionPool.Pool.GetConnection | connection-pool/src/pool.cpp:69-126 | leases the first connection in walking order whose reconnecting did not fail, all before it having failed, or returns a null handle if all failed |
| ConnectionPool.Pool.Release | connection-pool/src/pool.cpp:128-131 | frees the connection and leaves the handle as it is |
| ConnectionPool.Pool.Free | connection-pool/src/pool.cpp:133-148 | a busy connection becomes idle, anything else is ignored |
| ConnectionPool.Pool.Sizes | connection-pool/src/pool.cpp:150-166 | the counts of all, idle and busy connections |
| WeightedRoundRobin.Selector.SelectServer | protocol-server/src/engine/load_balancer/WeightedRoundRobinStrategy.h:14-27 | the selector goes on from the lists of all calls so far, which may differ; call k on one list returns its pick k |
| WeightedRoundRobin.NeverOutside | protocol-server/src/engine/load_balancer/WeightedRoundRobinStrategy.h:22-26 | on non-empty lists that never shrink every call picks a server of its list |
| WeightedRoundRobin.LastsIff | protocol-server/src/engine/load_balancer/WeightedRoundRobinStrategy.h:18-22 | the next call stays with the server picked last exactly while its interval, or its capture by a negative weight, lasts |
| WeightedRoundRobin.ShrunkIff | protocol-server/src/engine/load_balancer/WeightedRoundRobinStrategy.h:18-26 | after any number of calls on one list, a call on another non-empty one reads past its end exactly if it ends before the server picked last and the share of that server lasts |
| WeightedRoundRobin.Outside | protocol-server/src/engine/load_balancer/WeightedRoundRobinStrategy.h:18-26 | three calls, the last on a shorter list, of which the last reads past the end |
| WeightedRoundRobin.PickInterval | protocol-server/src/engine/load_balancer/WeightedRoundRobinStrategy.h:14-27 | without negative weights pick k is the server whose interval of shares contains k modulo the total, where a share is the weight but at least one |
| WeightedRoundRobin.PickAt | protocol-server/src/engine/load_balancer/WeightedRoundRobinStrategy.h:14-27 | the same for any weights: up to the first negative one the intervals are filled in order, and its server has all later calls |
| WeightedRoundRobin.WindowIff | protocol-server/src/engine/load_balancer/WeightedRoundRobinStrategy.h:14-27 | every window of one total, wherever it starts, picks each server exactly its share if and only if no weight is negative or there is one server |
| WeightedRoundRobin.FairIff | protocol-server/src/engine/load_balancer/WeightedRoundRobinStrategy.h:14-27 | some window length always gives each server exactly its weight if and only if all weights are at least one |
| WeightedRoundRobin.NobodyStarvesIff | protocol-server/src/engine/load_balancer/WeightedRoundRobinStrategy.h:18-25 | every server is picked again after every call if and only if no weight is negative or there is one server |
| WeightedRoundRobin.NegativeCaptures | protocol-server/src/engine/load_balancer/WeightedRoundRobinStrategy.h:18-25 | a picked server of negative weight is the first such server, and is picked for ever |
| StringSplit.Find | protocol-server/src/utils/StringUtils.h:18 | the first occurrence at or after a position, or none |
| StringSplit.Split | protocol-server/src/utils/StringUtils.h:12-27 | ends; joining the tokens gives the string back; in each token but the last, followed by the delimiter, the delimiter first occurs at the end, and in the last it does not occur |
| StringSplit.Unique | protocol-server/src/utils/StringUtils.h:12-27 | only one list of tokens is like that, self-overlapping delimiters included |
| StringSplit.EndsIff | protocol-server/src/utils/StringUtils.h:18-23 | for every string, the number of turns of the loop is bounded if and only if the delimiter is not empty |
| StringSplit.GetsOn | protocol-server/src/utils/StringUtils.h:18-23 | with a delimiter every turn moves on within the string |
| StringSplit.Stuck | protocol-server/src/utils/StringUtils.h:18-23 | without one the loop is at the start of the string after every turn, with one empty token more |
| Scheduler.PendingIff | protocol-server/src/utils/scheduler/SimpleScheduler.cpp:14-22 | a task waits exactly as long as no scan since its addition found it due |
| Scheduler.LogIff | protocol-server/src/utils/scheduler/SimpleScheduler.cpp:14-22 | a task runs at a scan exactly if that is the first one since its addition at or after its due time |
| Scheduler.RunsOnce | protocol-server/src/utils/scheduler/SimpleScheduler.cpp:16-18 | no task runs twice or waits after running |
| Scheduler.WaitsOrRan | protocol-server/src/utils/scheduler/SimpleScheduler.cpp:4-22 | every added task waits or has run |
| Scheduler.PendingOrder | protocol-server/src/utils/scheduler/SimpleScheduler.cpp:18-20 | waiting tasks keep the order in which they were added |
| Scheduler.LogOrder | protocol-server/src/utils/scheduler/SimpleScheduler.cpp:12-22 | runs are ordered by scan and, within a scan, by addition |
| Scheduler.SimpleScheduler.AddTask | protocol-server/src/utils/scheduler/SimpleScheduler.cpp:4-8 | exactly this task is appended to the list, which holds the waiting tasks of the history |
| Scheduler.SimpleScheduler.Sweep | protocol-server/src/utils/scheduler/SimpleScheduler.cpp:14-22 | the scan-and-erase loop keeps the tasks that are not due and runs the due ones, each in order |
| Scheduler.SimpleScheduler.ScanOnce | protocol-server/src/utils/scheduler/SimpleScheduler.cpp:13-22 | one scan splits the list: every task run was added and is due, every task kept was added and is not, and together they are the old list; both are what the history says |
| Scheduler.Conserved | protocol-server/src/utils/scheduler/SimpleScheduler.cpp:4-22 | in every history the tasks run and the tasks waiting are together, each as often, the tasks added |
| Scheduler.SimpleScheduler.AllAccountedFor | protocol-server/src/utils/scheduler/SimpleScheduler.cpp:4-22 | so are, at any time, the tasks the object has executed and those in its list |

## Left out

- Comparison functions: the trees compare integer keys; a `cmp` that is not a total order is not modelled.
- RB_AUGMENT is empty unless a user defines it, and the walks that only call it are not modelled.
- RB_FOREACH_FROM, RB_FOREACH_SAFE and their reverse forms: the same steps from another start, or with the next node read first.
- SPLAY_NEXT is outside the amortised bound: its descent to the next node is not a splay.
- MinMaxTo: stated for a direction, as both callers of SPLAY_MINMAX pass one; with direction zero its loop never ends (RoundOut).
- Split: stated for a non-empty delimiter; with an empty one its loop never ends (EndsIff).
- SelectServer: stated for calls that read within their list; an empty list, or a server past the end of one, has no meaning in the source.
- The thread pool, the queue and the task protocol are modelled on values, as steps of a state machine, because their threads interleave; what C++ objects hold is not modelled there.
- A client pushing a stop task of its own, exceptions thrown by tasks, and detached threads.
- The data race on the response map: each read and write of it is one step, and generated ids are distinct.
- Packet layouts, buffer lengths and the captured packet address in the handler.
- Connection health calls, reconnecting and heart beats: their results are parameters, and the order in which an unordered map is walked is one too.
- A pool destroyed while handles live.
- The scheduler's outer loop with its sleep and its running flag, and tasks that add tasks while they run.
- ChopLine, getStringWithEscapes, the other load balancing strategies, and all socket, event loop, TLS, logging and database code.
- The copies of these files under `protocol-client`.
