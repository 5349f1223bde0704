# Message transmitter: the receiver's store and its forwarding protocol

A sender process numbers messages and sends them over UDP. A receiver process keeps the first
message of every id in a search tree and forwards the messages with id 10 over TCP through a
second tree used as a queue. Two receiver threads fill the containers, one sender thread
empties the queue. This project models the receiver from its pointer algorithms up to its
threads and proves what the layers promise to each other.

| file | content |
|---|---|
| `Messages.dfy` | the message record with its field widths, message numbering, the forwarding rule |
| `OrderedMap.dfy` | finite maps in key order: insert-if-absent, successor, least key, pigeonhole |
| `SearchTree.dfy` | search trees as values that also name the node objects; insertion and deletion and their exact meaning |
| `Bst.dfy` | the pointer algorithms on heap nodes, refined to `SearchTree` |
| `BstImpl.dfy` | the wrapper class with the cached size, refined to a map |
| `Printing.dfy` | the textual listing and a parser that reads it back |
| `Container.dfy`, `Client.dfy` | the locked container and the client's critical sections on the heap |
| `ConcurrentInsert.dfy` | any number of threads inserting into one container |
| `Queue.dfy`, `QueueRuns.dfy` | the queue discipline "push at key size(), pop the least key": one step, pushes in a row, whole runs |
| `Server.dfy` | the numbering loop of the sender process |
| `Protocol.dfy` | the receiver process as a transition system: program counters, lock owners, the condition variable, the two trees, a hostile network |
| `ProtocolInvariants.dfy`, `ProtocolTheorems.dfy`, `Forwarding.dfy` | what every step keeps, and the theorems about every reachable state |
| `ProtocolRuns.dfy` | which runs of pushes and pops the process goes through, and what it can therefore do to its messages |

How the layers meet: the heap methods are specified by the functions of `SearchTree`
(`Represents(node, tree)` says that the objects reachable from a pointer are exactly a tree);
the protocol runs the same functions on trees without objects, and `SearchTree.ForgetInsert` and
`SearchTree.ForgetDelete` say that the objects make no difference. Both are tied to the map steps
`Queue.PushMap` and `Queue.PopMap`, on which the queue theorems are proved: `Clients.Replay` takes
the client on the heap through every run of the queue, `ProtocolTheorems.QueueRefinement` says that
the process stays inside these runs, and `ProtocolRuns.FeasibleRunsOccur` which of them it goes through.

Findings about the code:

* Deleting a node with two children copies the successor's key but not its value
  (`udp_receiver/bst_api.h:135`). `SearchTree.DeleteMeaning` states the resulting map exactly and
  `SearchTree.DeleteIsPlainRemoval` when it is nevertheless plain removal.
  `BstWrapper.RemoveCanCorruptAMessage` builds a container by three inserts in which removing one
  message replaces another, and `BstWrapper.DictionaryIffHarmless` says for which sequences of
  operations the container is a dictionary throughout. The client is not affected: it only removes
  the least key (`SearchTree.DeleteLeast`).
* Pushing at key `size()` is not a queue in general. After a pop that leaves messages behind a
  push may be dropped or may overtake, on the heap (`Clients.LoseAPush`, `Clients.Overtake`) and in
  the running process (`ProtocolRuns.ProcessCanLoseAMessage`, `ProtocolRuns.ProcessCanReorder`).
  `QueueRuns.FifoIffDisciplined` says exactly in which runs the order of arrival is kept.

## Model

| member | source | states |
|---|---|---|
| SearchTree.InsertMeaning | udp_receiver/bst_api.h:68-84 | insertion into any search tree gives a search tree and is insert-if-absent on the key/value map |
| SearchTree.InsertFootprint | udp_receiver/bst_api.h:68-84 | a new key adds exactly one node object and a present key none; nothing becomes shared; a non-empty tree keeps its root object |
| SearchTree.InsertAddsALeaf | udp_receiver/bst_api.h:68-84 | a new key goes into a node without children; every node there was keeps its key, its value and each child it had |
| SearchTree.LeastIsMinimum | udp_receiver/bst_api.h:87-96 | the leftmost node holds the least key of the map and that key's value |
| SearchTree.DeleteKeys | udp_receiver/bst_api.h:99-141 | deletion gives a search tree whose keys are the old ones without the key; an absent key changes nothing |
| SearchTree.DeleteMeaning | udp_receiver/bst_api.h:99-141 | with two children the successor key ends up with the deleted node's value, in every other case the map loses just the key; the two-children branch runs once over all recursion depths, or never |
| SearchTree.DeleteIsPlainRemoval | udp_receiver/bst_api.h:131-138 | deletion is plain map removal if and only if the node lacks a child or its successor holds an equal value |
| SearchTree.DeleteCanCorruptAValue | udp_receiver/bst_api.h:135 | in the tree made by inserting 2, 1 and 3, deleting key 2 leaves its value at key 3 |
| SearchTree.CopiedKeyState | udp_receiver/bst_api.h:131-138 | between copying and deleting the successor its key occurs twice, the deleted key not at all, every other key once; the tree is unsorted, its subtrees are sorted, and the pending deletion repairs it |
| SearchTree.DeleteLeast | udp_receiver/bst_api.h:120-129 | deleting the least key never takes the two-children branch at any depth, is exact map removal, and frees the leftmost node |
| SearchTree.DeleteFootprint | udp_receiver/bst_api.h:118-140 | a successful deletion takes exactly one node object out of the tree (the successor's with two children) and the rest stays unshared |
| SearchTree.DeleteFreesAtMostOneChild | udp_receiver/bst_api.h:118-140 | the node taken out has at most one child, which becomes the root if that node was the root |
| SearchTree.DeleteSplices | udp_receiver/bst_api.h:99-141 | a pointer to the node taken out then leads to its only child; no other pointer and no value changes, and no key but the deleted one, which gives way to the key of the node taken out |
| SearchTree.FreedHeld | udp_receiver/bst_api.h:118-138 | the node taken out held the deleted key or, if that node has two children, the next key |
| SearchTree.TwoChildrenMeaning | udp_receiver/bst_api.h:118-127 | the two-children case is decided by the two child pointers of the node with the key |
| SearchTree.ForgetInsert | udp_receiver/bst_api.h:68-84 | which objects hold the entries makes no difference to insertion |
| SearchTree.ForgetDelete | udp_receiver/bst_api.h:99-141 | which objects hold the entries makes no difference to deletion |
| SearchTree.SizeIsKeyCount | udp_receiver/bst_impl.cpp:92-95 | a search tree has as many nodes as its map has keys |
| Bst.Node.constructor | udp_receiver/bst_api.h:17-25 | a new node holds the given entry and has no children |
| Bst.RepresentsUnique | udp_receiver/bst_api.h:9-14 | a pointer represents at most one tree, so the ghost tree is determined by the heap |
| Bst.Search | udp_receiver/bst_api.h:51-65 | finds null exactly for absent keys, otherwise a node of the tree with that key and the map's value |
| Bst.Insert | udp_receiver/bst_api.h:68-84 | the heap after insertion represents the specified tree; a new entry lives in a fresh object without children; every other node keeps its entry and each child it had; a non-null root is returned unchanged |
| Bst.MinValueNode | udp_receiver/bst_api.h:87-96 | the loop ends at the node with the least key, or at null for the empty tree |
| Bst.DeleteNode | udp_receiver/bst_api.h:99-141 | the heap after deletion represents the specified tree; the freed object is the specified one, had at most one child and is bypassed; no other pointer, value or key changes |
| Bst.DeleteRoot | udp_receiver/bst_api.h:118-140 | the same for the entry of the root |
| Bst.PullUpSuccessor | udp_receiver/bst_api.h:131-138 | with two children the root object stays, the successor's object is freed, and the heap represents the specified tree |
| Bst.CopySuccessorKey | udp_receiver/bst_api.h:131-135 | the heap in between: only the root's key has changed, to the successor's, and the tree is not sorted |
| Bst.AppendText | udp_receiver/bst_api.h:28-41 | appends the in-order listing of the represented tree |
| BstWrapper.BstImpl.SizeIsExact | udp_receiver/bst_impl.cpp:92-100 | the cached size is the number of keys and of reachable node objects; it is 0 exactly when the root is null |
| BstWrapper.BstImpl.Contains | udp_receiver/bst_impl.cpp:18-27 | true exactly for the keys of the map |
| BstWrapper.BstImpl.Insert | udp_receiver/bst_impl.cpp:34-45 | insert-if-absent on the map, the resulting tree exactly; a new key adds one fresh node object without children, every old node keeps its entry and its children, and the root stays when not null; size in step |
| BstWrapper.BstImpl.At | udp_receiver/bst_impl.cpp:47-65 | the map's value, or the error case for an absent key |
| BstWrapper.BstImpl.BeginIndex | udp_receiver/bst_impl.cpp:67-71 | the least key of a non-empty container |
| BstWrapper.BstImpl.BeginValue | udp_receiver/bst_impl.cpp:73-77 | the value stored under the least key |
| BstWrapper.BstImpl.Remove | udp_receiver/bst_impl.cpp:79-85 | exact effect on map, key set, node objects and size, and on the fields of every node that stays; plain removal for the least key |
| BstWrapper.BstImpl.Empty | udp_receiver/bst_impl.cpp:97-100 | true exactly when the map is empty and exactly when the root is null |
| BstWrapper.BstImpl.ToString | udp_receiver/bst_impl.cpp:87-90 | the text is determined by the map and reading it back gives the map |
| BstWrapper.Replay | udp_receiver/bst_impl.cpp:29-100 | over every sequence of add, insert and remove from construction the contents are those of the specified tree, the keys those of a dictionary, the size equals the number of keys and of node objects, and the root is null exactly when there are none |
| BstWrapper.DictionaryIffHarmless | udp_receiver/bst_impl.cpp:29-85 | the contents are those of a dictionary after every operation of a sequence if and only if no removal hits a node with two children whose successor holds another message |
| BstWrapper.RemoveCanCorruptAMessage | udp_receiver/bst_api.h:135 | a container built by three inserts in which removing message b loses message c and leaves b in its place |
| Printing.DecimalRoundTrip | common/message_format.h:63-75 | a decimal number consists of digits and reads back as itself |
| Printing.DecimalForm | common/message_format.h:66-72 | one digit below ten, and no leading zero above |
| Printing.DecimalIsUnique | common/message_format.h:66-72 | digits without a needless leading zero are the decimal form of the number they read as |
| Printing.LineText | udp_receiver/bst_api.h:33-37 | a line of the listing, piece by piece, with each number in decimal form |
| Printing.BuildCompact | common/message_format.h:63-75 | the text built by appending is the message text the parser is proved against |
| Printing.ParseCompactOfPrinted | common/message_format.h:63-75 | the message text reads back as the same message, whatever follows it |
| Printing.PrintIsCanonical | udp_receiver/bst_api.h:28-48 | the listing depends only on the map, not on the shape of the tree |
| Printing.EntriesIncrease | udp_receiver/bst_api.h:28-48 | the keys are listed in strictly increasing order |
| Printing.PrintRoundTrip | udp_receiver/bst_api.h:28-48 | parsing the listing gives back exactly the map |
| Printing.PrintSeparatesMaps | udp_receiver/bst_api.h:28-48 | two trees print alike if and only if they hold the same map |
| Containers.Container.Insert | udp_receiver/container.cpp:48-56 | exactly one critical section on the mutex, which is free afterwards, with the effect of insert-if-absent |
| Containers.Container.Remove | udp_receiver/container.cpp:98-106 | exactly one critical section, with the exact effect of the tree removal; removal of the least key is exact |
| Clients.Client.SaveMessage | udp_receiver/client.h:68-72 | the store keeps the first message of an id |
| Clients.Client.Push | udp_receiver/client.cpp:62-66 | on the heap, the section is the push step of the queue discipline |
| Clients.Client.Receive | udp_receiver/client.cpp:58-67 | every message is saved; it is pushed exactly when its id is 10; the two containers stay apart |
| Clients.Client.TakeNext | udp_receiver/client.cpp:89-91 | on the heap, the section is the pop step and returns the value stored under the least key |
| Clients.Client.SendNext | udp_receiver/client.cpp:84-91 | the pop step on every queue: nothing is taken from an empty one |
| Clients.Replay | udp_receiver/client.cpp:62-91 | on the heap, every sequence of pushes and pops leaves the contents of the queue run and sends its messages |
| Clients.LoseAPush | udp_receiver/bst_impl.cpp:36 | calls after which the fourth message is in no container and was not sent |
| Clients.Overtake | udp_receiver/client.cpp:64-65 | calls in which the fourth message is sent before the third |
| ConcurrentInsert.StepKeepsInv | udp_receiver/container.cpp:48-56 | every lock, insert and unlock step keeps mutual exclusion and the map in step with the inserts done |
| ConcurrentInsert.Exclusion | udp_receiver/container.cpp:48-56 | in every state of every run at most one thread is inside, and the keys are those of the inserts that took effect |
| ConcurrentInsert.ThreadCanStep | udp_receiver/container.cpp:48-56 | a given thread can step if and only if it is inside, or has inserts left and nobody is inside |
| ConcurrentInsert.StepsUntilFinished | udp_receiver/container.cpp:48-56 | some thread can step if and only if not all threads have done their inserts and left |
| ConcurrentInsert.Confluence | udp_receiver/container.cpp:48-56 | every finished interleaving of any number of threads ends in the same map with one entry per distinct key |
| ConcurrentInsert.AllThreadsSameKeys | udp_receiver/test_container_functional.cpp:72-126 | threads that all insert 0 to n - 1 leave n messages, however many threads there are |
| Queue.PushesInARow | udp_receiver/client.cpp:64-65 | n pushes without a pop: a first part lands on consecutive keys from the size on, the rest leaves the queue unchanged; how many are accepted is exact |
| Queue.AcceptedForever | udp_receiver/client.cpp:64-65 | every row of pushes is accepted completely if and only if the keys are 0 to size - 1 |
| Queue.RoomIsFree | udp_receiver/client.cpp:64-65 | otherwise the number accepted is the distance from the size to the next live key |
| Queue.PushesThenPops | udp_receiver/client.cpp:89-91 | n pushes from empty and m pops leave the keys m to n - 1 with the values pushed there |
| Queue.NextPushAccepted | udp_receiver/client.cpp:64-65 | after n pushes from empty and m pops the next push is accepted if and only if m = 0 or 2m > n |
| QueueRuns.Conservation | udp_receiver/client.cpp:61-66 | in every run the accepted messages are the popped ones and the stored ones, with multiplicity |
| QueueRuns.KeysBelowPushes | udp_receiver/client.cpp:64-65 | no key or size in a run exceeds the number of pushes |
| QueueRuns.FillingIffDense | udp_receiver/client.cpp:64-65 | in every run the keys are 0 to size - 1 exactly while no pop has happened since the queue was last empty |
| QueueRuns.DisciplinedIsFifo | udp_receiver/client.cpp:84-91 | if every push happens before any pop since the queue was last empty, popped and stored messages in key order are the pushed ones |
| QueueRuns.FifoIffDisciplined | udp_receiver/client.cpp:84-91 | for distinct messages the order of arrival is kept in exactly those runs |
| QueueRuns.EpisodeInRun | udp_receiver/client.cpp:64-91 | if n >= 2 pushes precede the first pop on an empty queue then, whatever follows, until it is next empty the largest key is n - 1 and holds the n-th message, the size stays below n, and the n-th message is delivered last |
| QueueRuns.APushCanBeLost | udp_receiver/bst_impl.cpp:36 | a run of four pushes in which the fourth message is dropped |
| QueueRuns.APushCanOvertake | udp_receiver/client.cpp:64-65 | a run in which the fourth message is delivered before the third |
| Servers.Start | udp_sender/server.cpp:11-53 | the loop tries to send once in every round without an error, with a client and a socket ready to send, and in no other; the i-th message has number i modulo 2^64, whether or not earlier sends failed; the command kept is the last one received |
| ProtocolInvariants.LockOrder | udp_receiver/client.cpp:26-93 | a thread only waits for a lock of higher rank than the mutexes it holds: message, then TCP, then container or log |
| ProtocolInvariants.StepKeepsLocks | udp_receiver/client.cpp:18-109 | every step keeps lock ownership in agreement with the program counters of all threads |
| ProtocolInvariants.StepKeepsData | udp_receiver/client.cpp:56-60 | every step keeps: messages in the process come from the network, the store holds the first saved message of every id |
| ProtocolInvariants.StepKeepsDelivery | udp_receiver/client.cpp:56-60 | every step of every thread keeps: what the socket delivered has been saved, in order, but for the message in the hands of the owner of the message mutex |
| ProtocolInvariants.StepKeepsOffer | udp_receiver/client.cpp:89-105 | every step keeps: what was popped has been offered to the TCP socket, in order, but for the message in the hands of the sender |
| ProtocolInvariants.StepKeepsQueue | udp_receiver/client.cpp:61-98 | every step keeps: the tree in memory is the queue of the run of pushes and pops so far, and what a thread has read in its section is still true |
| ProtocolInvariants.StepKeepsWake | udp_receiver/client.cpp:62-87 | every step keeps: a parked, unnotified sender is owed a notification once the queue is not empty |
| ProtocolTheorems.QueueRefinement | udp_receiver/client.cpp:61-91 | in every reachable state the queue and the popped messages are those of a queue run, and accepted messages are conserved over all interleavings |
| ProtocolTheorems.SenderIsSafe | udp_receiver/client.cpp:84-96 | the sender reads and removes on a non-empty tree only, always the same least key; no null pointer is followed and the bad-id branch is unreachable |
| ProtocolTheorems.PushIsAtomic | udp_receiver/client.cpp:62-66 | the size read is still the size at the insertion, and two threads are never both inside the TCP section |
| ProtocolTheorems.NoLostWakeUp | udp_receiver/client.cpp:84-87 | a parked sender without a notification sleeps on an empty queue, unless the owner of the TCP mutex is about to notify |
| ProtocolTheorems.ContainersAreLocked | udp_receiver/container.cpp:48-106 | a step changes a container, or depends on the queue, only with the mutex of that container |
| ProtocolTheorems.OwnerLeadsToRunner | udp_receiver/client.cpp:26-93 | from the owner of any lock the waits-for chain ends, after at most two waits, at a thread that can run |
| ProtocolTheorems.NobodyIsStuck | udp_receiver/client.cpp:26-93 | in every reachable state a waits-for chain of at most three waits leads from every thread that has not left its loop and is not asleep to a thread that can run |
| ProtocolTheorems.NoWaitsForCycle | udp_receiver/client.cpp:26-93 | the waits-for relation has no cycle in any reachable state |
| ProtocolTheorems.DeadlockFree | udp_receiver/client.cpp:18-109 | some thread can run, without counting spurious wake-ups, if and only if not all receivers have left their loop with the sender asleep; then everything accepted has been popped |
| ProtocolTheorems.RoundsEnd | udp_receiver/client.cpp:18-109 | every action inside a round brings its end nearer; a receiver stops only at a closed socket, and the sender sleeps only on an empty queue |
| ProtocolTheorems.FirstByIdMeaning | udp_receiver/client.h:68-72 | the message kept for an id is the first one received with it |
| ProtocolTheorems.EveryDeliveryIsSaved | udp_receiver/client.cpp:56-60 | in every reachable state the deliveries, to whichever receiver, are the saved messages and at most one in hand; between receptions they are the same |
| ProtocolTheorems.EveryPopIsOffered | udp_receiver/client.cpp:89-105 | in every reachable state the popped messages are those offered to the socket and at most one in hand |
| ProtocolTheorems.EndToEnd | udp_sender/server.cpp:40-49 | over a network that loses, duplicates and reorders, the store has at most the keys 0 to 19, each with the first message delivered for it and agreeing with its id and number; between receptions it has the id of every message delivered; every popped message has id 10 and is that of a used number congruent to 10 modulo 20 |
| Forwarding.ForwardCount | udp_receiver/client.h:51-54 | a message with id 10 is to be forwarded as often as it was received, any other never |
| Forwarding.ForwardPlaces | udp_receiver/client.h:51-54 | the messages to forward stand at increasing places of the received ones, exactly those with id 10 |
| Forwarding.PushesAreTheForwardedMessages | udp_receiver/client.cpp:58-67 | the pushes are the received messages to forward in order of reception, but for at most one in the hands of a receiver; between receptions they are the messages with id 10 among all deliveries, at increasing places |
| Forwarding.ForwardedInOrder | udp_receiver/client.cpp:56-91 | between receptions, popped and stored messages are the received ones to forward, in order, in disciplined runs, and for distinct messages only in those |
| Forwarding.NothingIsInvented | udp_receiver/client.cpp:56-91 | no message is popped or stored more often than it was received, nor received more often than delivered |
| ProtocolRuns.FeasibleRunsOccur | udp_receiver/client.cpp:18-109 | the process goes through a run of pushes and pops if and only if every message pushed is one the server makes for forwarding and every pop finds the queue not empty |
| ProtocolRuns.AnyDeliveryOccurs | udp_receiver/client.cpp:56-60 | a sequence of messages can be what the socket delivers if and only if each is the message the server makes for its number: the network may lose, duplicate and reorder |
| ProtocolRuns.ProcessCanLoseAMessage | udp_receiver/bst_impl.cpp:36 | a reachable state in which four messages for forwarding were received and the fourth is neither sent nor stored |
| ProtocolRuns.ProcessCanReorder | udp_receiver/client.cpp:64-65 | a reachable state in which the fourth message was sent and the third is still stored |

## Left out

- Sockets, addresses, select, partial datagrams and byte layout: a receive yields a whole datagram that was sent at some time, or fails.
- The sync command, `isOpen`, `hasServer`, timeouts, sleeps and `connected`: free choices of the environment in the protocol steps.
- What the TCP socket does with a popped message: the code ignores the result, so offering it to the socket is the last observed event.
- The container's `contains`, `at` and `toString`, which only put the mutex around the tree's operations, and the overload of `contains` for a message.
- Shutdown, destructors and freeing whole trees: `m_terminate` is never set in these files.
- Log texts: only the log mutex matters, as a lock around single actions. The direct output in `saveMessage` takes no lock and is omitted.
- The shared-mutex branch of the container, which is switched off, and the functional test that only prints.
- Keys and sizes are unbounded naturals. The tree algorithms only compare keys; a size counts live objects with distinct addresses, so it cannot wrap, and `QueueRuns.KeysBelowPushes` bounds every queue key by the number of pushes. The counter of the server is modelled with its wrap-around, the message fields with their widths.
- Memory exhaustion: `new` always succeeds.
- Clients.Client.Receive: one uninterrupted call; the client's mutexes, the condition variable and interleavings are the subject of `Protocol.dfy`.
- Containers.Container.BeginValue: returns a copy of the value, where the source returns a reference that outlives the container's critical section. The sender copies it while it holds the TCP mutex, which `ProtocolTheorems.PushIsAtomic` shows to exclude every other access to the queue.
- Servers.Start: the endless loop is followed for any finite number of rounds; the round counter, which is only printed, is omitted.
- Fairness: that a thread which can run eventually does is not modelled, so delivery is not claimed within a time.
