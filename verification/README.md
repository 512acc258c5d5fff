# librfn in Dafny

librfn is a C library for small embedded systems. This project models its hard parts in Dafny and proves
what they promise.

- **Trees in constant space** (`tree_shape`, `flat_tree`, `bintree`, `bintree_walk`, `bintree_list`). The in-order
  and pre-order iterators are Morris traversals cut into resumable calls. Post-order iteration marks nodes while
  such a traversal is going on and unmarks them one by one. The destructor frees nodes in the middle of that
  iteration. Nodes are heap objects whose left pointer carries a mark; the recursive traversals are the
  specification. A node has a ghost field `live`, which every access requires, so that reading freed memory does
  not verify. An iterator keeps the tree as parallel sequences indexed by in-order position, and its state as two
  numbers: how many nodes it has finished with (`q`) and where it looks next (`c`). These two determine all threads.
- **Lock-free queues** (`residues`, `messageq`, `messageq_object`, `ringbuf`). Transition systems with one step per
  atomic operation and a program counter per thread. The n-th successful claim of a run holds ticket n; stored
  indices are residues of ticket numbers. The objects run the code uninterrupted and refine the same steps.
- **Fibre scheduler** (`list`, `scheduler`, `scheduler_time`, `scheduler_sleep`, `scheduler_order`, `scheduler_runs`,
  `scheduler_fast_path`, `fibre`). The linked list and the kernel are heap objects, and two lists share the link of
  every fibre. The kernel refines an abstract scheduler on sequences, about which safety, absence of starvation, the
  exact order of calls, sleeping until due and the correctness of the single-fibre shortcut are proved over whole
  runs. The behaviour of a fibre's entrypoint is any sequence of scheduler calls followed by a returned state;
  interrupt handlers are calls between scheduler calls.
- **Codecs and arithmetic** (`words`, `pack`, `wavheader`, `wavheader_roundtrip`, `wavheader_init`, `hex`, `hex_lines`,
  `hex_roundtrip`, `rand`). The WAV header codec over an overrunning cursor, the hex printer and parser, and Carta's
  division-free random numbers.

`wrappers` and `sequences` hold what all parts share. `dafny verify dfyconfig.toml` checks the whole project.

## Findings

Some of what the code is meant to do holds only under a condition, which is proved to be exact; the last two entries
delimit what the hex parser and the list iterators do.

- `num_free` of the message queue is an unsigned char, but `messageq_claim` tests it for a value of at most zero. A
  claim that starts its `fetch_sub` while another one has failed and not yet compensated can be granted a slot that
  is taken. `Sound` is the condition on the state before the `fetch_sub`. Where it holds at each `fetch_sub` of a run
  (`Permitted`), the other theorems apply; runs without overlap are of this kind (`CalmRunIsRun`). Wherever it fails,
  the run can go on to a state in which one slot has two owners (`UnsoundShares`). `OverlappingClaims` is such a run.
- A decoded length larger than the buffer is meant to tell that a WAV header is truncated. If the cut hides the
  extension of the format chunk, a format chunk size close to 2^32 makes the length wrap around
  (`TruncationDetected`, `TruncationMissed`).
- A WAV header without a fact chunk whose data chunk identifier reads "fact" does not survive the round trip, nor
  does one with absent fields that are not zero (`RoundTrip`). `rf_wavheader_set_num_frames` makes such headers: it
  stores a sample length even without a fact chunk (`WithFramesSound`). `FrameCountLost` shows it for ordinary PCM.
- In the RIFF format the size in the first chunk is the number of bytes that follow it. `rf_wavheader_init` stores the
  one for a header with a fact chunk whatever the sample format, so that it is right exactly for floating point
  (`FirstSizeExact`).
- `hex_get_byte` looks for a colon without regard to line ends. Bytes on lines without a colon are lost if a colon
  follows on a later line (`LostBeforeColon`, `LineLost`); `FirstLineWithByte` says exactly what is found.
- The list iterators of `bintree.c` follow one spine. They return what the recursive list traversal visits exactly for
  lists that lean to one side (`ReturnedIffLeaning`); the traversal itself does not depend on the balance.

The comment on `list_insert_sorted` in `list.c` says that the tail matches the loop's end condition; `FindSorted`
proves that the scan needs nothing else, not even a transitive comparator.

## Assumptions

Trees are finite, with distinct and unmarked nodes. Message queues have 1 to 32 messages, ring buffers at least one
cell. `fibre_timeout` is called by the current fibre, which is not asleep already (`Permitted`); otherwise the
assertion of `list_insert_sorted` fails or the timer queue becomes circular (`QueuedLink`, `ReinsertTail`). Timing
theorems assume that the clock does not run backwards and advances by less than 2^31 between calls while a fibre sleeps.
Atomic operations are sequentially consistent.

## Model

| member | source | states |
|---|---|---|
| TreeShape.InOrderVisits | librfn/bintree.c:23-37 | The recursive in-order traversal visits the node at in-order position i as its i-th non-null visit, with that node's parent |
| TreeShape.PreOrderVisits | librfn/bintree.c:79-91 | The recursive pre-order traversal visits each node at the rank computed for its position |
| TreeShape.PostOrderVisits | librfn/bintree.c:59-71 | The recursive post-order traversal visits each node at the rank computed for its position |
| TreeShape.RankInBlock | librfn/bintree.c:59-71 | The root of a subtree is visited last among its nodes in post-order |
| BinTree.MorrisStart | librfn/bintree.c:166-172 | An untouched tree in memory is the start state of a Morris traversal |
| BinTree.MorrisEnd | librfn/bintree.c:130-164 | The end state of a Morris traversal is the untouched tree, if no node was marked meanwhile |
| BinTree.Iterator.Predecessor | librfn/bintree.c:140-148 | The search for the in-order predecessor ends at it, and tells by its right pointer whether the thread is there |
| BinTree.Iterator.Step | librfn/bintree.c:130-164 | One turn of the loop shared by both Morris iterators leads from one Morris state to the next and touches right pointers only |
| BinTree.Iterator.InOrderNext | librfn/bintree.c:130-164 | Returns the next node of the recursive in-order traversal, or null at its end, from any state reached before, even if returned nodes were marked |
| BinTree.Iterator.IterateInOrder | librfn/bintree.c:166-172 | Returns the first node of the recursive in-order traversal of any tree with distinct nodes |
| BinTree.Iterator.PreOrderNext | librfn/bintree.c:313-347 | Returns the next node of the recursive pre-order traversal, or null at its end |
| BinTree.Iterator.IteratePreOrder | librfn/bintree.c:349-355 | Returns the first node of the recursive pre-order traversal |
| BinTree.Iterator.Mark | librfn/bintree.c:298-301 | Marking a node that an in-order traversal has returned does not disturb the traversal |
| BinTree.Iterator.MarkTree | librfn/bintree.c:298-301 | The marking loop marks every node, during the traversal, and the traversal ends with all right pointers restored |
| BinTree.Iterator.PostOrderNext | librfn/bintree.c:242-280 | Returns the next node of the recursive post-order traversal and its true parent, and null at the end, though freed nodes may no longer be read |
| BinTree.Iterator.IteratePostOrder | librfn/bintree.c:288-311 | Returns the first node of the recursive post-order traversal, with its parent, and leaves the others to be returned |
| BinTree.MarkedSubtree | librfn/bintree.c:282-287 | When post-order iteration returns a node, the subtree below it has its original pointers |
| BinTree.MarkedEnd | librfn/bintree.c:242-280 | When post-order iteration is over, the whole tree has its original pointers |
| BinTree.Iterator.Next | include/librfn/bintree.h:105-108 | Whatever the kind of iterator, the next visit of the matching recursive traversal, for post-order with the true parent in the iterator |
| BinTree.Iterator.Complete | include/librfn/bintree.h:110-114 | From any intermediate state, running an iterator to its end restores the tree, up to marks set by the caller |
| BinTree.Release | librfn/bintree.c:105-112 | Deallocating the node just returned and patching its parent keeps the state from which iteration goes on |
| BinTree.FreeNext | librfn/bintree.c:103-113 | One turn of the destructor frees the node in hand and finds the next one without reading any freed node |
| BinTree.Free | librfn/bintree.c:99-114 | Every node is passed to dealloc exactly once, in the order of the recursive post-order traversal |
| BinTree.FreeLeft | librfn/bintree.c:116-121 | Frees exactly the left subtree and leaves a tree without it |
| BinTree.FreeRight | librfn/bintree.c:123-128 | Frees exactly the right subtree and leaves a tree without it |
| BinTreeWalk.Walk | include/librfn/bintree.h:105-114 | A caller that loops over bintree_next gets all visits in order, and the tree is restored at the end |
| BinTreeWalk.WalkInOrder | librfn/bintree.c:130-172 | In-order iteration over any tree equals the recursive traversal and restores the tree |
| BinTreeWalk.WalkPreOrder | librfn/bintree.c:313-355 | Pre-order iteration over any tree equals the recursive traversal and restores the tree |
| BinTreeWalk.NextPostOrder | librfn/bintree.c:242-280 | At each return the caller sees the next node, its parent, and the subtree below it with its original pointers |
| BinTreeWalk.WalkPostOrder | librfn/bintree.c:242-311 | The nodes and parents that post-order iteration yields are those of the recursive traversal, with each subtree intact at its return, and the tree is restored |
| BinTreeList.TraverseFromSpine | librfn/bintree.c:45-57 | The recursive list traversal of a left list tree is that of what lies below a spine node on the left, followed by the items going up the spine |
| BinTreeList.ListIterator.ListLeftNext | librfn/bintree.c:174-196 | Returns the node right of the spine at its position and steps up, though it walks down from the top each time |
| BinTreeList.ListIterator.ListRightNext | librfn/bintree.c:198-211 | Returns the next left child of the right spine, or the node at its end |
| BinTreeList.ListIterator.Next | include/librfn/bintree.h:105-108 | Returns what is left one by one, then null |
| BinTreeList.ListIterator.IterateList | librfn/bintree.c:213-235 | What is returned and left to return is the node below the left spine and the right children upwards, or the left children down the right spine; the tree is not modified |
| BinTreeList.ReturnedIffLeaning | librfn/bintree.c:45-57 | That is the sequence of the recursive list traversal if and only if the list leans to one side |
| BinTreeList.LeftItemsExact | librfn/bintree.c:174-196 | For a list that leans to the left the left iterator agrees with the traversal; otherwise it returns a list node |
| BinTreeList.RightItemsExact | librfn/bintree.c:198-211 | For a list that leans to the right the right iterator agrees with the traversal; otherwise it returns a list node |
| MessageQueue.InitInv | librfn/messageq.c:21-29 | A queue of 1 to 32 messages starts in the invariant |
| MessageQueue.StepKeepsInv | librfn/messageq.c:31-81 | Every atomic step of any number of producers and one consumer keeps the invariant, if a claim starts its fetch_sub in a sound state |
| MessageQueue.CasKeepsInv | librfn/messageq.c:43-45 | So does the compare-and-swap, whether it succeeds, fails, or fails spuriously, and whatever sendp did meanwhile |
| MessageQueue.SoundIsNeeded | librfn/messageq.c:34 | The fetch_sub keeps the invariant if and only if the counter reads zero whenever no slot is free |
| MessageQueue.SoundUnlessOverlapping | librfn/messageq.c:34-38 | That is the case exactly if a slot is free or no other claim is between its failing fetch_sub and its fetch_add (modulo 256) |
| MessageQueue.UnsoundShares | librfn/messageq.c:34-48 | Whenever the condition fails at a fetch_sub, the run can go on so that two unreleased tickets have the same slot |
| MessageQueue.OverlappingClaims | librfn/messageq.c:34-38 | A run in which the condition fails: with one message, overlapping claims end in two owners of one slot |
| MessageQueue.CalmRunIsRun | librfn/messageq.c:31-48 | Runs in which no claim starts while another is between its failing fetch_sub and its fetch_add satisfy the condition throughout |
| MessageQueue.ReachableInv | librfn/messageq.c:21-81 | The invariant holds after every permitted interleaving |
| MessageQueue.IndicesInRange | librfn/messageq.c:40-69 | The stored indices stay below the length, and the owner of a message can always fill it in and send it |
| MessageQueue.NoSharedSlot | librfn/messageq.c:31-48 | Two tickets that are claimed and not released never have the same slot |
| MessageQueue.ClaimReturnsFreeSlot | librfn/messageq.c:40-48 | A successful claim returns a slot that is neither claimed, nor sent, nor received and unreleased |
| MessageQueue.ClaimFailsWhenFull | librfn/messageq.c:34-38 | A claim fails only if all slots are taken or promised at its fetch_sub |
| MessageQueue.UndoFinishes | librfn/messageq.c:35-38 | A failed claim gives back what it subtracted and is over: its thread may claim again |
| MessageQueue.CasFinishes | librfn/messageq.c:42-46 | A compare-and-swap claims the slot and ends the claim, or brings the copy of sendp up to date, and takes the claim nearer to its end |
| MessageQueue.CasFailsSpuriously | librfn/messageq.c:42-46 | A compare-and-swap that fails spuriously claims nothing and leaves the thread ready to try again |
| MessageQueue.ClaimsTerminate | librfn/messageq.c:31-48 | Under every schedule the claims that have started end after a bounded number of their steps, not counting spurious failures; until then some step is possible |
| MessageQueue.FinishClaims | librfn/messageq.c:31-48 | From any state a run of undo, load and compare-and-swap steps alone ends all claims and changes nothing else |
| MessageQueue.CounterSettles | librfn/messageq.c:31-48 | After that the counter is the number of free slots: every claim granted has a slot and failed ones have left no trace |
| MessageQueue.ClaimsSettle | librfn/messageq.c:31-48 | Every reachable state leads by undo, load and compare-and-swap steps alone to one in which no thread is inside messageq_claim and the counter is the number of free slots |
| MessageQueue.OthersUnmoved | librfn/messageq.c:31-48 | The steps of one claim leave all other threads where they are |
| MessageQueue.ClaimsAccountedFor | librfn/messageq.c:31-77 | In every run, even one that breaks the condition, the claims started are those that failed and undid, those that hold a ticket and those in progress, and the counter is what the subtractions and additions make of the length |
| MessageQueue.ReceivedInOrder | librfn/messageq.c:57-71 | The n-th message received is that of ticket n, it was sent, and it has the contents written by its producer |
| MessageQueue.ReceivedWasSent | librfn/messageq.c:50-71 | What the n-th receive returns was sent by a step of the run, and its slot holds what the last step that filled it in wrote |
| MessageQueue.ReceiveWaitsForTurn | librfn/messageq.c:57-71 | A receive succeeds exactly if the next ticket in claim order has been sent, even if later ones have |
| MessageQueue.FullFlags | librfn/messageq.c:50-64 | The flag of a live ticket's slot is set exactly if the ticket is sent and not received |
| MessageQueue.NoStrayFlag | librfn/messageq.c:50-64 | A flag that is set belongs to a live ticket that has been sent |
| MessageQueue.SentStaysSent | librfn/messageq.c:50-55 | What a sent message contains never changes in the rest of the run |
| MessageQueueObject.ClaimInv | librfn/messageq.c:31-48 | A claim that runs uninterrupted keeps the invariant |
| MessageQueueObject.PostedTidy | librfn/messageq.c:31-55 | Claiming, filling in and sending puts a message last among the pending ones |
| MessageQueueObject.NumFree | librfn/messageq.c:73-81 | Between calls num_free counts the slots that are neither pending nor held |
| MessageQueueObject.ReceiveTidy | librfn/messageq.c:57-71 | A receive takes the oldest pending message, or changes nothing if there is none |
| MessageQueueObject.ReleaseTidy | librfn/messageq.c:73-81 | A release gives the slot back and leaves the pending messages alone |
| MessageQueueObject.Queue.constructor | librfn/messageq.c:21-29 | messageq_init sets up the fields of the model's initial state |
| MessageQueueObject.Queue.Claim | librfn/messageq.c:31-48 | The code of messageq_claim takes the steps of the model |
| MessageQueueObject.Queue.Send | librfn/messageq.c:50-55 | The code of messageq_send takes the step of the model |
| MessageQueueObject.Queue.Receive | librfn/messageq.c:57-71 | The code of messageq_receive takes the step of the model |
| MessageQueueObject.Queue.Release | librfn/messageq.c:73-81 | The code of messageq_release takes the step of the model |
| MessageQueueObject.Queue.Empty | include/librfn/messageq.h:72-75 | Tells whether the message next in turn has yet to be sent |
| RingBuffer.StepKeepsInv | librfn/ringbuf.c:31-73 | Every atomic step of one producer and one consumer keeps the invariant |
| RingBuffer.IndicesInRange | librfn/ringbuf.c:33-47 | The assertion on readi holds, both indices stay below the length, and no thread gets stuck at a cell |
| RingBuffer.FirstInFirstOut | librfn/ringbuf.c:31-73 | In every interleaving the bytes returned are a prefix of the bytes accepted, and at most buf_len - 1 are unread |
| RingBuffer.GetsReturnPuts | librfn/ringbuf.c:31-73 | The bytes accepted are those of the puts that the list of steps completes, and those returned are the first of them, one for each get completed |
| RingBuffer.GetReturns | librfn/ringbuf.c:41-48 | What a get loads and returns is the oldest byte accepted and not yet returned |
| RingBuffer.NoOverwrite | librfn/ringbuf.c:69 | A cell that holds an unread byte is never written |
| RingBuffer.PutFailsWhenFull | librfn/ringbuf.c:63-67 | A put gives up if and only if the ring was full at its load of readi |
| RingBuffer.GetFailsWhenEmpty | librfn/ringbuf.c:38-39 | A get returns -1 if and only if the ring was empty at its load of writei |
| RingBuffer.RingBuf.Get | librfn/ringbuf.c:31-49 | An uninterrupted get removes the oldest unread byte |
| RingBuffer.RingBuf.Put | librfn/ringbuf.c:58-73 | An uninterrupted put appends a byte unless the ring is full |
| RingBuffer.RingBuf.Empty | librfn/ringbuf.c:52-55 | Tells whether no byte is unread |
| List.LinkedList.Insert | librfn/list.c:21-32 | Appends; the tail is the last node again |
| List.LinkedList.InsertSorted | librfn/list.c:34-63 | Inserts at the index that the comparator determines, for any comparator; the scan never runs off the end |
| List.LinkedList.FindSorted | librfn/list.c:53-60 | The scan stops at the first node that the new one compares less than, at the latest at the tail |
| List.LinkedList.Push | librfn/list.c:65-75 | Prepends |
| List.LinkedList.Extract | librfn/list.c:77-89 | Removes and returns the first node, with a null link, or null |
| List.LinkedList.Peek | include/librfn/list.h:84-86 | Returns the first node or null |
| List.LinkedList.IsEmpty | include/librfn/list.h:80-82 | Tells whether the list is empty |
| List.LinkedList.Contains | librfn/list.c:155-169 | Finds a node, with the iterator at it |
| List.LinkedList.Remove | librfn/list.c:171-181 | Removes a node if it is in the list, and says whether it was |
| List.Iterator.Iterate | librfn/list.c:91-97 | The iterator starts at the head of the list |
| List.Iterator.Next | librfn/list.c:99-109 | Moves on by one node |
| List.Iterator.Insert | librfn/list.c:113-122 | Inserts before the current node, at any place including the end of the list |
| List.Iterator.Remove | librfn/list.c:124-153 | Removes the current node, including the last or the only one, for which the tail is fabricated |
| List.QueuedLink | librfn/list.c:37 | The assertion of the insertion functions fails for every node that is in a list already, except the last |
| List.LinkedList.ReinsertTail | librfn/list.c:46-51 | For the last node it holds, and the path for the tail links the node to itself, which no list allows |
| List.ScanPosition | librfn/list.c:57-59 | In a sorted list the scan stops behind exactly those nodes that the new one does not precede |
| List.InsertIxIsStable | librfn/list.c:46-60 | For any order, list_insert_sorted is stable insertion: the path for the tail agrees with the scan and the list stays sorted |
| Scheduler.RequestedInReverse | librfn/fibre.c:53-61 | Each fibre requested and not yet runnable is added once, in the reverse order of the last requests |
| Scheduler.DrainServes | librfn/fibre.c:53-61 | Serving the atomic requests terminates, empties the queue, keeps the run queue as a prefix, and takes the requested fibres off the timer queue |
| Scheduler.FibreRunKeepsInv | librfn/fibre.c:176-184 | fibre_run leaves the fibre in the run queue and in no other |
| Scheduler.FibreKillRemoves | librfn/fibre.c:199-209 | A killed fibre is in no queue, no request still to be served names it, and all other fibres stay where they belong |
| Scheduler.FibreTimeoutKeepsInv | librfn/fibre.c:211-220 | fibre_timeout stores the due time asked for and puts the current fibre to sleep unless the time has come or the fibre is runnable |
| Scheduler.HandleTimerqSplits | librfn/fibre.c:63-76 | The longest prefix of due fibres moves from the timer queue to the end of the run queue |
| Scheduler.DispatchKeepsInv | librfn/fibre.c:137-156 | The fibre that is called comes from the head of the run queue and is in neither queue when its entrypoint starts |
| Scheduler.RunKeepsInv | librfn/fibre.c:137-220 | Over every run with any entrypoints the queues stay duplicate-free and disjoint |
| Scheduler.QueueAdvances | librfn/fibre.c:78-106 | Each call moves the run queue up by one place, and nothing else but fibre_kill removes from it |
| Scheduler.NoStarvation | librfn/fibre.c:137-165 | The fibre at index k of the run queue is called by exactly the call number k + 1, whatever happens meanwhile short of a kill |
| Scheduler.YieldedIsRunnable | librfn/fibre.c:91-94 | A fibre that has yielded is runnable again after the next updates |
| Scheduler.ExitRestarts | librfn/fibre.c:87-104 | The state is recorded, an exit or failure and nothing else resets the protothread, and no other descriptor changes |
| Scheduler.ResultDecides | librfn/fibre.c:87-165 | What the entrypoint of the fibre called returns is what the next scheduler call goes by: whether the fibre is made runnable, restarted or left waiting |
| Scheduler.FibreInitClears | librfn/fibre.c:167-174 | fibre_init zeroes one descriptor and touches nothing else |
| Scheduler.WaitsUntilWoken | librfn/fibre.c:103-104 | A fibre that is in no queue, that nobody requests and that has not yielded is not called |
| SchedulerTime.CompareResidues | librfn/fibre.c:124-130 | The comparator orders due times less than half a turn ahead by their true times |
| SchedulerTime.LaterClock | librfn/util.c:19-22 | Advancing the clock by less than half a turn does not change what a 32-bit due time stands for |
| SchedulerTime.HandleTimerqExact | librfn/fibre.c:63-76 | Exactly the fibres that are due are moved, in the order of the timer queue, and those left are due later |
| SchedulerTime.SleepPosition | librfn/fibre.c:211-220 | A fibre goes to sleep behind exactly those that are due no later |
| SchedulerTime.DispatchKeepsOrder | librfn/fibre.c:137-152 | After the updates of a scheduler call every sleeping fibre is due later than now |
| SchedulerTime.WakesWhenDue | librfn/fibre.c:63-76 | A sleeping fibre that nobody requests becomes runnable in the first call at or after its due time, and not before |
| SchedulerSleep.TimeoutStores | librfn/fibre.c:211-220 | fibre_timeout stores exactly the due time asked for, for the current fibre, and changes nothing if it has elapsed |
| SchedulerSleep.AheadBy | librfn/util.c:19-22 | A time n ticks ahead, for n up to half a turn, lies ahead by n; one that is not ahead has elapsed |
| SchedulerSleep.UnboundedSleep | include/librfn/fibre.h:48-57 | FIBRE_UNBOUNDED_SLEEP is the longest sleep: one tick more is in the past |
| SchedulerSleep.TimeoutDue | librfn/fibre.c:211-220 | After fibre_timeout(now + n) the fibre is due n ticks from now in true time |
| SchedulerSleep.SleepsOn | librfn/fibre.c:63-165 | Over every run of calls before it is due a sleeping fibre sleeps on, with the same due time, unless it is requested or killed |
| SchedulerSleep.WakesAtFirstCall | librfn/fibre.c:63-165 | The first scheduler call at or after the due time makes it runnable, after any such run |
| SchedulerSleep.TimeoutWakes | librfn/fibre.c:63-220 | A fibre that calls fibre_timeout(now + n) and waits is made runnable by the first call that comes n ticks later or after that, and by none before |
| SchedulerOrder.FibreRunOrder | librfn/fibre.c:176-184 | fibre_run appends the requested fibres first and then its own, and takes all of them off the timer queue |
| SchedulerOrder.FibreKillOrder | librfn/fibre.c:199-209 | fibre_kill serves the requests, removes its fibre and keeps the order of all others |
| SchedulerOrder.DispatchOrder | librfn/fibre.c:137-156 | The fibre called and the run queue left are, in this order: who was runnable, who was requested, who yielded, and who slept at the head of the timer queue with an elapsed time; all others stay asleep |
| SchedulerOrder.CallOrder | librfn/fibre.c:137-156 | The same in true time, spelled out on the queues found: the sleepers called or made runnable are exactly those due, in timer order |
| SchedulerTime.RunKeepsOrder | librfn/fibre.c:63-76 | Over every paced run the timer queue is sorted by true due time, first come first served, and no due time is half a turn ahead |
| SchedulerTime.WakeupInTime | librfn/fibre.c:112-122 | The wakeup time is never after a queued due time, and it is the present exactly if something is runnable |
| SchedulerRuns.EveryRunIsSafe | librfn/fibre.c:28-220 | In every run from the initial state, with any entrypoints and interrupts, the queues are duplicate-free and disjoint |
| SchedulerRuns.EveryPacedRunIsTimely | librfn/fibre.c:63-165 | In every paced run from the initial state the timer queue is in order and no wakeup time is after a due time |
| SchedulerRuns.EveryPacedRunIsInOrder | librfn/fibre.c:137-156 | After every paced run from the initial state the next scheduler call takes the fibres in this order |
| SchedulerRuns.EveryRunIsFair | librfn/fibre.c:137-165 | After every run from the initial state, the fibre at index k of the run queue gets its turn after k others |
| SchedulerFastPath.FastPathRefines | librfn/fibre.c:141-152 | When the shortcut applies, the full update calls the same fibre and leaves the same state but for the fibre's state field |
| SchedulerFastPath.RunAlike | librfn/fibre.c:137-165 | The runs with the shortcut are the runs without it, with equal queues and wakeup times throughout |
| Fibre.Unqueue | librfn/fibre.c:181 | Removing a fibre from one of two lists that share its link leaves the other list and all links intact |
| Fibre.Sleep | librfn/fibre.c:217-218 | So does sorted insertion into the timer queue; its assertion on the link holds |
| Fibre.Kernel.constructor | librfn/fibre.c:28-44 | The kernel starts in the initial state |
| Fibre.Kernel.HandleAtomicRunq | librfn/fibre.c:53-61 | Equals the recursive specification, and gives back every message slot that it receives |
| Fibre.Kernel.FibreRun | librfn/fibre.c:176-184 | Equals its specification; the two functions terminate although they call each other |
| Fibre.Kernel.HandleTimerq | librfn/fibre.c:63-76 | Equals its specification; the assertions of the list functions hold |
| Fibre.Kernel.GetNextTask | librfn/fibre.c:78-85 | Equals its specification |
| Fibre.Kernel.UpdateCurrentState | librfn/fibre.c:87-110 | Equals its specification |
| Fibre.Kernel.GetNextWakeup | librfn/fibre.c:112-122 | Returns the specified wakeup time |
| Fibre.Kernel.FibreInit | librfn/fibre.c:167-174 | Clears the descriptor of a new or idle fibre without disturbing the queues |
| Fibre.Kernel.FibreRunAtomic | librfn/fibre.c:186-197 | Queues a request, or returns false if all eight slots are pending or being served |
| Fibre.Kernel.FibreKill | librfn/fibre.c:199-209 | Equals its specification and says whether the fibre was queued |
| Fibre.Kernel.FibreTimeout | librfn/fibre.c:211-220 | Equals its specification and says whether the time has come |
| Fibre.Kernel.SchedulerNext | librfn/fibre.c:137-165 | Equals one step of the abstract scheduler for any behaviour of the entrypoint, and returns its wakeup time |
| Pack.Cursor.constructor | librfn/pack.c:21-26 | The cursor starts at the base of the buffer |
| Pack.OverlayWholeFields | librfn/pack.c:38-51 | Of fields packed in a row exactly those that end within the buffer are written, whole; nothing else changes |
| Pack.FlatAt | librfn/pack.c:38-41 | Each field starts where the fields before it end |
| Pack.Cursor.PackBytes | librfn/pack.c:43-51 | Advances by the size and writes the bytes, or zeros, only if they fit |
| Pack.Cursor.PackU16le | librfn/pack.c:73-79 | Advances by two and writes a little-endian field only if it fits |
| Pack.Cursor.PackU32le | librfn/pack.c:94-102 | Advances by four and writes a little-endian field only if it fits |
| Pack.Cursor.UnpackBytes | librfn/pack.c:111-123 | Reads the bytes, or zeros when they lie beyond the end |
| Pack.Cursor.UnpackU16le | librfn/pack.c:153-159 | Reads a little-endian field, or zero beyond the end |
| Pack.Cursor.UnpackU32le | librfn/pack.c:164-170 | Reads a little-endian field, or zero beyond the end |
| Pack.U16RoundTrip | librfn/pack.c:73-79 | Reading back the two bytes of a 16-bit number gives the number |
| Pack.U32RoundTrip | librfn/pack.c:94-102 | Reading back the four bytes of a 32-bit number gives the number |
| Pack.U16IsLittleEndian | librfn/pack.c:153-159 | The number read is the one whose base-256 digits the two bytes are, least significant first |
| Pack.U32IsLittleEndian | librfn/pack.c:164-170 | The same for four bytes |
| WavHeader.Encode | librfn/wavheader.c:90-133 | Writes the header's fields in order as far as they fit; the result is the full length, independent of the buffer size |
| WavHeader.Decode | librfn/wavheader.c:29-88 | Fills in the header from the layout of the bytes and returns the length consumed or -EINVAL |
| WavHeader.Validate | librfn/wavheader.c:75-80 | The decoder accepts exactly the RIFF WAVE identifiers with a first size that is large enough |
| WavHeaderRoundTrip.DecodesHead | librfn/wavheader.c:95-106 | The fixed fields of an encoding lie at the offsets of the RIFF WAVE format |
| WavHeaderRoundTrip.DecodesExtension | librfn/wavheader.c:107-117 | So do the fields of the extended format chunk, which ends where the decoder expects it |
| WavHeaderRoundTrip.DecodesData | librfn/wavheader.c:119-126 | So do the fields of the fact chunk and the data chunk, which end the encoding |
| WavHeaderRoundTrip.MinimumSize | include/librfn/wavheader.h:61 | No header is shorter than 44 bytes, the size for PCM without a fact chunk |
| WavHeaderRoundTrip.DecodesCanonical | librfn/wavheader.c:29-133 | A decoder gets back every field of an encoding exactly if absent fields are zero and a data chunk does not look like a fact chunk |
| WavHeaderRoundTrip.RoundTrip | librfn/wavheader.c:29-133 | Decoding an encoded header returns the header and its length if and only if it is acceptable and canonical and the length fits an int |
| WavHeaderRoundTrip.EncodeThenDecode | librfn/wavheader.c:29-133 | The two functions run one after the other on a buffer give back the header and equal lengths |
| WavHeaderRoundTrip.AcceptedExactly | librfn/wavheader.c:74-87 | The decoder accepts exactly the bytes that begin with RIFF, a size and WAVE, where the size is large enough modulo 2^32, and returns -EINVAL for all others |
| WavHeaderRoundTrip.TruncationDetected | librfn/wavheader.c:84-87 | Decoding a proper prefix fails or returns more than its size, if and only if the length does not wrap around |
| WavHeaderRoundTrip.TruncationMissed | librfn/wavheader.c:84-87 | A valid header whose first 30 bytes decode to a length of 10 |
| WavHeaderInit.WithFramesSound | librfn/wavheader.c:184-194 | After rf_wavheader_set_num_frames a sound header survives the round trip if and only if it has a fact chunk or a sample length of zero, and its first size is still large enough |
| WavHeaderInit.SampleLengthLost | librfn/wavheader.c:184-194 | Without a fact chunk, a header whose new sample length is not zero does not survive the round trip |
| WavHeaderInit.FrameCountLost | librfn/wavheader.c:154-194 | The header for 16-bit stereo at 44.1 kHz survives the round trip, and no longer does once one frame is counted |
| WavHeaderInit.InitialisedSound | librfn/wavheader.c:154-182 | rf_wavheader_init yields a header that survives the round trip if and only if the fields that it leaves alone are zero or a small fact chunk |
| WavHeaderInit.FormatRead | librfn/wavheader.c:135-152 | Which combinations of audio format and sample width stand for which sample format |
| WavHeaderInit.InitialisedFormat | librfn/wavheader.c:135-182 | Rate, channels and sample format can be read off the initialised header, a block has one sample per channel, and the byte rate is the sample rate times the block size |
| WavHeaderInit.InitialisedValid | librfn/wavheader.c:154-182 | rf_wavheader_validate accepts the initialised header unless a fact chunk left from before is too large |
| WavHeaderInit.ValidBytes | librfn/wavheader.c:220-236 | rf_wavheader_validate accepts a header exactly if RIFF, WAVE, fmt and data stand at their places in its encoding and the first size is large enough |
| WavHeaderInit.FramesCounted | librfn/wavheader.c:184-194 | rf_wavheader_set_num_frames makes the data so many blocks long, from which the number can be read back, and keeps the size of the header part |
| WavHeaderInit.LastFrameCount | librfn/wavheader.c:184-194 | Of several calls only the last counts |
| WavHeaderInit.InitialisedFrames | librfn/wavheader.c:154-194 | After both functions the sizes are those of so many frames of so many channels, and the first size is 50 more than that of the data |
| WavHeaderInit.FirstSizeExact | librfn/wavheader.c:154-194 | The first size is the number of bytes that follow it exactly for floating point; for PCM it is too large |
| WavHeaderInit.HeadBytes | librfn/wavheader.c:95-106 | The fixed part of an encoding, byte by byte: identifiers in ASCII and numbers in little-endian form at the offsets of the format |
| WavHeaderInit.PaddingBytes | librfn/wavheader.c:107-117 | An extension that the encoder does not know is written as its size and zeros |
| WavHeaderInit.PcmBytes | librfn/wavheader.c:90-182 | All 44 bytes of the encoding of an initialised header for integer samples |
| Hex.NibbleOfHexChar | librfn/hex.c:21-27 | A printed digit has the value it was printed for |
| Hex.NibbleOfAnyCase | librfn/hex.c:49-55 | Digits of either case have their hexadecimal value |
| Hex.CharacterClasses | librfn/hex.c:71-80 | The characters that count as white space and as digits |
| Hex.HexLine | librfn/hex.c:34-38 | Prints up to sixteen bytes |
| Hex.HexDump | librfn/hex.c:29-42 | Prints all bytes, sixteen on a line, and returns their number as an int |
| HexRoundTrip.TextLayout | librfn/hex.c:29-42 | The printed text character by character: two digits for each byte, at two places per byte before it and one per sixteen, and a line break after every sixteenth and the last |
| Hex.SkipSpace | librfn/hex.c:71-73 | Skips white space up to a line break, without reading past the end |
| Hex.FirstColon | librfn/hex.c:61-64 | Everything up to the first colon is skipped, if there is one |
| HexLines.LastLine | librfn/hex.c:71-89 | On the last line a byte is found exactly if two digits follow the white space and an optional 0x |
| Hex.Reader.GetByte | librfn/hex.c:58-90 | Terminates, never reads past the end of the string, returns the byte of the first line that has one, from the cursor or behind the first colon on, or -1 with a null cursor |
| HexLines.FindOnLine | librfn/hex.c:71-87 | The digits of the line at hand are found if it has any; otherwise the search goes on behind the next line break and, if there is one, the first colon after it |
| HexLines.FirstLineWithByte | librfn/hex.c:58-90 | A byte is found if and only if some line has two digits behind its white space and optional 0x, and then it is that of the first such line |
| HexLines.LostBeforeColon | librfn/hex.c:61-64 | Whatever comes before the first colon is lost, whole lines included |
| HexLines.LineLost | librfn/hex.c:61-64 | A text with a byte on its first line from which the first call returns that of the second |
| HexRoundTrip.NothingLeft | librfn/hex.c:65-69 | After a call that returned -1 every further call with a null string does |
| HexRoundTrip.PrintThenParse | librfn/hex.c:29-90 | Call number n on the printed text returns byte n, and -1 once all bytes have been returned |
| HexRoundTrip.DumpThenRead | librfn/hex.c:29-90 | The same for a caller that prints and then loops over the cursor |
| Rand.NoWrap | librfn/rand.c:27-31 | No intermediate 32-bit result wraps around |
| Rand.Carta | librfn/rand.c:27-31 | The sum of the parts is congruent to the product, and at most twice the modulus |
| Rand.Seed.Rand31R | librfn/rand.c:23-37 | Computes the Park-Miller residue without a division |
| Rand.ParkMiller | librfn/rand.c:23-37 | From a seed that is no multiple of p, n calls return 16807^n times the seed modulo p, a number from 1 to p - 1 |
| Rand.NoCollision | librfn/rand.c:23-37 | Seeds that differ modulo p never lead to the same number |

## Left out

- Weak memory orders, the fallback for old compilers and the C++ workaround of `include/librfn/atomic.h`: atomics are sequentially consistent here.
- More than one consumer of a message queue or ring buffer, and releases out of order.
- `full_flags` is a sequence of 32 booleans, so that bit arithmetic is not modelled.
- The message length and byte addresses of a message queue: a slot holds one value, and a message is named by its slot.
- The busy wait of `ringbuf_putchar`.
- Taint flags of the fibre scheduler, and the event queues built from a fibre and a message queue.
- Entrypoints as C functions and the protothread macros: an entrypoint is the calls that it makes, the resume points that it stores and the state that it returns.
- MessageQueueObject.Queue.Claim: the compare-and-swap loop runs once because nobody interferes; the loop with interference is in module MessageQueue.
- Fibre.Kernel.SchedulerNext: the atomic requests of interrupt handlers arrive between calls or as actions of the entrypoint, not in the middle of the scheduler's own code.
- BinTree.Free: dealloc ends a node's life and may overwrite its fields; allocation itself is not modelled.
- Changes to the structure of a tree by callers during iteration, other than marking nodes and the destructor's own.
- BinTreeList.ListIterator.IterateList: list nodes with a missing child on the spine that the iterator follows; the code would pass a null pointer to the filter or end the iteration early.
- Scheduler.FibreTimeoutKeepsInv: assumes that the current fibre is not asleep when it has to be put to sleep, as the assertion of `list_insert_sorted` does.
- Fibre.Kernel.FibreTimeout: the same assumption.
- WavHeader.Decode: the header is returned as a value instead of being filled in through a pointer.
- Big-endian and signed fields of the packing cursor, which the WAV header does not use.
- Printing a header.
- Hex.HexDump: the output file is a string.
- Locales and negative characters in the character tests of the hex parser.
- The printers for trees, the console, register dumps, string helpers, statistics, rotary encoder, colours, logging and rate limits: small or I/O.
- Glue to operating systems, microcontrollers and USB.
