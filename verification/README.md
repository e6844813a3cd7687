# OSCL containers, counters, timer and fragment groups in Dafny

A Dafny model of the parts of the Operating System Compatibility Library that have their bodies
in template headers under `amr/src/main/jni/oscl/`, with proofs of what they promise.

| file | models |
|---|---|
| `Layout.dfy`, `TreeNodes.dfy` | nodes and links of the red-black tree: the pointer graph as an in-order sequence, `++`/`--`, rotations, rebalancing, cloning |
| `Orders.dfy`, `OrderedTree.dfy` | `Oscl_Rb_Tree`, the sorted container under `Oscl_Map`, against sorted sequences |
| `RefCounterMT.dfy` | `OsclRefCounterMTDA` and `OsclRefCounterMTSA` as interleaved steps of any number of threads |
| `SharedHandles.dfy` | `OsclRefCounterDA` with `OsclSharedPtr` and `OsclRefCounterMemFrag` on top |
| `HandleWeb.dfy` | handles stored inside the objects they count, and when `Bind` and assignment are safe among them |
| `Words.dfy` | 32-bit unsigned arithmetic |
| `TimerModel.dfy`, `TimerLaws.dfy`, `TimerPromises.dfy`, `Jitter.dfy`, `Timer.dfy` | `OsclTimer`: the law of expiry over whole runs, what its observers are called with, cancels and what callbacks ask for in terms of the entries' fields, the 32-bit jitter correction, and the timer itself |
| `OutOfOrder.dfy`, `TagTree.dfy` | `Oscl_TagTree` and the bubble sort of a node's children |
| `Fragments.dfy`, `MediaData.dfy` | `BufferState`, `BufFragGroup` and `MediaData` |

`dafny verify dfyconfig.toml` checks the project.

How to read it:

* Classes carry the source's fields and update them in place. Ghost fields hold what the code
  has no field for: the in-order view of a tree, the entries or nodes the allocator has handed
  out (`heap`), the story of a timer (`history`) and the calls it made (`calls`), the groups that
  hold a buffer (`holders`).
  `deallocate` may change whatever it likes in the fields of what it takes back. A tag tree node's
  tag is a constant in the model, so there `sort_children`, which reads the tags of a node's
  children, requires that they are allocated.
* `Ledger` and `World` are ghost registers of all handles and all groups; their `Valid()` is the
  statement that every count is exact. Every operation keeps it, so it holds over every run.
* The bodies of `rotate_left`, `rotate_right` and `rebalance` are not in the repository
  (`oscl_tree.h:316-318`). `Rebalance` applies an arbitrary finite plan of rotations and
  recolourings at arbitrary nodes and then paints the root black; callers use only its contract,
  so what is proved about insertion holds for each such plan.
* A timer callback is an arbitrary list of `Request` and `Cancel` commands. The time, which is the
  tick count times its period on 32 bits (`Now`), is a parameter. `calls` grows where an observer is called, inside `TimeoutOccurred`, and nowhere else.
  A tick runs when the alarm completes: `Run` finds the alarm set, puts it at rest and makes the
  tick. `Valid()` holds between calls and includes the law of expiry, so `ExpiresOnTime` needs no
  more than a valid timer. Callers can go on after any call: what joins a list, a tree or a buffer
  is newly allocated, and the contracts say so.
* The ghost field `plan` says where the present schedule of a timer started and when its ticks
  were; `KeepsTime` reads the expected time off it.
* In the multi-threaded counter a change of the count is a read and a write of their own, and the
  32-bit test for zero is made on what was written; only the lock keeps others out in between.
* A tag is the sequence of its components; `tag_depth` is its length and `tag_ancestor` drops the
  last one, as `oscl_mem_audit.h:623` and the use in `insert` say.

Where the code departs from its documentation or from what one would expect, the model follows
the code:

* A recurring timer requested inside a callback expires once only: the deferred call leaves the
  recurring flag out (`oscl_timer.h:405`), see `DeferredRequestsAreOneShot`, and `DeferredRecurringIsLost` for a run. Deferred cancels are
  done before deferred requests, so a callback cannot cancel what it just requested
  (`CallbackRequestsStay`).
* A recurring timer of less than one cycle is lost when a one-shot expires on the same tick
  (`RecurringBelowOneCycleIsLost`); `RemovedExactlyWhen` says exactly when an entry goes, and
  `RecurringBelowOneCycle` on which ticks such a timer expires.
* An expected time of zero stands for no schedule. A schedule that comes to zero by itself is
  taken for none by the next request, which starts over (`ScheduleAtZeroIsLost`);
  `RequestKeepsScheduleWhen` gives the exact condition.
* `OsclSharedPtr::Bind` leaves a handle alone if the object pointers are equal, whatever the
  counters (`oscl_shared_ptr.h:168`); `Bind` states when the counters end up equal, and
  `BoundButNotShared` is a case in which they do not.
* `Bind` and the assignment of fragments read their argument after they have released their own
  reference (`oscl_shared_ptr.h:170-176`, `oscl_refcounter_memfrag.h:112-120`). If the argument is
  stored in an object that goes with that reference, it is gone by then (`NextOfHeadIsGone`);
  `BindIsSafeExactlyWhen` gives the exact condition.
* `erase(tag)` of the tag tree is documented to return the number of nodes erased. A leaf stays on
  its parent's children list when it is erased, so the parent is afterwards kept and reported as
  erased (`ErasedLeafStillCounts`); `EraseTag` states exactly when the number is right.
* `sort_children` compares the tags of all nodes on a children list (`oscl_tagtree.h:146`). After a
  leaf was erased its parent's list holds a destroyed node (`ErasedLeafStaysListed`), whose tag
  must not be read. `Erase` says which lists are left like that,
  `ChildrenAreLiveExactlyWhen` how to tell, and `Sort` is proved for the others.
* A reference added to a full 32-bit count makes it start over; `Copy`, `Bind` and `Assign` keep
  the counts exact exactly if that does not happen.
* A fragment in the unused part of a `MediaData`'s own buffer is accepted; what is in place is then
  no longer all readable data, as `AddFragment` says.
* `AddFragment` and `AddLocalFragment` refuse only above `max_frags` (`oscl_media_data.h:216`,
  `398`), so at exactly `max_frags` they write past the arrays: the model ends such a call with a
  status of its own, `OVERRUN`, and promises nothing after it. Their contracts and `FitsExactlyWhen`
  say when that is; `OneTooMany` is an input.
* The 32-bit count of the multi-threaded counter is enough for up to 2^32 references (`RunIsSafe`)
  and for no more: `WrapDestroysEarly` and `WrapFaults` are runs with one reference more, and
  `DecrementFindsZeroWhen` says when the test finds zero.
* The wait computed after a tick meets the new expected time for every tick that is not too early;
  `WaitMeetsExpectationWhen` gives the exact condition, `EarlyTickOvershoots` what happens
  otherwise, and `EarlyTickMisses` an input.

## Model

| member | source | states |
|---|---|---|
| OrderedTree.RbTree.InsertUnique | amr/src/main/jni/oscl/oscl_tree.h:445-468 | on any well-formed tree: the values in order become the sorted insertion of v; the result is the node that holds v's key; a new node if no equivalent key was there, otherwise no node and no header field changed |
| OrderedTree.RbTree.InsertUniqueHint | amr/src/main/jni/oscl/oscl_tree.h:470-503 | for every position, end() included, the values become the same sorted insertion as without the hint; a new node holds v and joins at its place, and with no new node nothing at all changes |
| OrderedTree.RbTree.FitsBetween | amr/src/main/jni/oscl/oscl_tree.h:489-497 | a key strictly between a node and its predecessor belongs between them, and if the predecessor has a right child the node has no left one |
| OrderedTree.RbTree.Insert | amr/src/main/jni/oscl/oscl_tree.h:758-788 | at its sorted place the new node joins the in-order sequence; ends, root, count and black root are right again after any rebalance |
| OrderedTree.RbTree.Descend | amr/src/main/jni/oscl/oscl_tree.h:447-455 | the search stops at a free link that separates the keys not greater than k from the greater ones |
| OrderedTree.RbTree.SplitDecides | amr/src/main/jni/oscl/oscl_tree.h:456-467 | one comparison with the predecessor tells a new key from a duplicate |
| OrderedTree.RbTree.Attach | amr/src/main/jni/oscl/oscl_tree.h:764-785 | hanging a leaf and rebalancing splices it into the in-order sequence at its place and leaves the root black |
| OrderedTree.RbTree.LinkFirst | amr/src/main/jni/oscl/oscl_tree.h:764-770 | a leaf in an empty tree is root, leftmost and rightmost |
| OrderedTree.RbTree.LinkLeft | amr/src/main/jni/oscl/oscl_tree.h:764-773 | a left leaf comes right before its parent, and becomes leftmost exactly under leftmost |
| OrderedTree.RbTree.LinkRight | amr/src/main/jni/oscl/oscl_tree.h:775-783 | a right leaf comes right after its parent, and becomes rightmost exactly under rightmost |
| OrderedTree.RbTree.LowerBound | amr/src/main/jni/oscl/oscl_tree.h:602-618 | the first node in order whose key is not less than k, or end() |
| OrderedTree.RbTree.UpperBound | amr/src/main/jni/oscl/oscl_tree.h:638-654 | the first node in order whose key is greater than k, or end() |
| OrderedTree.RbTree.Find | amr/src/main/jni/oscl/oscl_tree.h:562-576 | the node a linear search for an equivalent key finds, or end() |
| OrderedTree.RbTree.KeysAscend | amr/src/main/jni/oscl/oscl_tree.h:445-468 | iteration is in strictly ascending order of the keys |
| OrderedTree.RbTree.Count | amr/src/main/jni/oscl/oscl_tree.h:594-600 | the number of keys equivalent to k |
| OrderedTree.RbTree.Distance | amr/src/main/jni/oscl/oscl_tree.h:870-877 | the walk ends, after as many steps as the positions are apart |
| OrderedTree.RbTree.constructor | amr/src/main/jni/oscl/oscl_tree.h:353-361 | an empty tree whose header is red, its own leftmost and rightmost |
| OrderedTree.RbTree.EraseWithoutRebalance | amr/src/main/jni/oscl/oscl_tree.h:790-799 | every node of the subtree goes back to the allocator, each once, and none is read afterwards |
| OrderedTree.RbTree.Clear | amr/src/main/jni/oscl/oscl_tree.h:550-560 | every node is destroyed once and the constructor's empty state is back |
| OrderedTree.RbTree.Destroy | amr/src/main/jni/oscl/oscl_tree.h:383-387 | no node is left allocated |
| OrderedTree.RbTree.Copied | amr/src/main/jni/oscl/oscl_tree.h:363-381 | the copy has the same shape, colours and values on fresh nodes and is a well-formed tree |
| OrderedTree.RbTree.Copy | amr/src/main/jni/oscl/oscl_tree.h:801-828 | the subtree at x is cloned link by link on fresh, different nodes |
| OrderedTree.RbTree.CopySpine | amr/src/main/jni/oscl/oscl_tree.h:809-825 | the loop down the left links completes the clone of the whole range |
| OrderedTree.RbTree.CopyRightPart | amr/src/main/jni/oscl/oscl_tree.h:816-822 | one clone with the complete copy of its right subtree |
| OrderedTree.RbTree.FinishHeader | amr/src/main/jni/oscl/oscl_tree.h:376-378 | the new header caches the copy's root and both ends |
| TreeNodes.Next | amr/src/main/jni/oscl/oscl_tree.h:138-159 | ++ is the in-order successor, from the last node to end(), on every tree; the climb ends |
| TreeNodes.Prev | amr/src/main/jni/oscl/oscl_tree.h:168-192 | -- is the in-order predecessor, from end() to the last node, so that it undoes ++; the climb ends |
| TreeNodes.NextAbove | amr/src/main/jni/oscl/oscl_tree.h:150-156 | the climb to the successor, also where the root has no right child and the header is its own parent's parent |
| TreeNodes.NotOwnGrandparent | amr/src/main/jni/oscl/oscl_tree.h:170-170 | no node but the header is red and its parent's parent, since the root is black |
| TreeNodes.Minimum | amr/src/main/jni/oscl/oscl_tree.h:69-76 | the first node of the subtree |
| TreeNodes.Maximum | amr/src/main/jni/oscl/oscl_tree.h:77-84 | the last node of the subtree |
| TreeNodes.Rebalance | amr/src/main/jni/oscl/oscl_tree.h:318-318 | whatever rotations and recolourings are done, the in-order nodes, the ends and all links stay right and the root is black |
| TreeNodes.RotateLeftAt | amr/src/main/jni/oscl/oscl_tree.h:316-316 | a left rotation keeps the in-order nodes and every link exact |
| TreeNodes.RotateRightAt | amr/src/main/jni/oscl/oscl_tree.h:317-317 | a right rotation keeps the in-order nodes and every link exact |
| TreeNodes.ClonedTree | amr/src/main/jni/oscl/oscl_tree.h:801-828 | a clone of all positions is a tree of the same shape under its own header |
| Layout.RotateLeftWf | amr/src/main/jni/oscl/oscl_tree.h:316-316 | a left rotation keeps every subtree a contiguous range of the order |
| Layout.RotateRightWf | amr/src/main/jni/oscl/oscl_tree.h:317-317 | a right rotation keeps every subtree a contiguous range of the order |
| Layout.InsertLeftWf | amr/src/main/jni/oscl/oscl_tree.h:764-773 | a new left leaf keeps every subtree a contiguous range |
| Layout.InsertRightWf | amr/src/main/jni/oscl/oscl_tree.h:775-783 | a new right leaf keeps every subtree a contiguous range |
| Layout.GapIsFree | amr/src/main/jni/oscl/oscl_tree.h:492-497 | between two neighbours in order, the first has no right child or the second no left child |
| Orders.FindFinds | amr/src/main/jni/oscl/oscl_tree.h:562-576 | linear search gives the first key that is neither less nor greater than k, or none exactly if there is none |
| Orders.LookupAgrees | amr/src/main/jni/oscl/oscl_tree.h:562-600 | in sorted keys the lower-bound lookup finds what linear search finds, and the bounds are count, at most 1, apart |
| Orders.PredecessorDecides | amr/src/main/jni/oscl/oscl_tree.h:456-467 | k is new exactly when the last key not greater than k is less than k |
| Orders.SortedLowerBound | amr/src/main/jni/oscl/oscl_tree.h:602-618 | below the lower bound are exactly the keys less than k, and only at it can an equivalent key be |
| Orders.SortedUpperBound | amr/src/main/jni/oscl/oscl_tree.h:638-654 | the keys greater than k are exactly those from the upper bound on |
| Orders.SortedInsertIsSorted | amr/src/main/jni/oscl/oscl_tree.h:445-468 | sorted insertion keeps keys strictly ascending |
| Orders.SortedInsertNew | amr/src/main/jni/oscl/oscl_tree.h:445-468 | sorted insertion changes nothing exactly when an equivalent key is there, and otherwise adds v and nothing else |
| Orders.SortedInsertPlace | amr/src/main/jni/oscl/oscl_tree.h:445-468 | after the insertion the lower bound of v's key is where v or its equivalent sits |
| Orders.FirstInsertionWins | amr/src/main/jni/oscl/oscl_tree.h:445-468 | over any run of unique insertions the container is sorted and holds a value exactly if it was the first with its key |
| RefCounterMT.RunIsSafe | amr/src/main/jni/oscl/oscl_refcounter.h:292-324 | over every interleaving of callers that own a reference, also between the read and the write of one change, with at most 2^32 references: the count equals owned plus in-flight references modulo 2^32 and no access reaches a destroyed counter, lock or buffer |
| RefCounterMT.DestroyedOnce | amr/src/main/jni/oscl/oscl_refcounter.h:302-324 | over every run exactly one removeRef takes the destroy branch once no reference is left, and none before |
| RefCounterMT.NextKeepsInv | amr/src/main/jni/oscl/oscl_refcounter.h:385-419 | every step of every thread keeps the invariant: what a thread has read under the lock is still the count when it writes |
| RefCounterMT.NextTotal | amr/src/main/jni/oscl/oscl_refcounter.h:292-305 | only the increment and the decrement change the number of references |
| RefCounterMT.MutualExclusion | amr/src/main/jni/oscl/oscl_refcounter.h:294-296 | two threads between lock and unlock are the same thread |
| RefCounterMT.NothingAfterDestruction | amr/src/main/jni/oscl/oscl_refcounter.h:305-319 | once the counter is gone no thread can take a step on it |
| RefCounterMT.Progress | amr/src/main/jni/oscl/oscl_refcounter.h:292-324 | while a call is in progress some thread can move |
| RefCounterMT.StepsRunOut | amr/src/main/jni/oscl/oscl_refcounter.h:292-324 | each step uses up a bounded amount of work, so calls end |
| RefCounterMT.QuietMeansExact | amr/src/main/jni/oscl/oscl_refcounter.h:302-324 | with no call in progress, counter and buffer exist exactly while somebody owns a reference, and the lock is free |
| RefCounterMT.DecrementFindsZeroWhen | amr/src/main/jni/oscl/oscl_refcounter.h:305-305 | on 32 bits a decrement finds zero exactly when the references are one more than a multiple of 2^32 |
| RefCounterMT.WrapDestroysEarly | amr/src/main/jni/oscl/oscl_refcounter.h:292-324 | a run of calls from a new counter to 2^32 + 1 references, after which one removeRef destroys counter and buffer with 2^32 references left |
| RefCounterMT.WrapFaults | amr/src/main/jni/oscl/oscl_refcounter.h:292-324 | the same run one call further: the next addRef reaches the destroyed counter |
| RefCounterMT.CountReadIsExact | amr/src/main/jni/oscl/oscl_refcounter.h:329-332 | the unlocked read of getCount sees exactly the number of references, modulo 2^32, even between the read and the write of a change |
| SharedHandles.RefCounter.AddRef | amr/src/main/jni/oscl/oscl_refcounter.h:117-120 | one more reference; a full count starts over at zero |
| SharedHandles.RefCounter.RemoveRef | amr/src/main/jni/oscl/oscl_refcounter.h:125-141 | one reference less; buffer and counter are destroyed exactly at zero |
| SharedHandles.Ledger.DestroyedExactlyWhenUnused | amr/src/main/jni/oscl/oscl_refcounter.h:125-141 | in every reachable state a counter equals live handles plus references handed over, and is destroyed, once, exactly when there are none |
| SharedHandles.Ledger.HandleKeepsAlive | amr/src/main/jni/oscl/oscl_shared_ptr.h:63-85 | the counter of a live handle, shared pointer or fragment, has not been destroyed |
| SharedHandles.SharedPtr.constructor | amr/src/main/jni/oscl/oscl_shared_ptr.h:63-64 | the handle takes over the caller's reference |
| SharedHandles.SharedPtr.Copy | amr/src/main/jni/oscl/oscl_shared_ptr.h:68-75 | a copy counts once more; all counts stay exact exactly if the 32-bit count had room |
| SharedHandles.SharedPtr.Destroy | amr/src/main/jni/oscl/oscl_shared_ptr.h:79-85 | a handle that goes stops counting |
| SharedHandles.SharedPtr.Bind | amr/src/main/jni/oscl/oscl_shared_ptr.h:166-183 | rebinding, even to the same counter, keeps every count exact exactly if no reference is added to a full count; it ends with the other handle's counter exactly if the object pointers differed or the counters were equal |
| SharedHandles.BoundButNotShared | amr/src/main/jni/oscl/oscl_shared_ptr.h:168-168 | after binding, two handles with the same object pointer can still have different counters |
| SharedHandles.SharedPtr.BindRaw | amr/src/main/jni/oscl/oscl_shared_ptr.h:185-196 | the old reference goes, the caller's is taken over |
| SharedHandles.SharedPtr.Unbind | amr/src/main/jni/oscl/oscl_shared_ptr.h:132-135 | the handle is empty and counts no more |
| SharedHandles.MemFrag.constructor | amr/src/main/jni/oscl/oscl_refcounter_memfrag.h:70-74 | the fragment takes over the caller's reference |
| SharedHandles.MemFrag.Copy | amr/src/main/jni/oscl/oscl_refcounter_memfrag.h:79-86 | a copy counts once more; all counts stay exact exactly if the 32-bit count had room |
| SharedHandles.MemFrag.Default | amr/src/main/jni/oscl/oscl_refcounter_memfrag.h:91-97 | an empty fragment, no reference |
| SharedHandles.MemFrag.Assign | amr/src/main/jni/oscl/oscl_refcounter_memfrag.h:103-129 | assignment, also to itself, keeps every count exact exactly if no reference is added to a full count, and leaves all fields equal to the other fragment's |
| SharedHandles.MemFrag.Destroy | amr/src/main/jni/oscl/oscl_refcounter_memfrag.h:138-144 | a fragment that goes stops counting |
| HandleWeb.BindIsSafeExactlyWhen | amr/src/main/jni/oscl/oscl_shared_ptr.h:166-183 | Bind finds both handles still there after its release exactly if it returns at its guard or neither handle is stored in an object that goes with the released reference; the object the argument is attached to is then there, too |
| HandleWeb.WritesAreSafeExactlyWhen | amr/src/main/jni/oscl/oscl_shared_ptr.h:185-196 | Bind to a plain pointer, and Unbind, find their own handle still there when they write it exactly if it is not stored in an object that goes |
| HandleWeb.OutsideIsSafe | amr/src/main/jni/oscl/oscl_refcounter_memfrag.h:103-129 | assignment between fragments that are not stored in counted objects never reads one that is gone |
| HandleWeb.AnotherOwnerIsSafe | amr/src/main/jni/oscl/oscl_shared_ptr.h:166-183 | a second handle from outside on the object that holds the argument makes Bind safe |
| HandleWeb.NextOfHeadIsGone | amr/src/main/jni/oscl/oscl_shared_ptr.h:170-176 | the only owner of an object bound to a handle stored in that object: the argument is gone when it is read |
| HandleWeb.CollapseExact | amr/src/main/jni/oscl/oscl_refcounter.h:125-141 | whatever the order in which counters reach zero, exactly the objects go that only objects going before them hold |
| HandleWeb.CollapseEnds | amr/src/main/jni/oscl/oscl_refcounter.h:125-141 | destruction that destroys further handles always ends |
| CycleTimer.NewTimer | amr/src/main/jni/oscl/oscl_timer.h:211-228 | a frequency of zero is refused; otherwise an empty timer with the period of the frequency |
| CycleTimer.OsclTimer.Request | amr/src/main/jni/oscl/oscl_timer.h:270-300 | outside a callback a new last entry holds the id, parameter, observer and kind asked for, counter and iOrigCounter the cycles, the alarm is set for a period if it was at rest, and the expected time is set to a period from now if it was zero; inside one the request waits, and nothing else changes |
| CycleTimer.OsclTimer.Cancel | amr/src/main/jni/oscl/oscl_timer.h:304-332 | outside a callback exactly the first entry with iTimerID == id and iParam == param, any iParam for -1, is off the list afterwards, nothing if there is none, and its request has ended; inside one the cancel waits, and nothing else changes |
| TimerPromises.CancelTakesOffFirst | amr/src/main/jni/oscl/oscl_timer.h:318-330 | the same of the history: the first entry with the id and the parameter, any for -1, goes, no other, and its request ends at the present tick |
| TimerPromises.TakenOffIsSilent | amr/src/main/jni/oscl/oscl_timer.h:304-343 | over every run: a request that ended after tick n, by a cancel, a deferred cancel or a clear, expires on no later tick and nobody is called for it |
| TimerPromises.ClearEndsAll | amr/src/main/jni/oscl/oscl_timer.h:336-343 | a clear ends every request on the list at the present tick |
| TimerPromises.CancelAllTakesOff | amr/src/main/jni/oscl/oscl_timer.h:389-398 | each deferred cancel takes off the first entry it names from what the ones before it left |
| TimerPromises.CancelledIsNotCalled | amr/src/main/jni/oscl/oscl_timer.h:318-330 | inputs: a cancel for any parameter, one that names the second of two timers, and one that names none |
| CycleTimer.CancelledByParameter | amr/src/main/jni/oscl/oscl_timer.h:318-330 | a run: of two timers with the same id the second is cancelled by its parameter, and only the first is called |
| CycleTimer.OsclTimer.Clear | amr/src/main/jni/oscl/oscl_timer.h:336-343 | in or out of a callback every entry on the list is freed once, the list is empty, and what waits still waits |
| CycleTimer.OsclTimer.TimerBaseElapsed | amr/src/main/jni/oscl/oscl_timer.h:346-441 | one tick calls the observer, local or else global, of each expiring entry that has one, with its id and parameter, in list order, and no other; it refines the model's tick for every list of commands the callbacks give; afterwards nothing waits, nothing but the list is allocated, and alarm and expected time are exact |
| CycleTimer.OsclTimer.ExpirePass | amr/src/main/jni/oscl/oscl_timer.h:350-370 | every counter goes down once, expired recurring entries start over, each expired entry with an observer makes its one call in order, and what the observers ask for waits |
| CycleTimer.OsclTimer.Run | amr/src/main/jni/oscl/oscl_timer.h:94-98 | a completed alarm makes a tick and a cancelled one none; afterwards the timer is armed exactly if entries are on its list, all that joined the list is newly allocated, and the schedule has gone one period on or is at rest |
| CycleTimer.RunWhileArmed | amr/src/main/jni/oscl/oscl_timer.h:94-98 | any number of alarms in a row: all n ticks happen, whatever the callbacks ask for, or the timer comes to rest with an empty list |
| CycleTimer.OsclTimer.KeepsTime | amr/src/main/jni/oscl/oscl_timer.h:421-429 | for the timer itself: with steady ticks only, however many, the expected time is the start of the schedule plus as many periods, modulo 2^32 |
| CycleTimer.OsclTimer.ExpiresOnTime | amr/src/main/jni/oscl/oscl_timer.h:346-409 | for the timer itself, whatever was done with it and for any cycle counts: on each tick so far exactly the requests due on it that have an observer got a call, each once, in order, with what was asked for: to the own observer if there is one, else to the global one |
| CycleTimer.OwnObserverFirst | amr/src/main/jni/oscl/oscl_timer.h:360-366 | a run with both kinds of observer: the own one is called for a timer that has one, the global one only for a timer that has none |
| CycleTimer.OsclTimer.TimeoutOccurred | amr/src/main/jni/oscl/oscl_timer.h:364-366 | the call is made with observer, id and parameter, and what the callback requests and cancels only waits, in order |
| CycleTimer.OsclTimer.RemoveExpired | amr/src/main/jni/oscl/oscl_timer.h:373-387 | the removal loop ends and leaves exactly the entries with a positive counter, in order, freeing the others once |
| CycleTimer.OsclTimer.ProcessCancels | amr/src/main/jni/oscl/oscl_timer.h:389-398 | the deferred cancels are done in order and their entries freed once |
| CycleTimer.OsclTimer.ProcessRequests | amr/src/main/jni/oscl/oscl_timer.h:400-409 | the deferred requests join in order, as one-shots, and their waiting entries are freed once |
| CycleTimer.OsclTimer.Rearm | amr/src/main/jni/oscl/oscl_timer.h:411-440 | with entries left and the alarm at rest: after a tick no more than a period off the alarm goes off at the new expected time, a period after the old one, in 0..2 periods; after a later one at once, with the present as expected time; rest if no entry is left |
| CycleTimer.OsclTimer.RunQuietly | amr/src/main/jni/oscl/oscl_timer.h:411-436 | the same of a whole run of the tick on which nothing is requested |
| Jitter.TickSetsRight | amr/src/main/jni/oscl/oscl_timer.h:413-436 | for any tick: steady, late and early, the wait and the new expected time in terms of time minus expected time as an int32 |
| Jitter.LateTickIsCorrected | amr/src/main/jni/oscl/oscl_timer.h:413-436 | an input: 0.3 seconds late at a period of a second, the wait is 0.7 seconds |
| CycleTimer.OsclTimer.Destroy | amr/src/main/jni/oscl/oscl_timer.h:231-248 | destruction between ticks leaves no entry allocated |
| CycleTimer.OsclTimer.SetFrequency | amr/src/main/jni/oscl/oscl_timer.h:251-257 | the cycle period is the largest whose multiple by the frequency is at most a second |
| TimerModel.ExpiryLaw | amr/src/main/jni/oscl/oscl_timer.h:270-409 | over every run, with any cycle counts, on each tick exactly the due requests expire, each once, in request order |
| TimerModel.OneShotExpiresOnce | amr/src/main/jni/oscl/oscl_timer.h:354-359 | a one-shot of c cycles not taken off before expires on the c-th tick after it joined, on the first for c below one, and on no other |
| TimerModel.RecurringExpiresEveryCycle | amr/src/main/jni/oscl/oscl_timer.h:354-359 | a recurring request of c >= 1 cycles expires on ticks c, 2c, 3c, ... after it joined until it is taken off, and on no other |
| TimerModel.RecurringBelowOneCycle | amr/src/main/jni/oscl/oscl_timer.h:354-387 | a recurring request of less than one cycle expires on every tick until it is taken off, the last time on the first tick on which a one-shot expires too |
| TimerModel.NextKeepsInv | amr/src/main/jni/oscl/oscl_timer.h:270-409 | every request, cancel, clear and tick, with any cycle counts, keeps every counter on the list in step with the due tick and every request that is still to expire on the list |
| TimerModel.NextContinues | amr/src/main/jni/oscl/oscl_timer.h:270-409 | no event changes when a request joined, its cycles, its kind or a recorded end |
| TimerModel.DeferredRequestsAreOneShot | amr/src/main/jni/oscl/oscl_timer.h:402-407 | a request made in a callback joins after the tick as a one-shot, recurring or not |
| TimerModel.DeferredRecurringIsLost | amr/src/main/jni/oscl/oscl_timer.h:400-407 | a run: a recurring timer of one cycle requested in a callback expires on the next tick and is then gone |
| TimerModel.RemovedExactlyWhen | amr/src/main/jni/oscl/oscl_timer.h:372-387 | for any cycle count: an entry is off the list after a tick exactly if a one-shot expired on it and the entry's own counter is not positive |
| TimerModel.RecurringBelowOneCycleIsLost | amr/src/main/jni/oscl/oscl_timer.h:358-387 | a recurring entry of zero cycles is taken off when a one-shot expires |
| TimerModel.PositiveIgnores | amr/src/main/jni/oscl/oscl_timer.h:373-387 | taking off an entry whose counter is not positive does not change what the removal leaves |
| TimerLaws.CallLaw | amr/src/main/jni/oscl/oscl_timer.h:354-367 | from the history: a request due on tick t with an observer of its own has its call to that one, one without has its call to the global observer of the tick, and without either there is no call; all calls are such, with the request's own id and parameter, in request order |
| TimerLaws.NextLawful | amr/src/main/jni/oscl/oscl_timer.h:270-409 | every request, cancel, clear and tick, with callbacks doing anything, keeps the law: calls match what expired, and what expired was due |
| TimerLaws.TickLaw | amr/src/main/jni/oscl/oscl_timer.h:346-409 | a tick keeps the law and adds exactly the calls of the expiring entries |
| TimerPromises.OwnBeforeGlobal | amr/src/main/jni/oscl/oscl_timer.h:360-366 | inputs: two timers due on the same tick, one with an observer of its own, and a global observer |
| TimerPromises.AskedInOrder | amr/src/main/jni/oscl/oscl_timer.h:350-369 | what is asked for on a tick is what the observers of the entries that make their call ask for, entry by entry, and nothing else |
| TimerPromises.RequestsInOrder | amr/src/main/jni/oscl/oscl_timer.h:270-287 | the requests that wait are exactly those among the commands, in order |
| TimerPromises.CancelsInOrder | amr/src/main/jni/oscl/oscl_timer.h:304-313 | the cancels that wait are exactly those among the commands, in order |
| TimerPromises.CallbackRequestJoins | amr/src/main/jni/oscl/oscl_timer.h:400-409 | what the observer of an entry that makes its call requests is on the list after the tick, as a one-shot with those fields |
| TimerPromises.CallbackCancelEnds | amr/src/main/jni/oscl/oscl_timer.h:389-398 | what such an observer cancels is off the list after the tick, if nothing else has the name, and its request ended on that tick |
| TimerPromises.TickTakesOff | amr/src/main/jni/oscl/oscl_timer.h:350-409 | the list after a tick: what survives the expiry, without the first entry that each deferred cancel names in turn, and then the deferred requests |
| TimerLaws.CallbackRequestsStay | amr/src/main/jni/oscl/oscl_timer.h:389-409 | what callbacks request on a tick is on the list after it, in order and behind everything else, whatever they cancel |
| Jitter.EarlyTickOvershoots | amr/src/main/jni/oscl/oscl_timer.h:413-436 | a tick more than a period early: the new expected time is the present, while the wait is longer than two periods and ends one period after the old expected time |
| Jitter.EarlyTickMisses | amr/src/main/jni/oscl/oscl_timer.h:413-436 | an input: one microsecond more than a period early |
| Jitter.SteadyTickIsCorrected | amr/src/main/jni/oscl/oscl_timer.h:413-436 | for a tick no further off than a period: the wait is in 0..2 periods and ends, modulo 2^32, at the new expected time |
| Jitter.WaitMeetsExpectationWhen | amr/src/main/jni/oscl/oscl_timer.h:413-436 | for any tick: the wait ends at the new expected time exactly if the tick was at most a period early, or early enough for the wait to wrap to nothing |
| Jitter.RequestKeepsScheduleWhen | amr/src/main/jni/oscl/oscl_timer.h:296-299 | after steady ticks a request leaves the expected time alone exactly if it is not zero, or would be set to zero anyway |
| Jitter.ScheduleAtZeroIsLost | amr/src/main/jni/oscl/oscl_timer.h:296-299 | an input: a schedule that comes to zero, taken for none by the next request |
| Jitter.RequestsKeepSchedule | amr/src/main/jni/oscl/oscl_timer.h:296-299 | requests leave a schedule whose expected time is not zero alone, however many |
| Jitter.NoDrift | amr/src/main/jni/oscl/oscl_timer.h:421-429 | after n steady ticks without a request the expected time is the start plus n periods, modulo 2^32 |
| Jitter.SteadyTicksAddUp | amr/src/main/jni/oscl/oscl_timer.h:421-429 | steady ticks advance the expected time by one period each |
| TagTree.TagTree.Insert | amr/src/main/jni/oscl/oscl_tagtree.h:419-492 | the node returned is that of the first components of the tag, all of them or as many as a non-zero maxDepth lets; every missing prefix of it gets a node, it itself one with x; existing nodes and values stay; parents, children lists and depth bound are exact; says whether the node is new |
| TagTree.InsertedIs | amr/src/main/jni/oscl/oscl_tagtree.h:438-489 | tag by tag: exactly the prefixes are added, what was there keeps its value, the tag itself gets x and every other new one the default value |
| TagTree.TooDeep | amr/src/main/jni/oscl/oscl_tagtree.h:429-436 | an input: a tag of two components at a maxDepth of one goes to its first |
| TagTree.TagTree.Climb | amr/src/main/jni/oscl/oscl_tagtree.h:438-489 | the bottom-up loop, with a node hanging in the air between turns, leaves every link exact |
| TagTree.TagTree.Grow | amr/src/main/jni/oscl/oscl_tagtree.h:455-486 | a turn that makes a node hangs the last one from it and leaves only the new one without a parent |
| TagTree.TagTree.Meet | amr/src/main/jni/oscl/oscl_tagtree.h:442-454 | the turn that finds a node hangs the last one from it and leaves none without a parent |
| TagTree.TagTree.Adopt | amr/src/main/jni/oscl/oscl_tagtree.h:445-448 | linking a child to its parent closes exactly that gap |
| TagTree.TagTree.Truncate | amr/src/main/jni/oscl/oscl_tagtree.h:429-436 | the result is a prefix of the tag, the whole tag or as long as a non-zero maxDepth lets |
| TagTree.TagTree.Index | amr/src/main/jni/oscl/oscl_tagtree.h:398-401 | the node of the first components of the tag, as many as a non-zero maxDepth lets, newly allocated with the default value if there was none, as are those of missing prefixes |
| TagTree.TagTree.Erase | amr/src/main/jni/oscl/oscl_tagtree.h:501-513 | a node with an entry on its children list only loses its value; any other goes, the rest stays linked, and exactly its parent's list is left with an entry for a destroyed node |
| TagTree.TagTree.EraseTag | amr/src/main/jni/oscl/oscl_tagtree.h:524-533 | returns 1 exactly if the tag had a node; that is the number of nodes gone exactly if there was none or its children list was empty |
| TagTree.TagTree.ChildrenAreLiveExactlyWhen | amr/src/main/jni/oscl/oscl_tagtree.h:501-513 | a children list holds allocated nodes only exactly if it is as long as there are tags right below; it is never shorter |
| TagTree.ErasedLeafStaysListed | amr/src/main/jni/oscl/oscl_tagtree.h:501-513 | after erasing one of two leaves the root's list still holds the destroyed node |
| TagTree.TagTree.Sort | amr/src/main/jni/oscl/oscl_tagtree.h:136-157 | for a node whose list holds allocated nodes only: its children are in order, and the tree is otherwise as it was |
| TagTree.ErasedLeafStillCounts | amr/src/main/jni/oscl/oscl_tagtree.h:515-533 | erasing a leaf and then its parent reports an erasure that does not take place |
| TagTree.TagTree.ValidIsPrefixClosed | amr/src/main/jni/oscl/oscl_tagtree.h:501-513 | in every reachable state, erasures included, the ancestor of a tag with a node has one |
| TagTree.TagTree.constructor | amr/src/main/jni/oscl/oscl_tagtree.h:308-315 | only the root, without parent, children or other value than the default |
| TagTree.TagTree.Find | amr/src/main/jni/oscl/oscl_tagtree.h:552-555 | end() exactly if the tag has no value; otherwise the allocated node of that tag, which holds its value |
| TagTree.InsertedIsPrefixClosed | amr/src/main/jni/oscl/oscl_tagtree.h:419-492 | insertion keeps the tags closed under ancestors |
| TagTree.InsertedSize | amr/src/main/jni/oscl/oscl_tagtree.h:419-492 | insertion grows the tree by exactly the number of missing prefixes |
| TagTree.GrownEnough | amr/src/main/jni/oscl/oscl_tagtree.h:441-454 | stopping at the first prefix that has a node leaves no prefix out |
| TagTree.FirstReachDecides | amr/src/main/jni/oscl/oscl_tagtree.h:460-468 | over any run of insertions, the first that reaches a new tag decides its value: its own value for that tag, the default for a longer one |
| TagTree.Node.SortChildren | amr/src/main/jni/oscl/oscl_tagtree.h:136-157 | for allocated children, whose tags it reads: sorting ends, with the same children in order |
| TagTree.Node.Pass | amr/src/main/jni/oscl/oscl_tagtree.h:143-155 | for allocated children: a pass without a swap means order; any swap lowers the number of inversions |
| OutOfOrder.SwapTakesOne | amr/src/main/jni/oscl/oscl_tagtree.h:146-153 | exchanging two neighbours the wrong way round takes away exactly one inversion |
| OutOfOrder.NeighboursDecide | amr/src/main/jni/oscl/oscl_tagtree.h:143-156 | if no two neighbours are the wrong way round, no two elements are |
| OutOfOrder.NoInversionsWhenOrdered | amr/src/main/jni/oscl/oscl_tagtree.h:136-157 | no inversions means order, and the reverse |
| MediaData.BufFragGroup.AddFragment | amr/src/main/jni/oscl/oscl_media_data.h:213-252 | for every input: the refusals change nothing; a fragment that needs a place at exactly max_frags writes past the arrays; otherwise fragment and reference go to the given place, or to the end, length stays the sum of lengths modulo 2^32, and the buffer counts one place more |
| MediaData.PlacedWhere | amr/src/main/jni/oscl/oscl_media_data.h:225-249 | fragment and state go into the place at the offset if its pointer is NULL, before what is there if not, and to the end if the offset is no place in use |
| MediaData.BufFragGroup.OverrunsWhen | amr/src/main/jni/oscl/oscl_media_data.h:216-249 | the arrays are overrun exactly if all places are in use and the one at the offset, if there is one, is not free |
| MediaData.BufFragGroup.PutAt | amr/src/main/jni/oscl/oscl_media_data.h:225-249 | both arrays hold the old sequence with the new element placed |
| MediaData.MoveUp | amr/src/main/jni/oscl/oscl_media_data.h:230-234 | memmove by one place |
| MediaData.BufFragGroup.Clear | amr/src/main/jni/oscl/oscl_media_data.h:199-211 | every place lets go once; a buffer is released, once, exactly if its count was the number of this group's places that held it and there is a manager or a free function |
| MediaData.BufFragGroup.FitsExactlyWhen | amr/src/main/jni/oscl/oscl_media_data.h:216-219 | the placed sequence fits into max_frags exactly if no place is needed or one is left |
| MediaData.OneTooMany | amr/src/main/jni/oscl/oscl_media_data.h:216-219 | a second fragment in a group for one is let through by the guard and overruns the arrays |
| MediaData.BufFragGroup.constructor | amr/src/main/jni/oscl/oscl_media_data.h:155-159 | an empty group |
| MediaData.BufferState.DecrementRefcnt | amr/src/main/jni/oscl/oscl_media_data.h:87-98 | the manager or else the free function is told exactly when the count was one; only a buffer that the function freed loses its pointer |
| MediaData.BufferState.IncrementRefcnt | amr/src/main/jni/oscl/oscl_media_data.h:83-86 | one place more |
| MediaData.World.UnheldExactly | amr/src/main/jni/oscl/oscl_media_data.h:83-98 | over all groups, a count is zero exactly if no place holds the buffer |
| MediaData.MediaData.AddFragment | amr/src/main/jni/oscl/oscl_media_data.h:213-252 | unless refused or past the arrays: what is in place stays readable exactly if the fragment is, and the payload is then the old one with its bytes spliced in at its place |
| MediaData.MediaData.AddLocalFragment | amr/src/main/jni/oscl/oscl_media_data.h:394-446 | as for an external fragment, with a copy of the bytes in the next part of the local buffer, which nothing else uses; the refusals change nothing, and at exactly max_frags the arrays are overrun |
| MediaData.MediaData.SplicePointIs | amr/src/main/jni/oscl/oscl_media_data.h:225-249 | the bytes go behind those of the places before the given one, or behind all |
| MediaData.OneCopy | amr/src/main/jni/oscl/oscl_media_data.h:394-446 | a block copied into a new buffer of its size is the payload |
| MediaData.MediaData.CopyIn | amr/src/main/jni/oscl/oscl_media_data.h:411-419 | the copy changes no byte of any fragment in place |
| MediaData.MediaData.CopyPast | amr/src/main/jni/oscl/oscl_media_data.h:419-419 | a copy past all fragments in place leaves their bytes as they were |
| MediaData.CopyBytes | amr/src/main/jni/oscl/oscl_media_data.h:419-419 | memcpy between stretches that do not overlap |
| MediaData.MediaData.GetLocalFragment | amr/src/main/jni/oscl/oscl_media_data.h:317-329 | the next len bytes of the local buffer, or NULL and what is left |
| MediaData.MediaData.Clear | amr/src/main/jni/oscl/oscl_media_data.h:331-345 | as for the group: each buffer is released exactly if its count was the number of places here and there is someone to tell; the whole local buffer is free again |
| MediaData.ReleasedWithTheLast | amr/src/main/jni/oscl/oscl_media_data.h:83-98 | a run for each kind of state: a buffer in two groups is kept when the first is cleared and released once with the second, or never if nobody is to be told |
| MediaData.MediaData.RegionsAreDisjoint | amr/src/main/jni/oscl/oscl_media_data.h:317-329 | the parts of the local buffer handed out are disjoint, lie inside it and add up to what is in use |
| Fragments.PlacedFlatten | amr/src/main/jni/oscl/oscl_media_data.h:225-249 | placing a fragment splices its bytes into the payload after those of the places before |
| Fragments.PlacedIsPut | amr/src/main/jni/oscl/oscl_media_data.h:225-249 | placing, element by element: what is before the place, in it and behind it |
| Fragments.PlacedTotalLen | amr/src/main/jni/oscl/oscl_media_data.h:240-249 | placing a fragment adds its length to the total |
| Fragments.PlacedMultiset | amr/src/main/jni/oscl/oscl_media_data.h:225-249 | placing adds exactly the new element, or replaces what was in a free place |
| Fragments.TiledRegions | amr/src/main/jni/oscl/oscl_media_data.h:325-326 | consecutive regions are disjoint and add up |

## Left out

- RefCounterMT.RunIsSafe: more than 2^32 references, where it is false (WrapFaults); a machine on which a read and a write of one word can tear or be reordered across the lock.
- OrderedTree.RbTree: `erase` and `rebalance_for_erase`, colour and height balance (bodies not in the repository); `operator=` (clear and copy again); range insertion; const iterators, which repeat the others; the 32-bit width of `node_count`.
- SharedHandles.SharedPtr.Bind: both handles are taken to outlive the release, as in MemFrag.Assign; HandleWeb.BindIsSafeExactlyWhen says when they do.
- SharedHandles.Ledger: what happens after a full count has started over; RefCounterMT has such runs.
- HandleWeb: the numbers in the counters, which SharedHandles ties to the handles; there an object is held exactly as long as a handle is attached to it.
- SharedHandles.RefCounter: `OsclRefCounterSA`, the same code with the deallocator as a type parameter.
- CycleTimer.OsclTimer.Clear: is no command of a callback's script; called there it frees the entries that the tick is walking over.
- CycleTimer.OsclTimer.Run: after a cancelled alarm a timer with entries on its list is left without an alarm until the next request, as in the code, so Valid() is not promised then.
- CycleTimer.OsclTimer.SetFrequency: `SetExactFrequency`, which stores the period it is given; a frequency of zero, which divides by zero.
- CycleTimer.OsclTimer.TickEntry: the wrap-around of a counter at the smallest int32.
- The product of tick count and tick period, which the callers of the model pass in as the time (`Now`).
- The scheduler behind the timer: an alarm that is set runs the tick, and `RunIfNotReady` keeps an alarm that is set.
- TagTree.Node.SortChildren: lists with destroyed nodes, which it would read; an allocator that hands out the address of a destroyed node again, so that the entry left on a list names the new node.
- TagTree: copying, assigning and clearing a whole tree; comparing tags as C strings (the order is a parameter of the sort, the map is a Dafny map).
- MediaData.BufFragGroup.AddFragment: what memory holds after a write past the arrays (status OVERRUN); the same for MediaData.AddLocalFragment.
- MediaData.BufferState: the 32-bit width of the count; `bind` and `reset`, which overwrite it.
- MediaData.MediaData: `IsLocalData`, `GetMediaFragment`, `GetMediaSize` and reserved fragments beyond the rule that a place with a NULL pointer is free; the chain of groups; timestamps.
- Allocation failure, alignment and logging in all parts.
- JNI glue, codecs, sockets, memory pools, schedulers and the other headers that only declare.
