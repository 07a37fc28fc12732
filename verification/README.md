# A verified model of chassis services

This project models the parts of a wireless access controller's chassis software that keep
invariants over whole runs, and proves those invariants in Dafny.

- **Slab allocator** of the PPPoE daemon (`MemLayout`, `MemCache`, `MemCacheRuns`,
  `MemCacheObject`): blocks on full, partial and empty lists, a bump pointer and a recover list
  threaded through the word that names the owner of a live item. A cache refines the set of
  live handles.
- **MD5** (`Bits`, `Rfc1321`, `Rfc1321Bytes`, `Md5`, `Streaming`, `BitCounter`, `Md5Context`, `Md5Digest`): the
  streaming implementation against a one-shot statement of RFC 1321. Words are sequences of 32
  bits.
- **Timers** of the HMD daemon: the sorted linked queue shared by adders, cancellers and a
  ticker (`TimeVals`, `TimerQueue`, `TimerList`), and the array of relative timeouts that
  stands for absolute deadlines (`TimerArray`, `TimerArrayRuns`, `TimerArrayObject`).
- **Chassis state** of the HMD daemon: the licence pool and its replica on the backup master
  (`License`, `LicenseSteps`,
  `LicenseRuns`, `LicenseFailures`, `LicenseObject`), the election of the active one of two local
  instances (`Election`, `ElectionObject`), reference groups (`Groups`, `GroupsObject`) and the
  watchdog counters (`Watchdog`).
- **Layer-2 multicast list** of IGMP snooping (`L2mcKeys`, `L2mcList`): a doubly linked list
  whose ends point at themselves, refining a finite set of keys.
- **Codecs**: DHCP option-82 insertion over an option area (`Option82`, `Option82Packet`;
  RFC 2132, RFC 3046) and the normalisation of `ve` interface names (`Decimal`, `VeName`,
  `VeGrammar`).

Where the source changes state in place there is a class whose methods carry out the source's
branches and loops, each proved equal to a step function on values; the theorems over runs are
about the step functions. Where the source only computes there are functions.

`Options`, `Lists` and `Chassis` hold what several modules share.

`dafny verify dfyconfig.toml` checks everything.

## Where the code does not do what it promises

Each of these is stated with the exact condition under which the code does meet the property.

- The block size of a cache is a 32-bit sum; if it wraps, the last item is outside
  (`MemLayout.ItemsFitExactlyWithoutWrap`). With `max_blk` 0, `max_empty` is not checked
  (`MemCacheRuns.NewCacheIsBoundedExactly`), and such a cache grows without limit.
  The item size is a 32-bit sum too; if it wraps, the user's bytes do not fit
  (`MemLayout.UserBytesFitExactly`).
- `TV_MINUS` borrows 999999 instead of 1000000 and can arm a zero interval
  (`TimeVals.IntervalOfFuture`, `TimeVals.ZeroIntervalExactly`).
- `shortest_timer` compares with a sentinel and misses timers that reach it
  (`TimerArray.ShortestMissesExactly`), which takes a deadline that wraps
  (`TimerArray.ShortestMissIsReached`).
- Licences of cells without an instance, or of instance 0, stay assigned when their board is
  removed (`LicenseRuns.RemovalReturnsAllExactly`); the replica diverges when a board count
  differs from what was assigned (`LicenseRuns.FollowerMatchesExactly`). `LicenseFailures` has
  the runs that get there. An active master counts a request string again that comes back after
  another one (`LicenseSteps.ReturningRequestCountsAgainExactly`).
- With slot 0 as the first slot, creating the second instance replies success and makes no
  record (`Election.CreateExactly`).
- A neighbour counts as enabled only if its flag is exactly 1, so another enable value elects
  two active slots (`Election.BothActiveExactly`); the host branch writes the flag before it
  looks for links (`Election.UnlinkedHostIsSafeExactly`).
- Adding to a full reference group replies success, group 0 is not refused, and deleting any
  group but the last replies that it does not exist (`Groups.AddIsExact`,
  `Groups.AddKeepsInvExactly`, `Groups.DeleteReplyIsTrueExactly`). A pair with slot number 0
  outlives its group (`Groups.AddThenDeleteExactly`).
- Group delete of the multicast list spares a matching tail
  (`L2mcKeys.GroupDeleteIsCompleteExactly`).
- The option walk keeps its offset in one byte (`Option82.EndIsFoundExactly`,
  `Option82.SomeParsedAreaHangs`, `Option82.TerminatesExactly`) and reads a Pad as an option
  (`Option82.PaddedEndIsFoundExactly`, `Option82.TrailingPadsExactly`).
- `ve` fields of 2^31 and more print as negative numbers, which can cost one character each,
  as an empty field does; an old name all of whose fields grow overruns the callers' buffer by
  one (`VeName.NameFitsExactly`). A slot printed that way does not parse
  (`VeName.RoundTripExactly`), and an old name with vlan 0 is not a fixed point (`VeName.IdempotentExactly`).

## Model

| member | source | states |
|---|---|---|
| `MemLayout.ItemsFitExactlyWithoutWrap` | pppoe/mem_cache.c:88-103 | the spare item of the block size pays for the masked alignment for every item size, power of two or not: all items lie inside the allocation if and only if the 32-bit size sum does not wrap |
| `MemLayout.PowerOfTwoItemsAreAligned` | pppoe/mem_cache.c:99-100 | for a power-of-two item size the first item is a multiple of it, whatever the pointer width |
| `MemLayout.ItemsApart` | pppoe/mem_cache.c:60-77 | two different items, of one block or of two separate allocations, do not overlap |
| `MemLayout.EffectiveLimits` | pppoe/mem_cache.c:209-212 | zero asks for the defaults 128 and 512; other limits are taken as they are |
| `MemLayout.UserBytesFitExactly` | pppoe/mem_cache.c:209-212 | the bytes a user asked for fit into the item behind its header if and only if the 32-bit item size did not wrap |
| `MemLayout.UserBytesEndBeforeNext` | pppoe/mem_cache.c:60-77 | so they end before the next item, its header included, begins |
| `MemCache.AllocKeepsInv` | pppoe/mem_cache.c:110-155 | alloc keeps the heap invariant (each slot live, recovered or unbumped; words, free counts and lists agree) and makes exactly one item live that was not |
| `MemCache.FreeKeepsInv` | pppoe/mem_cache.c:157-188 | freeing a live item keeps the heap invariant and makes exactly that item not live |
| `MemCacheRuns.RunKeepsInv` | pppoe/mem_cache.c:110-188 | every run of alloc and free of live items keeps the invariant, the configuration and the block limit |
| `MemCacheRuns.LiveItemIsInside` | pppoe/mem_cache.c:60-77 | a live item lies inside its block's allocation and its word names that block |
| `MemCacheRuns.LiveItemsAreApart` | pppoe/mem_cache.c:60-77 | live items are pairwise disjoint |
| `MemCacheRuns.EveryRunKeepsUserBytesApart` | pppoe/mem_cache.c:110-229 | over every run, for the size the user asked for: the bytes of a live item touch no other live item, its word included |
| `MemCacheRuns.AllocChoosesExactly` | pppoe/mem_cache.c:47-58 | alloc takes a partly used block if there is one, else an empty one, and makes a block only if there is neither; the counters move accordingly |
| `MemCacheRuns.FreeKeepsBlockExactly` | pppoe/mem_cache.c:157-188 | a block is given back if and only if it loses its last live item and max_empty empty ones are kept already; the counters move accordingly and no other block changes |
| `MemCacheRuns.AllocRefusesExactlyWhenFull` | pppoe/mem_cache.c:110-155 | with memory available, alloc returns NULL if and only if max_blk * item_num items are live |
| `MemCacheRuns.DestroyAcceptsExactlyWhenNoneLive` | pppoe/mem_cache.c:231-252 | destroy goes ahead if and only if no item is live |
| `MemCacheRuns.CreatedInv` | pppoe/mem_cache.c:190-229 | a created cache satisfies the invariant with nothing live, whatever its mallocs return |
| `MemCacheRuns.CreateAcceptsExactly` | pppoe/mem_cache.c:197-199 | creation refuses exactly limits above 128 and non-zero limits that the new cache would exceed |
| `MemCacheRuns.NewCacheIsBoundedExactly` | pppoe/mem_cache.c:190-229 | among accepted limits a new cache exceeds max_blk exactly for max_blk 0 with max_empty above the default, where the check is skipped |
| `MemCacheRuns.OversizedCacheNeverRefuses` | pppoe/mem_cache.c:117-123 | past the limit the equality test never stops the cache from growing |
| `MemCacheRuns.EveryRunIsSafe` | pppoe/mem_cache.c:110-252 | for every run of every created cache whose max_empty is at most max_blk: live items inside, apart and named; every slot live, recovered or unbumped and only one of them, with free_num the count of those not live; lists, limits, refusal and destroy exactly as above |
| `MemCacheObject.CacheObject.constructor` | pppoe/mem_cache.c:190-229 | the creation loop yields the specified cache |
| `MemCacheObject.CacheObject.TakeItem` | pppoe/mem_cache.c:60-77 | pops the recover list or bumps, in place |
| `MemCacheObject.CacheObject.Alloc` | pppoe/mem_cache.c:110-155 | the in-place allocation is the specified step, result included |
| `MemCacheObject.CacheObject.Free` | pppoe/mem_cache.c:157-188 | the in-place release is the specified step |
| `MemCacheObject.CacheObject.Destroy` | pppoe/mem_cache.c:231-252 | accepts as specified |
| `Md5.F1IsF` | pppoe/md5.c:153-154 | the optimised F1 equals F of RFC 1321 on all words |
| `Md5.F2IsG` | pppoe/md5.c:155 | F2 equals G of RFC 1321 on all words |
| `Md5.StepIsOperation` | pppoe/md5.c:160-161 | MD5STEP is the operation of RFC 1321 section 3.4 for all registers, data and rotations |
| `Md5.Row` | pppoe/md5.c:177-192 | four consecutive MD5STEP lines are four operations of the schedule, after which the registers are back in place |
| `Md5.Transform` | pppoe/md5.c:168-249 | the sixty-four lines compute the block function of RFC 1321, for all chaining words and blocks |
| `Streaming.AbsorbSplit` | pppoe/md5.c:60-102 | absorbing a and then b leaves the same chaining words, pending bytes and count as absorbing a + b |
| `Streaming.AbsorbChunks` | pppoe/md5.c:60-102 | any sequence of updates equals one update with the concatenation |
| `BitCounter.CounterStep` | pppoe/md5.c:66-69 | the low word with its manual carry and len >> 29 keep the pair exact after every update |
| `BitCounter.CounterIsSixtyFourBit` | pppoe/md5.c:66-69 | the pair is 8 times the bytes absorbed, modulo 2^64 |
| `BitCounter.LowCountsBytes` | pppoe/md5.c:71 | (bits[0] >> 3) & 0x3f is the number of pending bytes |
| `BitCounter.FieldOfCounter` | pppoe/md5.c:140-141 | the two counter words, low one first, are the length field of RFC 1321 section 3.2 |
| `Md5Context.OneBlock` | pppoe/md5.c:133-143 | padding within the block under way is the padding of RFC 1321 sections 3.1 and 3.2 |
| `Md5Context.TwoBlocks` | pppoe/md5.c:125-132 | so is padding that needs two blocks |
| `Md5Context.PaddingHashes` | pppoe/md5.c:112-143 | whichever case applies, the blocks hashed are those of the padded message |
| `Md5Context.Context.constructor` | pppoe/md5.c:45-54 | an empty context on the words MD5Init stores |
| `Md5Context.HashBlock` | pppoe/md5.c:92-94 | a block of bytes, decoded to words and transformed, is the block step of RFC 1321 section 3.4 |
| `Md5Context.InitialWords` | pppoe/md5.c:45-54 | the four words MD5Init stores are the initial words of the standard |
| `Rfc1321Bytes.InitialBytes` | pppoe/md5.c:45-54 | written out, low-order byte first, those words are the bytes 01 23 45 67 89 ab cd ef fe dc ba 98 76 54 32 10 of RFC 1321 section 3.3 |
| `Rfc1321Bytes.LowByteFirst` | pppoe/md5.c:29-39 | for every word: four bytes, the low-order byte first |
| `Rfc1321Bytes.DecodeOfEncode` | pppoe/md5.c:29-39 | decoding undoes encoding |
| `Rfc1321Bytes.AddIsModular` | pppoe/md5.c:160-161 | addition of words is addition of numbers modulo 2^32 |
| `Rfc1321Bytes.RotateIsCircular` | pppoe/md5.c:160-161 | rotation moves the low bits up and brings the high ones down, as numbers |
| `Rfc1321Bytes.PaddingBytes` | pppoe/md5.c:116-136 | the padding starts with the byte 0x80 and goes on with zero bytes |
| `Md5Context.Context.Count` | pppoe/md5.c:66-69 | the counter words move to the new count |
| `Md5Context.Context.HashBlocks` | pppoe/md5.c:91-97 | the 64-byte loop chains every whole block and leaves the rest |
| `Md5Context.Context.Update` | pppoe/md5.c:60-102 | the in-place update absorbs its data, through the partial buffer or past it |
| `Md5Context.Context.Final` | pppoe/md5.c:108-147 | hashes the pending bytes with the padding of the standard, in one or two blocks |
| `Md5Digest.AnyCutHashesToDigest` | pppoe/md5.c:45-147 | for every message and every way of cutting it into updates the result is the RFC 1321 digest |
| `Md5Digest.NothingIsLeftOver` | pppoe/md5.c:112-136 | the padding of the standard makes whole blocks, so that chaining takes in every byte |
| `Md5Digest.Hash` | pppoe/md5.c:45-147 | init, one update per piece and final on a context object return that digest |
| `TimeVals.AfterIsExact` | hmd/HmdTimeLib.c:357-362 | the deadline keeps total microseconds exactly and is normalised |
| `TimeVals.LessIsFewerMicros` | hmd/HmdTimeLib.c:32-34 | TV_LESS_THAN on normal times is the order of microseconds |
| `TimeVals.IntervalOfFuture` | hmd/HmdTimeLib.c:132-153 | the armed interval is normal and is the true difference, or 1 microsecond less in the borrow case |
| `TimeVals.IntervalOfPast` | hmd/HmdTimeLib.c:132-153 | a deadline that has passed arms one millisecond |
| `TimeVals.ZeroIntervalExactly` | hmd/HmdTimeLib.c:41-52 | a zero interval is armed exactly for a deadline 1 microsecond ahead across a second boundary |
| `TimerQueue.AddKeepsWellFormed` | hmd/HmdTimeLib.c:335-428 | insertion keeps the queue sorted by deadline with FIFO ties, ids distinct and in_use at the head only |
| `TimerQueue.RemKeepsWellFormed` | hmd/HmdTimeLib.c:430-465 | so does removal, whether it unlinks or marks the entry |
| `TimerQueue.EveryRunIsSafe` | hmd/HmdTimeLib.c:191-253 | over every interleaving of add, rem and the ticker's sections: each timer fires at most once, never before its deadline, never after a rem that found it queued; the queue stays well formed |
| `TimerQueue.EveryFiringIsLeastAndDue` | hmd/HmdTimeLib.c:229-246 | a timer that fires is due and least by deadline and id among those queued |
| `TimerQueue.EverySignalDecides` | hmd/HmdTimeLib.c:219-246 | in every run, a signal the ticker waits for decides the least queued timer: removed, it leaves without firing; due, it leaves and fires; early, it stays; and nothing else changes |
| `TimerQueue.WaitingHasLeast` | hmd/HmdTimeLib.c:191-201 | a waiting ticker has such a timer |
| `TimerQueue.EveryArmingDecides` | hmd/HmdTimeLib.c:191-201 | a ticker that does not wait arms the least queued timer and waits |
| `TimerQueue.EveryRemovalDecides` | hmd/HmdTimeLib.c:430-465 | removing a queued timer marks it if the ticker has it in use, and otherwise takes it, and only it, out at once |
| `TimerQueue.AddAcceptsExactly` | hmd/HmdTimeLib.c:342-355 | a request with a handler, memory and no negative part is accepted if and only if its deadline is ahead |
| `TimerQueue.EveryAdditionDecides` | hmd/HmdTimeLib.c:335-428 | an accepted timer is queued under the next id with its deadline, behind those due no later, in use if it comes first before others; a refused one changes nothing |
| `TimerQueue.RemovedNeverFires` | hmd/HmdTimeLib.c:430-465 | after a rem that found the timer no continuation fires it, even if it was head and is later overtaken |
| `TimerQueue.NoTimerIsLost` | hmd/HmdTimeLib.c:191-253 | every timer ever added is queued, was removed or has fired |
| `TimerList.TimerQ.constructor` | hmd/HmdTimeLib.c:262-312 | the empty queue |
| `TimerList.TimerQ.Dequeue` | hmd/HmdTimeLib.c:104-122 | unlinking any node keeps first, last, next and prev mirroring each other |
| `TimerList.TimerQ.Search` | hmd/HmdTimeLib.c:385-395 | the loop stops at the first timer that expires later |
| `TimerList.TimerQ.TakeOver` | hmd/HmdTimeLib.c:408-419 | a new head takes over in_use |
| `TimerList.TimerQ.Add` | hmd/HmdTimeLib.c:335-428 | timer_add on the linked list is the specified step; refusals return -1 and change nothing |
| `TimerList.TimerQ.Rem` | hmd/HmdTimeLib.c:430-465 | timer_rem on the linked list is the specified step |
| `TimerList.TimerQ.Arm` | hmd/HmdTimeLib.c:191-201 | the ticker marks the head as in use |
| `TimerList.TimerQ.Expire` | hmd/HmdTimeLib.c:220-246 | the ticker after its signal drops, leaves or runs the head as specified |
| `TimerArray.SetRefines` | hmd/HmdTime.h:202-262 | setting a timer gives it the deadline now + timeout and changes no other pending deadline, whether it becomes the next one or not |
| `TimerArray.CancelRefines` | hmd/HmdTime.h:265-285 | cancelling drops that deadline and no other; those already due expire if it was the next |
| `TimerArray.RestartRefines` | hmd/HmdTime.h:300-362 | subtracting the elapsed time and starting the shortest timer keeps exactly the deadlines after now; next is a minimum, null iff none is pending |
| `TimerArray.IsrRefines` | hmd/HmdTime.h:289-298 | the interrupt expires exactly the timers that are due |
| `TimerArray.ShortestMissesExactly` | hmd/HmdTime.h:318-328 | the minimum search finds nothing although timers are pending exactly if all their timeouts reach its sentinel |
| `TimerArray.ShortestMissIsReached` | hmd/HmdTime.h:318-328 | a run that gets there: a timer as long as the sentinel is set, and the next interrupt forgets it |
| `TimerArrayRuns.EveryRunIsFaithful` | hmd/HmdTime.h:202-362 | over every run with a clock that does not wrap, the array's deadlines are those of an abstract machine over slots and deadlines, and every timer ever started is running, was cancelled, or has expired exactly once and not before its deadline |
| `TimerArrayRuns.FiredAreExpired` | hmd/HmdTime.h:300-317 | the asts that an operation runs are exactly those of the timers that the abstract machine expires |
| `TimerArrayRuns.EverySetDecides` | hmd/HmdTime.h:213-229 | in every run _setimr answers at once exactly for no time, is out of timers exactly if every slot is pending, and otherwise takes the first slot that is not |
| `TimerArrayObject.Timers.constructor` | hmd/HmdTime.h:194-198 | all timers unused |
| `TimerArrayObject.Timers.UpdateAll` | hmd/HmdTime.h:300-317 | the loop reduces or expires every timer and reports exactly those it expired |
| `TimerArrayObject.Timers.ShortestTimer` | hmd/HmdTime.h:318-328 | the loop finds the specified minimum |
| `TimerArrayObject.Timers.SetTimer` | hmd/HmdTime.h:202-262 | _setimr on the array is the specified step, with its reply (no wait, out of timers, or the slot) and its expiries |
| `TimerArrayObject.Timers.CancelTimer` | hmd/HmdTime.h:265-285 | _cantim on the array is the specified step |
| `TimerArrayObject.Timers.ClockIsr` | hmd/HmdTime.h:289-298 | clk_isr on the array is the specified step |
| `LicenseRuns.InitialIsBalanced` | hmd/hmd.c:294-365 | initial tables conserve licences |
| `LicenseRuns.EveryRunConserves` | hmd/HmdDbus.c:4426-4537 | over every run of assign, both sync branches, backup sync, board removal and insertion: total == free + sum of all assignments, for every type |
| `LicenseRuns.EveryActiveRunIsSolvent` | hmd/HmdDbus.c:4426-4537 | an active master taking non-negative requests keeps free >= 0 and 0 <= board count <= assigned for every present board |
| `LicenseRuns.InitialIsSolvent` | hmd/hmd.c:294-365 | so do the initial tables |
| `LicenseSteps.CellsOfInstances` | hmd/HmdDbus.c:4432-4447 | remote and local instances are counted apart |
| `LicenseSteps.AssignDecides` | hmd/HmdDbus.c:4426-4537 | the exact condition of each reply; on success exactly the named type, slot, local flag and instance counts num, the pool moves by the difference and nothing else changes; otherwise nothing changes |
| `LicenseSteps.FollowDecides` | hmd/HmdManagement.c:1314-1355 | the backup grants the same if it has the board and can afford it, else nothing changes |
| `LicenseSteps.RemoveBoardDecides` | hmd/HmdStateListen.c:193-328 | of every type, exactly the existing instances other than number 0 of that board give back all they have |
| `LicenseSteps.InsertBoardDecides` | hmd/hmd.c:1100-1116 | a new board starts with no licences and no instances; a present one is left alone |
| `LicenseSteps.SynchroniseDecides` | hmd/HmdManagement.c:1149-1170 | what is lent out never changes; an active master adds the licences of an unknown request once, an inactive one takes over the total |
| `LicenseSteps.SynchroniseTouches` | hmd/HmdManagement.c:1149-1170 | only the record of that type is synchronised |
| `LicenseSteps.ReturningRequestCountsAgainExactly` | hmd/HmdManagement.c:1154-1162 | a request is counted again when it comes back if and only if a different new one came between |
| `LicenseRuns.RemovalReturnsAllExactly` | hmd/HmdStateListen.c:193-317 | a removed board gives back all its licences if and only if every cell that holds some belongs to an existing instance other than number 0 |
| `LicenseFailures.LicencesAreStranded` | hmd/HmdStateListen.c:193-317 | for every request that the pool can meet there is a run (insert the board, assign, remove it) after which neither a board nor the pool has the licences |
| `LicenseRuns.FollowerMatchesExactly` | hmd/HmdManagement.c:1314-1355 | the exact condition under which master and backup end equal after one assignment |
| `LicenseFailures.ReplicaDiverges` | hmd/HmdManagement.c:1314-1355 | when that board comes back, master and backup have reached equal tables, and every further request for the cell that the pool can meet parts them |
| `LicenseRuns.AssignKeepsReplica` | hmd/HmdManagement.c:322-332 | one assignment, granted or refused, keeps the replica's tables equal to the master's |
| `LicenseRuns.ReplicaAgrees` | hmd/HmdManagement.c:1314-1355 | so does any sequence of assignments to slots other than the backup's own |
| `LicenseObject.Licences.constructor` | hmd/hmd.c:294-365 | the initialisation loop fills the tables as specified |
| `LicenseObject.Licences.Assign` | hmd/HmdDbus.c:4426-4537 | the handler's branches are the specified step, reply included |
| `LicenseObject.Licences.Follow` | hmd/HmdManagement.c:1314-1355 | the backup's handler is the specified step |
| `LicenseObject.Licences.Synchronise` | hmd/HmdManagement.c:1149-1170 | both branches of the synchronisation are the specified step |
| `LicenseObject.Licences.ReturnAllTypes` | hmd/HmdStateListen.c:203-211 | the loop over types returns one cell of every type |
| `LicenseObject.Licences.RemoveBoard` | hmd/HmdStateListen.c:193-328 | the event loop returns every existing instance's licences and frees the board |
| `LicenseObject.Licences.InsertBoard` | hmd/hmd.c:1100-1116 | a new board starts with zero counts |
| `Election.CreateKeepsInv` | hmd/HmdDbus.c:838-996 | creating an instance keeps the invariant |
| `Election.CreateExactly` | hmd/HmdDbus.c:838-996 | a slot gets a record if and only if it has a board and none yet, and the profile is empty or has one slot that is not slot 0; the two then point at each other; other records keep flags and roles |
| `Election.CreateReplies` | hmd/HmdDbus.c:838-996 | the exact condition of each reply |
| `Election.EveryCreationDecides` | hmd/HmdDbus.c:838-996 | the same in every run |
| `Election.HostAndRemoteAgree` | hmd/HmdDbus.c:3370-3603 | from any tables, the host branch and the remote branch leave every record equal, the neighbour's role field aside |
| `Election.RemoteDecides` | hmd/HmdDbus.c:3370-3476 | what enabling and disabling a remote slot does to every flag and role, for any tables |
| `Election.HostDecides` | hmd/HmdDbus.c:3480-3603 | the same for the host's own slot |
| `Election.SetEnabledKeepsInv` | hmd/HmdDbus.c:3370-3603 | switching a linked instance on or off keeps the invariant |
| `Election.SetEnabledReplies` | hmd/HmdDbus.c:3370-3603 | the exact condition of each reply |
| `Election.FlagsAreCopied` | hmd/HmdDbus.c:3377-3394 | the summary's flag of that slot and the neighbour's copy follow the command, and no other flag does |
| `Election.RemoteTellsRoles` | hmd/HmdDbus.c:3396-3475 | the remote branch leaves each side with the other's role whenever it changes one |
| `Election.EveryRunElects` | hmd/HmdDbus.c:3370-3603 | over every run of create, enable and disable: at most two slots, which point at each other; never two active; one active exactly when one is enabled |
| `Election.BothActiveExactly` | hmd/HmdDbus.c:3399-3412 | with other enable values, both slots end active exactly if the first value is neither 0 nor 1, the second is not 0 and the second slot was not active |
| `Election.UnlinkedHostIsSafeExactly` | hmd/HmdDbus.c:3480-3485 | without links the host branch keeps the invariant exactly if the flag was already as asked |
| `ElectionObject.Instances.Create` | hmd/HmdDbus.c:838-996 | the handler is the specified step, reply included |
| `ElectionObject.Instances.SetEnabled` | hmd/HmdDbus.c:3370-3603 | the handler is the specified step, reply included |
| `Groups.AddIsExact` | hmd/HmdDbus.c:1565-1629 | add succeeds if and only if the pair is in no group, and then joins that group if it has a free cell; a full group also replies success |
| `Groups.AddKeepsInvExactly` | hmd/HmdDbus.c:1565-1629 | adding keeps the invariant if and only if the group is not 0, or the request is not permitted, or the slot has no board, or the pair is already in a group |
| `Groups.RemoveIsExact` | hmd/HmdDbus.c:1483-1515 | removal takes out that pair from that group and nothing else |
| `Groups.DeleteIsExact` | hmd/HmdDbus.c:1690-1708 | deleting empties and unconfigures that group and keeps the invariant |
| `Groups.AddThenDeleteExactly` | hmd/HmdDbus.c:1690-1708 | adding a pair and deleting its group leaves a member in an unconfigured group if and only if the pair was admitted, there was a free cell and its slot number is 0 |
| `Groups.DeleteReplyIsTrueExactly` | hmd/HmdDbus.c:1690-1708 | the reply is right exactly for the last group and for groups that were not configured |
| `Groups.ConfigKeepsInv` | hmd/HmdDbus.c:1760-1764 | configuring a group keeps the invariant and all members |
| `Groups.ConfigDecides` | hmd/HmdDbus.c:1746-1764 | exactly a permitted request configures the group, and no other group is touched |
| `Groups.AddDecides` | hmd/HmdDbus.c:1565-1629 | the exact condition of each reply; success configures the group if there is a free cell; no other group is touched |
| `Groups.RemoveDecides` | hmd/HmdDbus.c:1468-1522 | the exact condition of each reply; no other group is touched |
| `Groups.DeleteDecides` | hmd/HmdDbus.c:1677-1708 | exactly a permitted request unconfigures the group and frees all its cells; no other group is touched |
| `Groups.EveryRunIsDisjoint` | hmd/HmdDbus.c:1483-1764 | over every run: no pair occupies two cells of the whole table, a group id is 0 or the index, and a group with id 0 has no members |
| `GroupsObject.Table.Config` | hmd/HmdDbus.c:1760-1764 | the handler is the specified step |
| `GroupsObject.Table.SearchOthers` | hmd/HmdDbus.c:1594-1607 | the nested loops find the pair exactly if another configured group has it |
| `GroupsObject.Table.Add` | hmd/HmdDbus.c:1565-1629 | the handler is the specified step, reply included |
| `GroupsObject.Table.Remove` | hmd/HmdDbus.c:1483-1515 | the handler is the specified step, reply included |
| `GroupsObject.Table.Delete` | hmd/HmdDbus.c:1690-1708 | the handler is the specified step, reply included |
| `Watchdog.RoundIsOneOfThree` | hmd/HmdMonitor.c:383-577 | each round is a full success, a reload, or one more on exactly one of six counters |
| `Watchdog.FailureCountsExactly` | hmd/HmdMonitor.c:391-577 | a missing reply raises the timeout counter, any other failure the hard counter, of the first service that fails, and no other; the fifth failure or the tenth timeout reloads |
| `Watchdog.EveryRunIsBounded` | hmd/HmdMonitor.c:383-577 | between rounds hard counters are at most 4 and timeout counters at most 9 |
| `Watchdog.PatienceIsBounded` | hmd/HmdMonitor.c:383-577 | whatever the probes say, at most 39 consecutive rounds pass with neither success nor reload |
| `Watchdog.PatienceIsReached` | hmd/HmdMonitor.c:383-577 | and some run of the probes reaches 39 |
| `Watchdog.Monitor.Check` | hmd/HmdMonitor.c:383-577 | the nested branches are the specified round |
| `L2mcKeys.InsertIsAdd` | igmp-snooping/igmp_snoop_hw.c:601-697 | insert adds one key to the set, idempotently, or refuses exactly when full or out of memory, and changes nothing then |
| `L2mcKeys.NodeDeleteIsRemove` | igmp-snooping/igmp_snoop_hw.c:861-951 | node delete removes one key from the set |
| `L2mcKeys.GroupDeleteSparesTail` | igmp-snooping/igmp_snoop_hw.c:972-1053 | group delete removes every matching entry except a matching tail |
| `L2mcKeys.GroupDeleteIsCompleteExactly` | igmp-snooping/igmp_snoop_hw.c:1004-1014 | it leaves no matching entry if and only if the tail does not match |
| `L2mcKeys.EveryRunIsWithinCapacity` | igmp-snooping/igmp_snoop_hw.c:601-1199 | over every run keys are distinct and at most IGMP_SNP_GRP_MAX + 1 |
| `L2mcKeys.EveryRunIsNewestFirst` | igmp-snooping/igmp_snoop_hw.c:601-1199 | over every run the list is in the order of entry, the newest entry at the head |
| `L2mcKeys.FirstIsNewest` | igmp-snooping/igmp_snoop_hw.c:717-756 | so the entry that decides a group's vidx is its newest, and the tail that group delete spares is the oldest of all |
| `L2mcList.Entries.Lookup` | igmp-snooping/igmp_snoop_hw.c:874-918 | the search finds the key; its traversal limit never trips |
| `L2mcList.Entries.Insert` | igmp-snooping/igmp_snoop_hw.c:601-697 | insertion into the self-looped list is the specified step and keeps links, mirroring and the exact count |
| `L2mcList.Entries.Unlink` | igmp-snooping/igmp_snoop_hw.c:926-938 | the unlink cases keep the self-looped ends and the mirroring |
| `L2mcList.Entries.NodeDelete` | igmp-snooping/igmp_snoop_hw.c:861-951 | the specified step on the list |
| `L2mcList.Entries.GroupDelete` | igmp-snooping/igmp_snoop_hw.c:972-1053 | the specified step on the list, its limit never tripping |
| `L2mcList.Entries.DeleteAll` | igmp-snooping/igmp_snoop_hw.c:1145-1199 | the list is empty and the reply is OK |
| `L2mcList.Entries.GetVidx` | igmp-snooping/igmp_snoop_hw.c:717-756 | the vidx of the first entry of the vlan and group, an error exactly if there is none |
| `Option82.EndIsFoundExactly` | dba/dhcp_broadcast_agent.c:228-267 | over a Pad-free area the walk returns the End option of RFC 2132 if and only if its offset is at most 255 |
| `Option82.SomeParsedAreaHangs` | dba/dhcp_broadcast_agent.c:242-264 | a first option of length 254 makes the one-byte offset return to zero for ever, in an area that parses |
| `Option82.FirstPadDecides` | dba/dhcp_broadcast_agent.c:242-264 | with a Pad anywhere, the walk refuses at the first one exactly if the option it takes the Pad for does not fit; otherwise it returns what it returns from the wrapped offset behind that option |
| `Option82.PaddedEndIsFoundExactly` | dba/dhcp_broadcast_agent.c:242-264 | for every area with a Pad: End is found if and only if its offset is at most 255, that option fits, and End is found from behind it |
| `Option82.TrailingPadsExactly` | dba/dhcp_broadcast_agent.c:242-264 | if all Pads stand before End: End is found if and only if its offset is at most 255 and their number is even or more than 255 bytes remain from End on |
| `Option82.TerminatesExactly` | dba/dhcp_broadcast_agent.c:242-264 | over any bytes the loop comes to a stop if and only if it does so within 257 turns |
| `Option82.OptionIsFoundExactly` | dba/dhcp_broadcast_agent.c:228-267 | for any other code, over a Pad-free area whose End fits a byte: the first option of that code, and none if and only if there is none |
| `Option82.RewriteIsRightExactly` | dba/dhcp_broadcast_agent.c:164-175 | rewriting at an End code gives the original options, option 82 with the given data and End if and only if that code was the End option |
| `Option82.InsertionNeedsEnd` | dba/dhcp_broadcast_agent.c:161-175 | over every area that parses, with Pads or without, walk and rewrite together insert correctly if and only if the walk finds the End option |
| `Option82.InsertionIsRightExactly` | dba/dhcp_broadcast_agent.c:161-175 | walk and rewrite together insert correctly into a Pad-free area if and only if End was at offset at most 255; the new End is inside the grown area |
| `Option82Packet.Packet.Enlarge` | dba/dhcp_broadcast_agent.c:211-225 | grows the buffer or refuses exactly past 65535 or without memory, and keeps the bytes |
| `Option82Packet.Packet.GetOption` | dba/dhcp_broadcast_agent.c:229-267 | the loop returns what the walk returns, whenever the walk ends |
| `Option82Packet.Packet.Write` | dba/dhcp_broadcast_agent.c:164-175 | the byte writes produce the rewritten area and touch nothing before it |
| `Option82Packet.Packet.Handle` | dba/dhcp_broadcast_agent.c:94-208 | the exact conditions of refusal; refused packets keep their options and lengths; otherwise the area is rewritten, parses to the old options and option 82 exactly if the End option was found (without Pads: if it was at offset at most 255), and the IP and UDP lengths grow by len + 2 without passing 65535 |
| `Decimal.StrToUlOfPrint` | hmd/HmdDbusHandler.c:28-65 | reading back a printed field gives the same 32-bit value, also when it printed as negative |
| `Decimal.FieldGrowth` | hmd/HmdDbusHandler.c:28-65 | a field of any text prints at most one character longer, and no longer if it is not empty and below 2^31 |
| `Decimal.FieldGrowsExactly` | hmd/HmdDbusHandler.c:28-65 | it prints one character longer if and only if it is empty, or is unsigned digits with a value of 2^31 or more whose negative has as many digits |
| `VeName.PrintedNameParses` | hmd/HmdDbusHandler.c:98-171 | for every parsed or constructed value of either style, what the printed name parses to: an old name becomes cpu f port 1, a zero vlan of a new name drops both vlans, a slot of 2^31 or more is refused |
| `VeName.RoundTripExactly` | hmd/HmdDbusHandler.c:22-73 | printing then parsing a new-style value returns it if and only if the slot is below 2^31 and a zero vlan has no second vlan |
| `VeName.IdempotentExactly` | hmd/HmdDbusHandler.c:98-171 | normalising twice equals normalising once if and only if the slot is below 2^31 and an old name's vlan is not zero |
| `VeName.CheckIdempotentExactly` | hmd/HmdDbusHandler.c:75-188 | the same for check_ve_interface as a whole, whichever interfaces exist |
| `VeGrammar.GrammarIsAccepted` | hmd/HmdDbusHandler.c:22-73 | every name of the grammar (digits, then a dot and vlans, or f or s, a port and perhaps vlans; fields with spaces and a sign, or empty; a tail after a newline) is accepted with its fields |
| `VeGrammar.AcceptedIsGrammar` | hmd/HmdDbusHandler.c:22-73 | every accepted name is one of the grammar, with its fields |
| `VeGrammar.AcceptedExactly` | hmd/HmdDbusHandler.c:22-73 | so exactly the names of the grammar are accepted |
| `VeGrammar.CheckDecides` | hmd/HmdDbusHandler.c:75-188 | what comes back for every name: itself if it is not a ve name or an old name that exists, else its standard name if that exists, else a refusal |
| `VeName.NameFitsExactly` | hmd/HmdDbus.c:2094-2096 | for every accepted text the new name is at most 5 characters longer, and fits the caller's buffer (at most 4 longer) if and only if it is not an old name with a non-zero second vlan and no trailing text all of whose three fields grow |
| `VeName.LowNameFits` | hmd/HmdDbus.c:2094-2096 | so it fits whenever every field is below 2^31 |
| `VeName.PlainOldFitsExactly` | hmd/HmdDbus.c:2094-2096 | for old names in plain numerals: it fails exactly if the slot is one digit or wide and both vlans are wide (2^31 to 2^32 - 10^9) |
| `VeName.EmptyVlanFitsExactly` | hmd/HmdDbus.c:2094-2096 | with an empty first vlan one wide field is enough, as in ve0..3000000000 |

## Left out

- D-Bus marshalling, `show_running` text, TIPC and netlink transport, `system()`, pid files, ARP and ioctl calls: plumbing without an invariant of its own; their outcomes are parameters (`known`, `granted`, `memory`, `permitted`, `linked`, probe answers) or dropped.
- Threads and signals: each mutex section of the timer library is one atomic step; condition variables, cancellation and the SIGALRM delivery itself are not modelled. `timer_free` and the ownership of handler arguments are left out.
- Memory return: `free`, `mem_blk_destroy` and the wipe of the MD5 context at the end of `MD5Final` are not modelled beyond dropping the object from the state. `sizeof(struct mem_blk)` and `sizeof(struct mem_item)` are parameters; malloc is any function that returns separate allocations or NULL.
- `byteReverse` and endianness: words are decoded from bytes directly. UDP and IP checksum values are left out; length fields are numbers.
- TimerQueue.EveryRunIsSafe: timer ids are unbounded integers; the wrap of the C int after 2^31 additions is not modelled.
- TimerQueue.AddKeepsWellFormed: seconds are unbounded integers.
- TimerArrayRuns.EveryRunIsFaithful: one clock reading per operation, callbacks that do not call back into the timers, and a 32-bit clock that does not wrap during the run; the 32-bit arithmetic itself is modelled with its wrap.
- LicenseRuns.EveryRunConserves: type, slot and instance numbers that the source uses as indices without a check are taken in range; counts are unbounded integers.
- LicenseRuns.EveryActiveRunIsSolvent: states nothing for a master that is not active, whose second synchronisation branch may leave a negative free count.
- LicenseRuns.ReplicaAgrees: covers assignments only; the messages sent on board removal are not part of the replica run.
- Election.EveryRunElects: delete-hansi, the manual set-state command and board removal are not steps: delete does not promote a backup and set-state writes any value.
- Election.HostAndRemoteAgree: leaves out `isActive1`, the neighbour's copy of the role, which only the remote branch writes.
- Groups.EveryRunIsDisjoint: group numbers 1 to 32 and non-zero slot and instance numbers; what happens outside is stated by `Groups.AddKeepsInvExactly` and `Groups.AddThenDeleteExactly`. The copy of the group number in the board's instance record is left out.
- Watchdog.PatienceIsBounded: for an existing instance; the branch for a missing one, which always reloads, and the eag and pppoe watchdogs of the same file are left out.
- Option82Packet.Packet.GetOption: requires that the loop comes to a stop, since the source does not return otherwise and has no result to state; `Option82.TerminatesExactly` says when it does.
- Option82Packet.Packet.Handle: requires the same of the search for End. The IP and UDP datagrams are taken to lie inside the buffer.
- VeName.CheckIdempotentExactly: the failure of the socket call is left out, and the kernel's interface lookup is an arbitrary predicate on names.
- igmp-snooping/mld_snoop_hw.c: a copy of the list with an IPv6 key; the group type of `L2mcKeys` and `L2mcList` is a parameter instead. `L2mc_Entry_Delete`, `L2mc_Entry_Update` and the port lookups are left out.
- pppoe/notifier_chain.c, pppoe/pppoe_buf.h, pppoe_chap.c, pppoe_ccp.c, dba/pppoe_snooping.c and the femto functions of hmd/HmdDbusHandler.c: short linear code that would only add easy members.
