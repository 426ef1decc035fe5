# A verified model of DRBD's replication core

DRBD mirrors a block device between two nodes.  This project models the parts of the 8.4.4
kernel module on which the mirrored data depends, and proves what they promise about whole runs:

| files | what they model |
|---|---|
| `Lru`, `LruCache`, `LruRuns`, `LruOrder`, `LruEffects` | the LRU cache with pending changes: as a value searched by a linear scan, and as the object with hash chains and counters that refines it |
| `AlRing`, `AlReplay`, `AlWrap`, `AlTransaction`, `ActivityLog`, `AlLoss` | the activity log: the on-disk ring and its replay, what the wrap of the 32-bit transaction counter does to it, the block that a transaction writes, crash safety of the running system, and the runs that are not safe |
| `AlBegin`, `ResyncLock`, `ResyncEffects`, `Noblock` | what is built on the cache: starting a write without blocking, the exclusion of application writes and resync, and the counting map of the noblock cache |
| `Bits`, `Vli`, `Bitstream`, `BitmapRle`, `BitmapXfer` | the bitmap exchange: variable length integers, a bit stream, run-length packets, plain packets, and the two sides in lockstep |
| `TransferLog`, `BarrierSender`, `Epochs`, `EpochOrder`, `EpochSpoiled`, `EpochExamples`, `WriteOrder`, `BarrierProtocol` | write epochs and barrier acks, on both nodes |
| `Generations`, `Handshake`, `Survivors` | data generation UUIDs, the handshake that decides who syncs from whom, and whose data survive it |
| `StateEngine`, `StateChecks`, `Promotion` | the device state engine and the two-node promotion protocol |
| `Intervals`, `IntervalNodes` | the interval tree, as a value and as linked nodes updated in place |
| `Rounding` | the bitmap as an over-approximation of the sectors that differ |
| `Arith`, `Wrappers` | helpers |

The primary's side of the barrier model follows `drbd_worker.c` (lines 1601-1730 and 2122-2199) and
`start_new_tl_epoch` of `drbd_req.c`; the words of a plain bitmap packet follow `drbd_bm_get_lel`
and `drbd_bm_merge_lel` of `drbd_bitmap.c` (lines 863-946).

Every section under one of the driver's locks (`al_lock`, `req_lock`, `epoch_lock`) is one atomic
step.  A bitmap is a sequence or a set of bits, and merging is a bitwise OR.  Words are unbounded
numbers, with truncation to 8, 32 or 64 bits written out where the source relies on it.

`dafny verify dfyconfig.toml` checks everything.

## Findings

Where a promise does not hold as it stands, the model keeps the code and proves exactly when it does.

- The place of a transaction in the activity log ring is the 32-bit counter modulo the ring size.
  Consecutive transactions keep distinct places for every counter value if and only if the ring
  size divides 2^32 (`AlRing.RingPositions`).  With any other ring size the first transactions after
  a wrap overwrite blocks that the replay still needs.  With `rest` the remainder of 2^32 by the
  ring size, `since` the number of transactions since the last wrap and `rounds` the number of
  transactions that write every slot once as context, the log is safe after a wrap if and only if
  `rest` is 0, or `since >= rounds`, or `since` is 0 and either no write has begun or
  `rest > rounds` (`AlWrap.Replayable`).  Then, and only then, the replay of every history of that
  length gives the table of the last complete transaction (`AlLoss.RebuildsExactly`), and every state
  that the running system can be in survives a crash (`AlLoss.SafeExactly`); otherwise there is a run
  that loses a bit of an extent open for writing (`AlLoss.Lost`).
- When `receive_Barrier` cannot allocate the next epoch it goes on with the old one, and two things
  can go wrong.  If that epoch has not been recycled when the receiver goes on, the next write
  joins an epoch that already has its barrier.  Either the ack of this epoch is still to come, and
  counts one write too many; or it is on its way, and the write is left over in the recycled epoch,
  whose next ack counts one write too few.  In every state reached in order, going on is
  right if and only if the epoch has been recycled by then (`EpochSpoiled.GoesOnExact`, with
  `EpochSpoiled.OneTooMany` and `EpochSpoiled.OneTooFew`; a run from the start is
  `EpochExamples.WrongSize`).  If it was
  recycled before `DE_BARRIER_IN_NEXT_EPOCH_ISSUED` is tested, the bit is clear again, and the flush
  that follows marks the barrier of the empty epoch as done: in flush mode its next ack then goes
  out without a flush after the writes it is for, and the order of flushes and acks is kept if and
  only if the epoch had not been recycled or the mode is not flush (`EpochOrder.AllocFailureExact`;
  from every such state a run goes wrong by `EpochExamples.FlushMissing`, and one from the start by
  `EpochExamples.MissingFlush`).
- `sanitize_state` takes the bounds of the disk states before it resumes a paused resync.  A state
  sanitised once is out of bounds exactly for requests with a paused resync and no pause bit,
  neither disk Failed or worse, and the disk being synced better than Inconsistent
  (`StateEngine.SanitizeBounds`).  Such a request
  is made when the wait for another device ends, after the peer of a paused source has reported
  an Outdated disk: the run is `StateEngine.ResumesTooGoodHappens`.  Sanitising twice repairs it
  (`StateEngine.SanitizeTwice`).
- The handshake needs consistent generations and the same always-asbp setting on both nodes.
  Without consistent generations, and unless the disks decide, neither becomes source and both may
  become target
  (`Handshake.InconsistentGenerations`).
  With always-asbp on one node only, both verdicts name a source, or both a target, exactly in the
  ambiguous cases that the policy of this node and discard-my-data decide in opposite ways
  (`Handshake.AlwaysAsbpExact`, an example in `Handshake.AlwaysAsbpMustAgree`).
- A run-length packet of the bitmap exchange that ends in a run of clear bits behind the bitmap is
  accepted and leaves the receiver's word offset behind the last word, from where a plain packet
  would go on.  The receiver leaves its range with no other packet (`BitmapXfer.OffsetsKept`); no
  packet of the modelled sender does this (`BitmapXfer.Lockstep`).
- `drbd_al_begin_io_nonblock` says that its gets have to succeed once the check for room passed.
  They do if and only if no transaction holds the cache or every extent is hot already
  (`AlBegin.AllSucceed`).
- On a device smaller than one bitmap block, marking the whole device in sync clears nothing
  (`Rounding.ClearExact`).

## Model

| member | source | states |
|---|---|---|
| LruObject.LruCache.FindIn | drbd-8.4.4/drbd/lru_cache.c:257-275 | walking one collision chain finds exactly what a linear scan of all elements finds |
| LruObject.LruCache.IsUsed | drbd-8.4.4/drbd/lru_cache.c:303-307 | an extent counts as used when it is referenced now or will be after the commit |
| LruObject.LruCache.Get | drbd-8.4.4/drbd/lru_cache.c:369-446 | every branch of a get does to lists, chains, counters and flags what the linear-scan cache does, and keeps the representation valid |
| LruObject.LruCache.PrepareForChange | drbd-8.4.4/drbd/lru_cache.c:329-351 | the victim leaves its list, is rehashed under its new label and waits for the commit |
| LruObject.LruCache.Put | drbd-8.4.4/drbd/lru_cache.c:567-580 | gives a reference back; the last one moves the element to the front of the lru list and ends starvation |
| LruObject.LruCache.Del | drbd-8.4.4/drbd/lru_cache.c:317-327 | an unreferenced element loses its label, its chain and its list |
| LruObject.LruCache.Committed | drbd-8.4.4/drbd/lru_cache.c:542-555 | all waiting elements take their new labels and are in use |
| LruObject.LruCache.Reset | drbd-8.4.4/drbd/lru_cache.c:200-229 | from any state to a new cache |
| LruObject.LruCache.constructor | drbd-8.4.4/drbd/lru_cache.c:94-165 | a new cache is valid and tracks nothing |
| LruObject.LruCache.TryLockForTransaction | drbd-8.4.4/drbd/linux/lru_cache.h:316-319 | takes the transaction lock once |
| LruObject.LruCache.Unlock | drbd-8.4.4/drbd/linux/lru_cache.h:336-340 | ends the transaction and clears the dirty flag |
| Lru.GetValid | drbd-8.4.4/drbd/lru_cache.c:369-446 | a get keeps each element on the one list that matches its labels and count, labels unique before and after commit, and the pending limit |
| Lru.PutValid | drbd-8.4.4/drbd/lru_cache.c:567-580 | so does a put |
| Lru.CommitValid | drbd-8.4.4/drbd/lru_cache.c:542-555 | so does the commit |
| Lru.DelValid | drbd-8.4.4/drbd/lru_cache.c:317-327 | so does a delete |
| LruRuns.RunValid | drbd-8.4.4/drbd/lru_cache.c:257-580 | every sequence of operations on a new cache keeps all of it |
| LruRuns.CountersExact | drbd-8.4.4/drbd/lru_cache.c:386-446 | used is the number of referenced elements, pending_changes the number of uncommitted ones and within its limit |
| LruOrder.GetExact | drbd-8.4.4/drbd/lru_cache.c:369-446 | a get hands out an element exactly when the cache is not starving and the label is there, or on its way and that will do, or can be taken in; it takes one reference on it and leaves all others alone |
| LruOrder.LongestUnused | drbd-8.4.4/drbd/lru_cache.c:329-351 | in every run the element that is recycled was free, or none was and it had been unused for longer than any other |
| AlRing.StripeBijection | drbd-8.4.4/drbd/drbd_actlog.c:493-509 | the striped block map is a bijection of the ring |
| AlRing.RingPositions | drbd-8.4.4/drbd/drbd_actlog.c:493-509 | a ring's worth of consecutive transactions lies in distinct blocks for all counter values if and only if the ring size divides 2^32 |
| AlRing.ExtentsFit | drbd-8.4.4/drbd/drbd_nl.c:1325-1351 | the limit on extents lets the context rotate over all slots in one round of readable blocks |
| AlRing.ExtentsTight | drbd-8.4.4/drbd/drbd_nl.c:1325-1351 | and it leaves out no number of extents that would fit |
| AlRing.ReplayExact | drbd-8.4.4/user/drbdmeta.c:1918-1945 | replaying as many of the latest blocks as it takes to write every slot once as context, on whatever table, gives exactly the table that the whole history gives |
| AlReplay.FindRange | drbd-8.4.4/user/drbdmeta.c:1830-1900 | from the readable blocks alone, wrapped counters included, the scan finds the places of the oldest and of the newest transaction in the ring |
| AlReplay.Replay | drbd-8.4.4/user/drbdmeta.c:1830-1947 | the replay of a ring after any number of transactions, with the block in flight torn or not, is the walk from the oldest to the newest readable transaction, in terms of the history |
| AlReplay.LatestRecent | drbd-8.4.4/drbd/drbd_actlog.c:493-509 | the block at any place is at most two rounds old, wraps included, so that signed differences of transaction numbers order them |
| AlWrap.ReplayableGood | drbd-8.4.4/user/drbdmeta.c:1830-1947 | in a replayable log the replay returns the slot-to-extent table after the last complete transaction |
| AlWrap.SomeMissed | drbd-8.4.4/drbd/drbd_actlog.c:493-509 | in any other log there are a transaction and a slot of which no block that the replay visits tells |
| AlWrap.ReplayMisses | drbd-8.4.4/user/drbdmeta.c:1913-1945 | a label that only such a transaction gives does not come up in the replayed table |
| AlLoss.RebuildsExactly | drbd-8.4.4/user/drbdmeta.c:1830-1947 | the replay of every history of a given length is the table of its last transaction if and only if the log is replayable |
| AlLoss.SafeExactly | drbd-8.4.4/drbd/drbd_actlog.c:342-614 | crash safety, both ways: with a given number of transactions, torn write or not, every reachable state has all extents with a bit at risk in the replayed table if and only if the log is replayable |
| AlLoss.Lost | drbd-8.4.4/drbd/drbd_actlog.c:493-614 | otherwise a run from a new device reaches a state whose replay lacks an extent that is open for writing and has a bit at risk |
| AlLoss.LostForExample | drbd-8.4.4/drbd/drbd_actlog.c:493-614 | so it is with 72 blocks and 1237 extents after 2^32 + 1 transactions |
| AlTransaction.CopyChanges | drbd-8.4.4/drbd/drbd_actlog.c:548-568 | the block holds all pending changes in list order and all pages of dropped extents are marked; there are never more changes than fit |
| AlTransaction.Assemble | drbd-8.4.4/drbd/drbd_actlog.c:544-593 | the assembled block, its pages and the next context window are those the crash safety argument is about |
| ActivityLog.NextKeepsInv | drbd-8.4.4/drbd/drbd_actlog.c:342-379 | every step keeps: a bit at risk lies in an active extent, an extent is clean on disk before the transaction that drops it is, and the ring on disk holds the history, whose table has the labels in memory; the wrap of the counter included |
| ActivityLog.SetBitsKeeps | drbd-8.4.4/drbd/drbd_actlog.c:1000-1049 | setting bits in referenced extents never exposes an extent that a transaction is about to drop |
| ActivityLog.FlushKeeps | drbd-8.4.4/drbd/drbd_actlog.c:475-482 | writing a bitmap page keeps it |
| ActivityLog.BuildKeeps | drbd-8.4.4/drbd/drbd_actlog.c:544-593 | so does assembling the transaction |
| ActivityLog.FinishWriteKeeps | drbd-8.4.4/drbd/drbd_actlog.c:595-614 | so does the end of the block write |
| ActivityLog.CommitKeeps | drbd-8.4.4/drbd/drbd_actlog.c:342-379 | so does the commit in memory |
| ActivityLog.TableProtects | drbd-8.4.4/drbd/drbd_actlog.c:342-614 | the table of the last complete transaction has every extent with a bit that is not on disk and every extent open for writes |
| ActivityLog.Recover | drbd-8.4.4/drbd/drbd_actlog.c:342-614 | crash safety: wherever a run is cut off with a replayable log, the replayed table has every extent with a bit that is not on disk and every extent open for writes, and the BUG_ON on the number of updates cannot fire |
| ActivityLog.RiskHappens | drbd-8.4.4/drbd/drbd_actlog.c:304-379 | for every extent there is a run whose crash would lose a bit without the log, so the crash safety result is not empty |
| AlBegin.AllSucceed | drbd-8.4.4/drbd/drbd_actlog.c:405-437 | after the check for room all gets succeed, for any number of extents, if and only if the cache is not locked or all extents are hot |
| AlBegin.SomeFail | drbd-8.4.4/drbd/drbd_actlog.c:405-409 | with fewer slots than cold extents some get fails, so the check for room is not stricter than it has to be |
| AlBegin.AllTaken | drbd-8.4.4/drbd/drbd_actlog.c:426-437 | then every extent is referenced |
| AlBegin.StarvingFull | drbd-8.4.4/drbd/lru_cache.c:423-433 | a starving cache has every element referenced, so the check for room fails |
| AlBegin.CheckOut | drbd-8.4.4/drbd/drbd_actlog.c:426-437 | the loop on the object reports a logic bug exactly when AllSucceed says so |
| ResyncLock.AlGetSafe | drbd-8.4.4/drbd/drbd_actlog.c:250-285 | a write that takes an extent keeps the exclusion |
| ResyncLock.AlNonblockSafe | drbd-8.4.4/drbd/drbd_actlog.c:392-439 | so does a write that takes several at once |
| ResyncLock.TryBeginSafe | drbd-8.4.4/drbd/drbd_actlog.c:1162-1260 | so does the target's attempt to lock, whether it locks, waits or forgets an earlier attempt |
| ResyncLock.DropSafe | drbd-8.4.4/drbd/drbd_actlog.c:1171-1202 | the remembered extent is always found, not locked, and its assertions hold |
| ResyncLock.BmeGetSafe | drbd-8.4.4/drbd/drbd_actlog.c:1052-1090 | so does the source's claim on an extent |
| ResyncLock.WaitStepSafe | drbd-8.4.4/drbd/drbd_actlog.c:1110-1151 | what the source saw idle stays idle until it locks |
| ResyncLock.GiveUpSafe | drbd-8.4.4/drbd/drbd_actlog.c:1131-1146 | so does stepping aside |
| ResyncLock.CompleteSafe | drbd-8.4.4/drbd/drbd_actlog.c:1262-1303 | so does the end of a resync request |
| ResyncLock.NoteClearedSafe | drbd-8.4.4/drbd/drbd_actlog.c:754-841 | recycling an element for statistics never takes a referenced one |
| ResyncLock.CancelAllSafe | drbd-8.4.4/drbd/drbd_actlog.c:1309-1321 | so does the reset |
| ResyncLock.Exclusion | drbd-8.4.4/drbd/drbd_actlog.c:250-285 | in every reachable state a locked resync extent has no-writes set, is referenced once per outstanding request, is on no list it could be recycled from, and none of its activity log extents is used or about to be |
| ResyncLock.LockHappens | drbd-8.4.4/drbd/drbd_actlog.c:1213-1248 | on an idle device the first attempt locks, so the exclusion result is not empty |
| ResyncEffects.AlGetExact | drbd-8.4.4/drbd/drbd_actlog.c:264-285 | without resync in the way the blocking get takes a hot extent, or a cold one if a change is possible; the nonblocking one takes hot extents only and changes no label; no other extent's use changes |
| ResyncEffects.AlGetBlocked | drbd-8.4.4/drbd/drbd_actlog.c:250-278 | with resync in the way the log stays as it is and the resync extent gets the priority flag |
| ResyncEffects.AlNonblockExact | drbd-8.4.4/drbd/drbd_actlog.c:392-439 | without room nothing happens, with resync in the way it is asked to step aside, else all extents are taken and no others |
| ResyncEffects.FirstActiveIs | drbd-8.4.4/drbd/drbd_actlog.c:413-424 | that one is the first of the range that keeps writes away |
| ResyncEffects.TryBeginExact | drbd-8.4.4/drbd/drbd_actlog.c:1204-1260 | an attempt gets the lock exactly when the extent is locked already, or no write holds a part of it and it is known or there is room for it; otherwise it is claimed for the next attempt, or nothing changes |
| ResyncEffects.DropExact | drbd-8.4.4/drbd/drbd_actlog.c:1171-1202 | the extent of an earlier attempt is let go |
| ResyncEffects.BmeGetExact | drbd-8.4.4/drbd/drbd_actlog.c:1052-1125 | the source gets a further begin on a locked extent, or a claim, as long as at most half of the elements are in use |
| ResyncEffects.WaitLocks | drbd-8.4.4/drbd/drbd_actlog.c:1126-1151 | with none of the extents in use the source has the lock after looking at each of them once |
| ResyncEffects.WaitsForWrites | drbd-8.4.4/drbd/drbd_actlog.c:1126-1151 | and it does not get past an extent in use |
| ResyncEffects.CompleteExact | drbd-8.4.4/drbd/drbd_actlog.c:1262-1303 | the last complete unlocks the extent, an earlier one only counts down |
| ResyncEffects.GiveUpExact | drbd-8.4.4/drbd/drbd_actlog.c:1131-1146 | stepping aside gives the claim up |
| ResyncEffects.CancelExact | drbd-8.4.4/drbd/drbd_actlog.c:1309-1321 | after a cancel nothing is locked, claimed or waited for |
| ResyncEffects.NoteClearedExact | drbd-8.4.4/drbd/drbd_actlog.c:754-841 | the extent is known then, and no lock, claim or count has changed |
| Noblock.FreshTracks | drbd-8.4.4/drbd/lru_cache.c:94-165 | a new cache stands for the empty counting map |
| Noblock.BeginRefines | drbd-8.4.4/drbd/drbd_actlog.c:1443-1474 | one begin on the cache is one begin on a bounded counting map, in spite of stale hash entries |
| Noblock.EndRefines | drbd-8.4.4/drbd/drbd_actlog.c:1476-1512 | one complete, plain or cleaning, is one on the map |
| Noblock.BeginIo | drbd-8.4.4/drbd/drbd_actlog.c:1443-1474 | the whole begin on the object refines the begin on the map |
| Noblock.EndIo | drbd-8.4.4/drbd/drbd_actlog.c:1476-1512 | and so does the whole complete |
| Noblock.BeginSucceeds | drbd-8.4.4/drbd/drbd_actlog.c:1458-1471 | a begin succeeds if and only if no earlier failure blocks the cache and the new extents fit |
| Noblock.BeginAdds | drbd-8.4.4/drbd/drbd_actlog.c:1458-1471 | it then adds one request to every covered extent and to no other |
| Noblock.EndExact | drbd-8.4.4/drbd/drbd_actlog.c:1485-1510 | a complete takes one, or all, off every covered extent, and is true exactly when every one was present |
| Vli.LevelsDecisive | drbd-8.4.4/drbd/drbd_vli.h:129-140 | every word starts with the prefix of exactly one level of the table |
| Vli.DecodeEncode | drbd-8.4.4/drbd/drbd_vli.h:146-190 | decoding inverts encoding for every value in range, whatever bits follow the code word |
| Vli.EncodeDecode | drbd-8.4.4/drbd/drbd_vli.h:146-190 | every word decodes, and encoding the value again gives back the bits consumed |
| Vli.PrefixFree | drbd-8.4.4/drbd/drbd_vli.h:129-190 | no code word is the beginning of another |
| Vli.Encodable | drbd-8.4.4/drbd/drbd_vli.h:168-190 | exactly the values from 1 up to the limit of the table have a code word |
| Vli.LevelValues | drbd-8.4.4/drbd/drbd_vli.h:90-104 | the largest value of each level is the one in the table of the documentation |
| Vli.CodeLengths | drbd-8.4.4/drbd/drbd_vli.h:90-104 | a run of one takes two bits, the longest possible one 64 |
| Bitstream.BitStream.Put | drbd-8.4.4/drbd/drbd_vli.h:260-282 | a put adds its bits at the cursor and nothing else, or changes nothing and says there is no room; padding does not count |
| Bitstream.BitStream.Get | drbd-8.4.4/drbd/drbd_vli.h:293-330 | a get returns the next bits of the stream, as many as there are before the padding; zero bits at a byte boundary without padding mean all that are left |
| Bitstream.PutAll | drbd-8.4.4/drbd/drbd_vli.h:260-282 | after any sequence of puts the buffer holds the fields as one bit string, up to the first that did not fit |
| Bitstream.GetAll | drbd-8.4.4/drbd/drbd_vli.h:293-330 | any split into gets of 1 to 64 bits reads back the same bit string and stops at the padding |
| BitmapRle.EncodingArrives | drbd-8.4.4/drbd/drbd_main.c:1095-1110 | start, pad bits and code arrive whatever was in the byte before, in the order the sender sets them |
| BitmapRle.PadWipesCode | drbd-8.4.4/drbd/drbd_main.c:1095-1110 | setting the pad bits clears the code, so no order that sets the code before them works; start and code leave the other fields alone |
| BitmapRle.FillLoop | drbd-8.4.4/drbd/drbd_main.c:1142-1186 | the buffer holds the code words of runs that expand to the bits passed over, and no further run fits; an empty run is met only before the first one |
| BitmapRle.Fill | drbd-8.4.4/drbd/drbd_main.c:1112-1207 | a packet with code describes the bits it skips, as many as fit, and is no longer than they are; without code the word offset is where it was, and the longest description that fits would not have paid |
| BitmapRle.ReceiveRle | drbd-8.4.4/drbd/drbd_receiver.c:4587-4647 | the look-ahead loop does with any code string, malformed ones included, what decoding it word by word does |
| BitmapRle.ReceiveCodes | drbd-8.4.4/drbd/drbd_receiver.c:4587-4647 | a string of code words sets exactly the bits of the runs it stands for |
| BitmapXfer.PlainMerges | drbd-8.4.4/drbd/drbd_receiver.c:4535-4563 | plain words, the last partial one included, add the sender's bits and no others |
| BitmapXfer.Send | drbd-8.4.4/drbd/drbd_main.c:1216-1269 | every packet is good for a receiver at the same offsets, and the offsets stay aligned |
| BitmapXfer.ReceivePlain | drbd-8.4.4/drbd/drbd_receiver.c:4535-4563 | a plain packet of the wrong size is refused, one of size zero ends the exchange, from any offsets |
| BitmapXfer.ReceiveOne | drbd-8.4.4/drbd/drbd_receiver.c:4733-4777 | one round of the receiving loop, with its size and encoding checks |
| BitmapXfer.OffsetsKept | drbd-8.4.4/drbd/drbd_receiver.c:4587-4647 | the word offset stays within the bitmap with every packet but one that is decoded to its end and whose runs, the last of them clear, go on for more than a word behind it |
| BitmapXfer.Lockstep | drbd-8.4.4/drbd/drbd_main.c:1216-1307 | after every packet both sides have the same offsets and the same idea of whether it was the last, and each packet moves past the previous end |
| BitmapXfer.Exchange | drbd-8.4.4/drbd/drbd_main.c:1272-1307 | for any code table that is decisive and any choice of packet kind the exchange ends and merges the bitmaps |
| BitmapXfer.ExchangeBitmaps | drbd-8.4.4/drbd/drbd_receiver.c:4717-4777 | the receiver ends with its old bitmap OR the sender's |
| TransferLog.TlRelease | drbd-8.4.4/drbd/drbd_main.c:231-303 | an ack is accepted exactly when it names the oldest epoch that waits for one, with its exact number of writes, and takes that epoch off the list |
| BarrierSender.ReleaseOk | drbd-8.4.4/drbd/drbd_main.c:231-303 | the oldest closed epoch on the wire is the one tl_release expects |
| BarrierSender.SendNextExact | drbd-8.4.4/drbd/drbd_int.h:762-774 | every request is sent in its turn, behind a barrier exactly when it is in another epoch than the open one and that has writes |
| BarrierSender.IdleClosesAll | drbd-8.4.4/drbd/drbd_int.h:762-774 | with nothing left to send the wire has told the peer of every epoch in the log |
| Epochs.NextKeeps | drbd-8.4.4/drbd/drbd_receiver.c:1260-1372 | in every interleaving, failing allocations included unless GoesOnExact rules them out, the ring holds consecutive epochs with the right barrier and size, only the oldest is finished, by one thread, and nobody adds writes to it |
| Epochs.BarrierKeeps | drbd-8.4.4/drbd/drbd_receiver.c:1707-1783 | a barrier closes the current epoch |
| Epochs.RelockKeeps | drbd-8.4.4/drbd/drbd_receiver.c:1320-1352 | after the ack the epoch is recycled or removed, whatever happened while the lock was dropped |
| Epochs.PutKeeps | drbd-8.4.4/drbd/drbd_receiver.c:2132-2179 | the asender's put finishes at most the oldest epoch |
| EpochSpoiled.StaysGood | drbd-8.4.4/drbd/drbd_receiver.c:1260-1372 | every run of orderly steps keeps, besides the order of the ring, that nobody overlooks an oldest epoch that may finish and that an epoch the receiver has passed is done with its barrier |
| EpochSpoiled.GoesOnExact | drbd-8.4.4/drbd/drbd_receiver.c:1753-1767 | in every state reached in order in which the receiver waits without a new epoch: after it goes on, the acks of all further runs are those the primary expects if and only if the old epoch was recycled by then |
| EpochSpoiled.OneTooMany | drbd-8.4.4/drbd/drbd_receiver.c:1753-1767 | from every such state with an old epoch that is not being finished, a run leads to its ack with one write too many, whatever older epochs are in the ring |
| EpochSpoiled.OneTooFew | drbd-8.4.4/drbd/drbd_receiver.c:1753-1767 | from every such state with an old epoch whose ack is on its way, a run leads to the next ack with one write too few |
| EpochExamples.WrongSize | drbd-8.4.4/drbd/drbd_receiver.c:1753-1767 | a run from the start whose ack counts two writes where the primary sent one |
| EpochOrder.NextKeepsLog | drbd-8.4.4/drbd/drbd_receiver.c:1199-1235 | every step, but for a failing allocation that AllocFailureExact rules out, keeps the order of completions, flushes and acks |
| EpochOrder.AckDue | drbd-8.4.4/drbd/drbd_receiver.c:1298-1321 | an epoch that is being finished has all its writes completed, and in flush mode a flush was issued after the last of them |
| EpochOrder.AllocFailureExact | drbd-8.4.4/drbd/drbd_receiver.c:1753-1762 | a failing allocation keeps that order if and only if the current epoch was not recycled before the test for an issued flush, or the mode is not flush |
| EpochExamples.FlushMissing | drbd-8.4.4/drbd/drbd_receiver.c:1753-1762 | from every state in which it was, a run goes on to an ack with no flush after the writes it is for |
| EpochExamples.MissingFlush | drbd-8.4.4/drbd/drbd_receiver.c:1753-1762 | such a run from the start |
| WriteOrder.WritesInOrder | drbd-8.4.4/drbd/drbd_receiver.c:1732-1752 | in every orderly run in drain or flush mode, when a write completes all writes in front of the barriers before it have; only the current epoch has writes with the disk |
| WriteOrder.NextFlushing | drbd-8.4.4/drbd/drbd_receiver.c:1199-1235 | in flush mode they are flushed as well by then |
| WriteOrder.AlwaysAsConfigured | drbd-8.4.4/drbd/drbd_receiver.c:1732-1752 | without ordering a barrier waits for nothing, and only flush mode flushes |
| BarrierProtocol.BarrierAcks | drbd-8.4.4/drbd/drbd_receiver.c:1260-1372 | over both nodes and all interleavings, without the failing allocations that the two conditions above rule out: acks are a prefix of the barriers received, in order, once each, with the writes of the epoch; tl_release never bails out; no ack goes out before the disk is done; in the ordered modes no write reaches the disk before those of older epochs have, and with flushes not before these are flushed |
| Generations.CompareMirrors | drbd-8.4.4/drbd/drbd_receiver.c:3160-3340 | on mirrored inputs the results are negatives up to 2 and equal beyond, if and only if the generations are consistent or both stop at rule 51; then each node's UUIDs equal the peer's corrected copy |
| Generations.OneDiverged | drbd-8.4.4/drbd/drbd_main.c:3571-3591 | a node that starts a new generation alone becomes source of a bitmap based resync |
| Generations.BothDiverged | drbd-8.4.4/drbd/drbd_receiver.c:3318-3324 | nodes that both do so find a split brain |
| Generations.MissedResyncFinished | drbd-8.4.4/drbd/drbd_receiver.c:3188-3236 | rules 34 and 35 do what the missed end of resync would have done, on both nodes |
| Generations.LostSyncUuidPacket | drbd-8.4.4/drbd/drbd_main.c:927-951 | when the sync UUID packet is lost, rules 51 and 71 take back the start of the resync on both nodes and the roles stay |
| Handshake.Recover0Mirrors | drbd-8.4.4/drbd/drbd_receiver.c:2946-3022 | with matching policies the two nodes' automatic recovery points in opposite directions or fails on both |
| Handshake.VerdictsMirror | drbd-8.4.4/drbd/drbd_receiver.c:3342-3440 | the verdicts of the two nodes fit, in direction and kind of resync |
| Handshake.NeverBoth | drbd-8.4.4/drbd/drbd_receiver.c:3342-3505 | the nodes never both become source or both target |
| Handshake.InconsistentGenerations | drbd-8.4.4/drbd/drbd_receiver.c:3250-3275 | nodes that remember each other's generation, or have none, both get the verdict to become target unless their disks decide, or below protocol version 91 stop with -1091; so each becomes target or refuses |
| Handshake.AlwaysAsbpMustAgree | drbd-8.4.4/drbd/drbd_receiver.c:3397-3437 | with always-asbp on one node only both can become source |
| Handshake.AlwaysAsbpExact | drbd-8.4.4/drbd/drbd_receiver.c:3397-3437 | both verdicts name a source exactly when generations and disks leave it open, the policy saves this node's data and this node alone was told to discard its data; both name a target exactly in the mirrored case |
| Survivors.CrashedPrimary | drbd-8.4.4/drbd/drbd_receiver.c:3228-3246 | with equal generations the only crashed primary becomes source; of two, the one without RESOLVE_CONFLICTS |
| Survivors.OwnerOfBitmap | drbd-8.4.4/drbd/drbd_receiver.c:3183-3227 | with equal generations a node with a bitmap UUID is source if its peer has none |
| Survivors.FreshNode | drbd-8.4.4/drbd/drbd_receiver.c:3168-3181 | a node without data takes all of its peer's |
| Survivors.TwoFreshNodes | drbd-8.4.4/drbd/drbd_receiver.c:3168-3171 | two of them need nothing |
| Survivors.OneBehind | drbd-8.4.4/drbd/drbd_receiver.c:3248-3288 | a node one generation behind is target of a bitmap based resync |
| Survivors.FarBehind | drbd-8.4.4/drbd/drbd_receiver.c:3276-3321 | a node whose generation is in its peer's history only is target of a full resync |
| Survivors.Strangers | drbd-8.4.4/drbd/drbd_receiver.c:3322-3340 | nodes that do not know each other's generation: split brain, ambiguous or unrelated |
| Survivors.LostSyncUuidBefore96 | drbd-8.4.4/drbd/drbd_receiver.c:3253-3275 | the repair of a lost sync UUID packet with the older protocols |
| Survivors.BetterDisk | drbd-8.4.4/drbd/drbd_receiver.c:3380-3395 | if one disk is inconsistent and the other better, the better one becomes source, whatever generations short of unrelated data and policies say |
| Survivors.DiscardNamed | drbd-8.4.4/drbd/drbd_receiver.c:3012-3019 | the node that discard-local or discard-remote names is discarded |
| Survivors.OlderPrimary | drbd-8.4.4/drbd/drbd_receiver.c:2970-2991 | the node that was primary when the data split survives discard-younger-primary and is given up by discard-older-primary |
| Survivors.MoreChanges | drbd-8.4.4/drbd/drbd_receiver.c:2992-3011 | where changes decide, more of them win; discard-zero-changes decides only if one side has none |
| Survivors.OnePrimary | drbd-8.4.4/drbd/drbd_receiver.c:3027-3079 | consensus and discard-secondary keep the primary's data, the first if the changes agree |
| Survivors.AsWithoutPrimary | drbd-8.4.4/drbd/drbd_receiver.c:3027-3126 | violently-as0p decides as if nobody were primary, the other policies not at all |
| Survivors.ToldToDiscard | drbd-8.4.4/drbd/drbd_receiver.c:3427-3437 | what is left open is decided by discard-my-data on one side only, against that side |
| Survivors.PoliciesSettle | drbd-8.4.4/drbd/drbd_receiver.c:3397-3425 | the verdict on a split brain is that of the policies, by a full resync if the generations were ambiguous |
| Survivors.DecideExact | drbd-8.4.4/drbd/drbd_receiver.c:3443-3505 | exactly when a node follows its verdict: as source with good data, as target if that costs no primary its good data against its settings, and not in a dry run or without a bitmap write that a full resync needs |
| StateEngine.SanitizeBounds | drbd-8.4.4/drbd/drbd_state.c:773-937 | a sanitised state is in the bounds of its connection state if and only if the request does not resume a paused resync of a disk that is too good; it is paused exactly when a pause bit is set |
| StateEngine.SanitizeTwice | drbd-8.4.4/drbd/drbd_state.c:324-397 | a state sanitised twice is always in bounds |
| StateEngine.ResumesTooGoodHappens | drbd-8.4.4/drbd/drbd_state.c:925-934 | a run from the initial state, by requests that the driver makes, that stores the source of a running resync with a peer disk that is Consistent |
| StateEngine.RunBounds | drbd-8.4.4/drbd/drbd_state.c:982-1042 | every stored state of every run, forced changes included, is paused rightly, and is in bounds unless the last change that took effect resumed a paused resync of a disk that is too good |
| StateEngine.ReconnectInOrder | drbd-8.4.4/drbd/drbd_state.c:695-746 | no run leads from a network error to Connected or above without Unconnected and then WFReportParams |
| StateChecks.ValidStateExact | drbd-8.4.4/drbd/drbd_state.c:551-628 | which states are right by themselves: data for a Primary, one Primary unless allowed, disks for a resync, and so on, if and only if is_valid_state accepts them |
| StateChecks.DefectNamed | drbd-8.4.4/drbd/drbd_state.c:551-628 | the error code names a defect that is there |
| StateChecks.SoftTransitionExact | drbd-8.4.4/drbd/drbd_state.c:639-685 | which changes may be asked for, if and only if is_valid_soft_transition accepts them: none lifts a bad disk to Outdated, none leaves Diskless but for Attaching, none starts a resync or verify over another or unconnected |
| StateChecks.TransitionExact | drbd-8.4.4/drbd/drbd_state.c:695-746 | what even forced changes respect |
| StateChecks.StoredExact | drbd-8.4.4/drbd/drbd_state.c:982-1042 | a request is stored as sanitised exactly when it passes these, or its state has the defect the old one had; otherwise nothing changes |
| StateChecks.SoftChanges | drbd-8.4.4/drbd/drbd_state.c:982-1042 | so for every soft change of every run |
| StateChecks.NewPrimary | drbd-8.4.4/drbd/drbd_state.c:551-628 | a node made Primary by a soft change has good data, locally if it is alone, unless it was in the same trouble before |
| StateChecks.OutdateStored | drbd-8.4.4/drbd/drbd_state.c:639-685 | an unconnected Secondary may outdate its good disk |
| StateChecks.OutdateRefused | drbd-8.4.4/drbd/drbd_state.c:639-685 | and not a bad one |
| StateChecks.BoundsMean | drbd-8.4.4/drbd/drbd_state.c:838-905 | the disk states that go with each connection state |
| StateChecks.SettledStays | drbd-8.4.4/drbd/drbd_state.c:773-937 | a state with nothing to correct stays as it is, but for suspended I/O |
| StateChecks.SanitizeSettles | drbd-8.4.4/drbd/drbd_state.c:773-937 | and sanitising leaves nothing to correct, but for the exceptional family, and for what attaching had found when a negotiation is lost |
| StateChecks.NegotiationLost | drbd-8.4.4/drbd/drbd_state.c:811-826 | a lost negotiation takes the disk states that attaching had found, or the disk away |
| StateChecks.SanitizeFrame | drbd-8.4.4/drbd/drbd_state.c:773-937 | the connection is changed only to abort, pause or resume a resync, the role never |
| StateChecks.PeerDisk | drbd-8.4.4/drbd/drbd_state.c:790-796 | without a peer its disk state is kept if it may be, and else unknown |
| StateChecks.BothDisks | drbd-8.4.4/drbd/drbd_state.c:828-905 | with a peer Consistent and Outdated disks are raised, and all brought to the nearest state in bounds |
| StateChecks.IoSuspended | drbd-8.4.4/drbd/drbd_state.c:907-923 | I/O is suspended exactly when a Primary newly loses a peer that is not outdated under stonith, or newly loses its last good disk and was told so |
| Promotion.NextXKeeps | drbd-8.4.4/drbd/drbd_receiver.c:4258-4289 | whoever is Primary, or has consent on the way, is Primary in the eyes of the peer |
| Promotion.NeverBothPrimary | drbd-8.4.4/drbd/drbd_state.c:278-397 | with two-primaries off, promotion requests and replies in any order never make both nodes Primary |
| Promotion.ResolverWins | drbd-8.4.4/drbd/drbd_receiver.c:4274-4278 | once the node with RESOLVE_CONFLICTS has asked, it is waiting without a refusal or Primary, and its peer does not become Primary, whatever crosses |
| Promotion.ReplyExact | drbd-8.4.4/drbd/drbd_receiver.c:4258-4289 | a request is granted exactly if the node asked is not the one with RESOLVE_CONFLICTS waiting itself and its state engine accepts |
| Promotion.AskerPromoted | drbd-8.4.4/drbd/drbd_state.c:348-384 | request, reply and the end of the wait make the asking node Primary, be it the one with RESOLVE_CONFLICTS or, if that one does not ask, the other; and while it waits one of them is possible |
| Promotion.PlainWilling | drbd-8.4.4/drbd/drbd_state.c:551-685 | two plainly connected nodes may ask and do not object |
| Intervals.AlwaysValid | drbd-8.4.4/drbd/drbd_interval.c:22-119 | after any inserts, removes and rotations the tree is in order, has exact subtree ends, and holds exactly the right intervals |
| Intervals.GoLeft | drbd-8.4.4/drbd/drbd_interval.c:145-148 | a subtree end beyond the start decides for the left side |
| Intervals.NotLeft | drbd-8.4.4/drbd/drbd_interval.c:149-157 | otherwise the left side has no overlap, and a node that starts later ends the search |
| IntervalNodes.INode.UpdateEnd | drbd-8.4.4/drbd/drbd_interval.c:22-39 | the node has the exact end of its subtree again |
| IntervalNodes.InsertNode | drbd-8.4.4/drbd/drbd_interval.c:45-72 | links a node in place, or changes nothing when the interval is there |
| IntervalNodes.RemoveNode | drbd-8.4.4/drbd/drbd_interval.c:112-119 | unlinks a node in place |
| IntervalNodes.RotateNodeAt | drbd-8.4.4/drbd/drbd_interval.c:67-71 | a rotation at any path, in place, with the ends updated up to the root, is the rotation of the tree |
| IntervalNodes.Contains | drbd-8.4.4/drbd/drbd_interval.c:85-106 | the walk along the links agrees with membership |
| IntervalNodes.FindOverlap | drbd-8.4.4/drbd/drbd_interval.c:133-160 | the walk along the links returns the first overlapping interval in order, or null exactly when none overlaps |
| IntervalNodes.NextOverlap | drbd-8.4.4/drbd/drbd_interval.c:163-178 | the next overlapping interval in order, or null |
| IntervalNodes.ForEachOverlap | drbd-8.4.4/drbd/drbd_interval.h:63-66 | the loop visits every overlapping interval once, in ascending order |
| Rounding.CoversUpToLast | drbd-8.4.4/drbd/drbd_actlog.c:885-892 | the sectors of a request that are on the device end with the last one that the code computes |
| Rounding.ClearExact | drbd-8.4.4/drbd/drbd_actlog.c:885-913 | a clear touches exactly the blocks fully inside the range, the partial last one included |
| Rounding.InsideIs | drbd-8.4.4/drbd/drbd_actlog.c:891-902 | a block is inside the range exactly when all of its sectors on the device are |
| Rounding.SetExact | drbd-8.4.4/drbd/drbd_actlog.c:1021-1037 | marking out of sync touches exactly the blocks with a sector in the range |
| Rounding.AlwaysSafe | drbd-8.4.4/drbd/drbd_actlog.c:866-1049 | over any sequence of both, a clear bit means that no sector of its block is out of sync |

## Left out

- Sockets, threads, wait queues, RCU, bio submission, crypto, authentication, netlink, /proc and module code: calls into the kernel with no visible effect on these arguments.
- `__req_mod` and request completion: a request on the transfer log is only "acked" or not.
- Two-primaries write conflicts, the WO_bio_barrier mode, connection loss and changes of the write ordering mode in the epoch model.
- Snapshot sync, drbd_al_shrink, resize, drbd_rs_del_all, lc_set and al_updates switched off.
- Statistics: cache hit counters, rs_left and rs_failed, bitmap weights, packet and byte counts.
- Epoch numbers do not wrap around at 32 bits in the barrier model; the code compares only neighbouring epochs.
- 32-bit machines: a native word has 64 bits.
- Sector arithmetic does not overflow 64 bits.
- The parsers of `user/`: of the user space tools only the activity log replay is modelled.
- ActivityLog.Recover: bits are only set in extents that hold a reference, metadata writes succeed or the node crashes, and the padding of the block arrays is not modelled; the machine works on values, while the in-place cache and the loops that assemble a block are LruObject and AlTransaction.
- AlReplay.Replay: a block that is torn is taken to fail its checksum.
- ResyncLock.Exclusion: a node is either target or source, the receiver runs one drbd_rs_begin_io at a time, a reset comes after all resync requests have ended, and the machine works on values rather than in place.
- EpochOrder.NextKeepsLog: flushes succeed; a failing flush changes the write ordering mode.
- Generations.CompareMirrors: the UUID corrections are returned as new values instead of being made in place.
- Handshake.NeverBoth: exactly one node has RESOLVE_CONFLICTS, the call-helper policies change the role in the middle of a decision and are left out, and each node sees the other's disk state as it is.
- Promotion.ResolverWins: like Promotion.AskerPromoted, it takes a peer that has no objection of its own besides being Primary; Promotion.NeverBothPrimary needs no such assumption.
- StateEngine.RunBounds: the work queued after a state change is not part of the model.
- IntervalNodes.RotateNodeAt: which rotations the kernel's red-black tree makes, and when, is left open; the results hold for any number of them at any place.
- IntervalNodes.NextOverlap: the successor is searched from the root, as nodes have no link to their parent.
- BitmapXfer.ExchangeBitmaps: the sender's bitmap does not change during the exchange, and the receiver's only by it.
- Bitstream.BitStream.Get: a request for zero bits at a byte boundary without padding, when more than 64 bits are left, reads more than a word and is left undefined.
- BitmapXfer.ReceivePlain: from a word offset behind the bitmap the code writes behind it; the model shows the bitmap only.
