# Verification of an EDF scheduler, a FIFO driver and a block file system

This project models three programs in Dafny and proves what they do over whole runs. Each
is modelled as its code stands, branch by branch; where the code does not do what its
comments promise, it is proved exactly when it does, and an input for which it does not is
given.

**The scheduler simulator, `pa3/edf.c`** (files `Edf*.dfy`). `EdfModel` describes one
scheduling event and a whole run on values; `EdfScheduler` is the program itself, a class
that sorts, shifts, grows and stamps its array in place, and is proved to compute just that.
About the runs it is proved: which job runs, when a preemption is logged, what deadlines
late jobs have, which lines every event prints, and that the lines up to any time name the
process that runs then (`EdfTrace`); that the printed waiting time is the true one for every
task set, that work is conserved, and the earliest-deadline-first guarantee, as two exact
criteria. No miss is
reported if and only if, for every n below the hyperperiod, the jobs due by n fit into n
ticks; everything is finished at the end if and only if the hyperperiod as a whole is not
overloaded. The two differ, because a job unfinished at the very last tick is not reported
(`SilentOverload`).

**The FIFO driver, `rmiller-pa5/driver/scull.c`** (files `Scull*.dfy`). A transition system
with any number of processes inside reads and writes, one step for each access to what is
shared, with interrupted waits and failed copies. As written, a call looks up the header of
its slot before it waits (lines 88 and 133); the system has that form (`OnEntry`) and the
form that looks it up as the lock is taken (`UnderLock`). In every run of either the
semaphores and the mutex keep their protocol, and readers and writers are never stuck
together. The pointers into the ring are in place throughout if and only if no copy into it
fails (`LayoutIff`). With headers looked
up under the lock the driver is first in, first out in every run without such a failure,
whatever the interleaving: the k-th completed read gets the first bytes of what the k-th
completed write was called with (`FirstInFirstOut`). As written, for every such run: each slot
holds its record with the lengths over it that writes, called while another was in the
middle of that slot, stored there (`RunHeld`); the unread bytes stay as they were if and only
if none of those lengths differs from what is there (`BytesInOrderIff`); and what is
delivered is first in, first out if and only if every completed read was served by the
length that lay at `start` when it was called, and as much of its record as it asked for was
not so stored over (`FaithfulIff`). Four runs show what goes wrong otherwise: a read called
on an empty ring, two writes that look up one slot, a write called when another is halfway,
and a copy that fails.

**The file system, `pmeunier-project/fs.c`** (files `Fs*.dfy`). A volume is its disk blocks,
its block map, its inode table and its inode map, with the copies of the tables on disk
beside them; the class `Volume` changes them in place as the code does. Every place that
can hold a block number is a slot, and block ownership says that no block is in two slots
and every block in a slot is marked. Every operation is proved to keep it. A file is the
function from positions to bytes that its slots make of it; a write is proved to change just
the bytes it says it wrote, of just that file, across the direct, the single indirect and
the double indirect blocks. It puts all of them if and only if there is a free block for
every empty slot on the way to them (`CompleteIff`). Directories are read from the bytes of
their blocks (`FsDirectory`), paths are parsed in two passes, with laws for slashes, `.` and
`..` that determine their components (`FsParse`), and looked up in them, and it is proved what creating, removing and renaming by path do to the meaning of
every path (`FsNames`, `FsPaths`). `FsLaws` puts operations together.

What the code does that its comments do not say, stated by the members named:

- a write of at most a block that crosses a block boundary, and an unaligned write past the
  direct blocks, run past a buffer (`BadWrite`, lines 1220, 1250-1251); so does every
  unaligned read within the file (`BadRead`, lines 1071-1072, 1097-1098);
- a read past the end of the file returns a count and copies nothing (`FsRead`, line 1174);
- a write through the double indirect block puts its bytes in place but leaves the size at
  268288, so that no read reaches them (`WriteThenRead`, line 1369);
- such a write counts more bytes than it put exactly if the free blocks do not suffice
  (`CountIff`, line 1283), by a whole piece, and can return full success (`CountTooHigh`); the
  size is raised above 268288 by what it does not count;
- a write that runs out of space before the double indirect part returns before the block map
  is written. Re-reading the tables, as `fs_getattr` does, then leaves blocks in files that
  the map calls free, unless no block was free to begin with (`WriteThenReload`);
- `fs_write` beyond the end of a file returns 0, not the error that its comment names;
- truncation leaves the level-1 index blocks of the double indirect block marked
  (`TruncateConservesIff`, line 747);
- creating a file in a full directory takes an inode and does not give it back (`Mknod`,
  lines 611-614);
- a leading `..` is an ordinary name (`NormalIff`, line 140);
- a full-length read of the FIFO returns the size of a slot, not the length of the record
  (`ReturnsLengthIff`, line 107).

Calls and runs on which this shows are in `FsLimits` and `ScullLimits`.

`dafny verify dfyconfig.toml` checks the project.

## Model

| member | source | states |
|---|---|---|
| EdfSort.SortJobsUnique | pa3/edf.c:35-53 | for jobs with distinct (pid, age), a list is THE sorted one exactly if it is a permutation in strict order of deadline, age, pid |
| EdfSort.OrderPair | pa3/edf.c:38-50 | the three tests with their swaps exchange two neighbours exactly when the second comes first in that order |
| EdfSort.DeadlineSort | pa3/edf.c:35-53 | the bubble sort leaves a sorted permutation, the unique one for distinct names, and touches nothing behind it |
| EdfListing.ByNameUnique | pa3/edf.c:64-75 | the arrangement in order of age, pid is one and the same whatever the order of the schedule |
| EdfListing.PrintSchedule | pa3/edf.c:62-77 | the three nested scans list every live job exactly once, in order of age, pid |
| EdfHyperperiod.LeastCommonMultiple | pa3/edf.c:197-206 | the search ends, at the least positive common multiple |
| EdfHyperperiod.LcmDivides | pa3/edf.c:232-237 | a least common multiple divides every common multiple, so folding it is sound |
| EdfHyperperiod.Hyperperiod | pa3/edf.c:232-237 | the fold yields the least positive number that every period divides |
| EdfInvariant.RunKeeps | pa3/edf.c:92-159 | after every event of every run each live job has a deadline at the first multiple of its period to come and an age that is a multiple of it, the array is strictly sorted though rarely re-sorted, and `running` mirrors its head |
| EdfInvariant.TickKeeps | pa3/edf.c:168-195 | the same for one event from any such state |
| EdfPolicy.RunsTheEarliest | pa3/edf.c:130-159 | the job that runs at a tick is the one live job before all others in deadline, age, pid; a tick is idle only with no live job |
| EdfPolicy.PreemptsExactly | pa3/edf.c:80-86 | a preemption is logged exactly when an unfinished head loses its place, it names that head, and only that head is stamped |
| EdfTrace.RunPrints | pa3/edf.c:168-195 | every event of every run prints just this, in this order: an end if the job that ran has no work left; a miss for each live job at its deadline, with the work it has left, process by process in schedule order; if a period starts, one listing of exactly the live and the new jobs, in order of age, pid; a preemption if an unfinished head lost its place, and a start if the head is another or nothing ran |
| EdfTrace.FirstPrints | pa3/edf.c:169-173 | the first event lists one job of every process and starts the head |
| EdfTrace.LastPrints | pa3/edf.c:175-185 | the last event prints at most an end |
| EdfTrace.RunReplays | pa3/edf.c:133-158 | in every run each start, end and preemption fits the one before it, and following them leads to the process that runs |
| EdfTrace.TraceNamesRunner | pa3/edf.c:208-259 | the printout of a whole run, read up to any time and followed so, names the process that runs then |
| EdfWaiting.TickWaits | pa3/edf.c:138-157 | each event raises `waited`, plus what the waiting jobs are still owed, by the number of live jobs that do not run |
| EdfWaiting.WaitingIsExact | pa3/edf.c:260-266 | the total printed is the number of live jobs not running, summed over all ticks, for every task set, overloaded ones too |
| EdfWork.TickServes | pa3/edf.c:189-192 | the backlog is max(backlog + arrivals - 1, 0), whatever the order of jobs, and a tick is idle exactly when nothing is left to do |
| EdfWork.RunWorks | pa3/edf.c:123-193 | at every tick the work released is the busy ticks plus the work left |
| EdfWork.ReleaseCount | pa3/edf.c:123-127 | `procs_created` ends as the sum of max_Time / period over the processes |
| EdfWork.FinalBacklog | pa3/edf.c:255-259 | what is left at the end is what was released less the busy ticks, and at least the excess over max_Time |
| EdfGuarantee.DemandBound | pa3/edf.c:123-127 | the work released from one tick on and due by another is at most the ticks between them |
| EdfGuarantee.TickFits | pa3/edf.c:168-195 | one event keeps, for every later time d, the work due by d within the ticks left until d |
| EdfGuarantee.FeasibleIsSchedulable | pa3/edf.c:255-259 | total utilisation at most one bounds the demand of every initial stretch |
| EdfGuarantee.EdfMeetsDeadlines | pa3/edf.c:88-161 | with utilisation at most one the missed-deadline branch is never taken, and at max_Time all work is done with at most a finished head left |
| EdfGuarantee.NoMissIffSchedulable | pa3/edf.c:93-102 | no miss is printed if and only if no stretch from the start demands more than its length |
| EdfGuarantee.EdfFinishesIff | pa3/edf.c:255-266 | all work is done at max_Time if and only if utilisation is at most one |
| EdfGuarantee.SilentOverload | pa3/edf.c:177-185 | one process that needs a tick more than its period is overloaded and has no miss in its log |
| EdfScheduler.Scheduler.constructor | pa3/edf.c:238-252 | the start: one job of every process, sorted, the first of them running |
| EdfScheduler.Scheduler.RemoveElement | pa3/edf.c:55-60 | the head goes, the rest keeps its order |
| EdfScheduler.Scheduler.StampPreempted | pa3/edf.c:80-86 | exactly the records equal to the old head are stamped |
| EdfScheduler.Scheduler.MoveDeadlines | pa3/edf.c:94-102 | misses are reported in array order, moved on one period each, and the copy of the head follows the head |
| EdfScheduler.Scheduler.Append | pa3/edf.c:103-126 | a record is added at the end, with the array doubled when it is full |
| EdfScheduler.Scheduler.ReleaseDue | pa3/edf.c:92-129 | the loop that bumps and releases process by process amounts to bumping everything, then releasing |
| EdfScheduler.Scheduler.Reschedule | pa3/edf.c:131-144 | the running job against the new arrivals, as the specification has it |
| EdfScheduler.Scheduler.StartFirst | pa3/edf.c:145-158 | a start from idleness, as the specification has it |
| EdfScheduler.Scheduler.CheckDeadlines | pa3/edf.c:88-161 | deadlines, releases and rescheduling in place refine the specification on values |
| EdfScheduler.Scheduler.CheckEvent | pa3/edf.c:168-195 | an event in place refines one step of the specification |
| EdfScheduler.ReadProcesses | pa3/edf.c:221-231 | strictly positive input makes a valid process table, numbered from 1 |
| EdfScheduler.FinalWaiting | pa3/edf.c:260-266 | the jobs behind the head are charged up to the end |
| EdfScheduler.Simulate | pa3/edf.c:208-272 | the whole program: length, trace, which names at every time the process that runs, waiting time and count, and both criteria on what it did |
| ScullTokens.StepTokens | rmiller-pa5/driver/scull.c:89-121 | every step of every process, interrupted and failed ones too, keeps semaphores, tokens in hand and lock in balance |
| ScullTokens.ProtocolHolds | rmiller-pa5/driver/scull.c:288-289 | in every reachable state EMPTY + FULL + tokens in flight are the slots; one process is in the lock; a writer there has a free slot and a reader a filled one |
| ScullTokens.NeverAllBlocked | rmiller-pa5/driver/scull.c:136-142 | calls can all be blocked only as readers of an empty ring or as writers of a full one, never both kinds |
| ScullRing.SlotNext | rmiller-pa5/driver/scull.c:116-119 | the equality test suffices to wrap |
| ScullRing.SlotsApart | rmiller-pa5/driver/scull.c:278-285 | records less than a lap apart do not overlap |
| ScullRing.StepLayoutIff | rmiller-pa5/driver/scull.c:143-168 | a step from a good layout keeps both pointers in place if and only if it is not a failed copy into the ring |
| ScullRing.LayoutIff | rmiller-pa5/driver/scull.c:83-173 | over every run both pointers are in place throughout if and only if no copy into the ring failed |
| ScullRing.LayoutHolds | rmiller-pa5/driver/scull.c:116-119 | with the lock free both pointers are whole-slot offsets below the end, `end` being the occupied slots ahead of `start` |
| ScullFifo.FreeSlotWrite | rmiller-pa5/driver/scull.c:143-164 | writing into the free slot changes no byte of an unread record |
| ScullFifo.StepInv | rmiller-pa5/driver/scull.c:83-173 | one step keeps every unread record in its slot and every delivery right, if no copy fails and, with headers looked up on entry, what the process looked up is current as it takes the lock |
| ScullFifo.FirstInFirstOut | rmiller-pa5/driver/scull.c:83-173 | with headers looked up under the lock: over all interleavings without a failed copy the k-th completed read delivers the k-th committed record, cut to the count asked for, which is as much of the data of the k-th completed write, and the unread records are in their slots |
| ScullFifo.FirstInFirstOutOnEntry | rmiller-pa5/driver/scull.c:83-173 | as written, the same for the runs in which no call gets the lock after another of its kind has completed since it began, and no read that gets it began on an empty ring |
| ScullFifo.PassesOnIff | rmiller-pa5/driver/scull.c:83-173 | in every run deliveries match the records exactly if they match, in bytes and returned values, the data of the write calls and the counts of the read calls, in the order of their completion |
| ScullCalls.RunRecorded | rmiller-pa5/driver/scull.c:88-133 | in every run, what a process holds is what its call looked up in the state in which it began |
| ScullCalls.RunFromCalls | rmiller-pa5/driver/scull.c:144-164 | in every run record k is the beginning of what the k-th completed write was called with, as much as a slot holds, and delivery k is to a read called with its count |
| ScullCalls.WriteReturns | rmiller-pa5/driver/scull.c:144-172 | in every run a write on its way out returns the length it was called with, or the size of a slot if that is less |
| ScullPayload.StoreIff | rmiller-pa5/driver/scull.c:133-155 | a length stored at any place where `end` can have been spoils unread bytes exactly if it falls into a record and differs from it |
| ScullPayload.StepHolds | rmiller-pa5/driver/scull.c:83-173 | whatever lies in the slots, any step without a failed copy leaves it there, but for a new record and for the four bytes of a length stored in the middle of a slot |
| ScullPayload.StepInvIff | rmiller-pa5/driver/scull.c:83-173 | any step without a failed copy keeps all unread bytes in place exactly if it is no such store, and then keeps everything else |
| ScullPayload.RunHeld | rmiller-pa5/driver/scull.c:83-173 | as written, over all interleavings without a failed copy: in the slot of every unread record lie its bytes with those lengths over them, in the order in which they were stored, and the k-th completed read got bytes of what lay in the k-th |
| ScullPayload.BytesInOrderIff | rmiller-pa5/driver/scull.c:83-173 | as written, over all interleavings without a failed copy: the unread bytes are in their slots throughout if and only if no write stored a differing length where `end` was, in the middle of a slot, when it was called; and then the k-th read got bytes of the k-th record |
| ScullReads.ServesIff | rmiller-pa5/driver/scull.c:88-107 | a length looked up serves exactly if it is the record's, or both are beyond the count, or equal to it in a full slot |
| ScullReads.FaithfulIff | rmiller-pa5/driver/scull.c:83-125 | as written, over all interleavings without a failed copy: deliveries are first in, first out, in bytes and returned values, against the records and against the data of the calls, if and only if each completed read was served by the length at `start` when it was called, and what lay in its slot agreed with the record as far as it asked |
| ScullReads.SparedIsUnspoiled | rmiller-pa5/driver/scull.c:133-155 | the second of these holds of every read up to the first length stored over bytes that it differs from |
| ScullReads.StaleStoreIff | rmiller-pa5/driver/scull.c:133-155 | in any run, a write called when `end` was at the slot of a record still unread spoils that record with its length unless the lengths agree |
| ScullReads.ReturnsLengthIff | rmiller-pa5/driver/scull.c:104-107 | the value returned is the number of bytes delivered exactly for a cut read or a full slot |
| ScullLimits.EarlyReaderLosesRecord | rmiller-pa5/driver/scull.c:88-107 | a run from the start, without failed copies, in which a record of one byte is delivered as none |
| ScullLimits.StaleWriterSpoilsRecord | rmiller-pa5/driver/scull.c:133-155 | a run from the start in which two writes look up one slot, a record is spoiled, and [1, 2] is read as [1] |
| ScullLimits.MidSlotWriterSpoilsBytes | rmiller-pa5/driver/scull.c:133-155 | a run from the start in which a write is called halfway through another, and [1, 2, 3, 4] is read as [1, 0, 0, 0] |
| ScullLimits.FailedCopyShiftsRing | rmiller-pa5/driver/scull.c:143-164 | a run from the start in which a copy fails: the lock is free again with `end` past a header, and the [9] written next is read as [1] |
| ScullDevice.Device.constructor | rmiller-pa5/driver/scull.c:278-285 | the ring at the start |
| ScullDevice.Device.FillSlot | rmiller-pa5/driver/scull.c:144-164 | the length and the first bytes of the buffer as stored in place, whole, cut, or broken off |
| ScullDevice.Device.WriteLocked | rmiller-pa5/driver/scull.c:143-168 | the locked part of a write in place does what the transition system's steps do, wherever the slot was looked up, and returns the number of bytes stored |
| ScullDevice.Device.ReadLocked | rmiller-pa5/driver/scull.c:96-119 | the same for a read, whatever length was looked up, a negative one included |
| FsModel.AllocKeeps | pmeunier-project/fs.c:284-297 | allocation keeps ownership, every slot and every byte of every file |
| FsModel.AttachInode | pmeunier-project/fs.c:1225-1229 | hanging a fresh block into an inode keeps ownership and changes that slot only |
| FsModel.AttachEntry | pmeunier-project/fs.c:1254-1262 | the same for an entry of an index block on disk |
| FsModel.WriteBlockBytes | pmeunier-project/fs.c:1206-1212 | bytes put into a block of a file are put at that place of that file and nowhere else |
| FsEffects.GrowthConserves | pmeunier-project/fs.c:284-297 | the blocks no longer free are exactly the blocks the file gained |
| FsVolume.Volume.FsInit | pmeunier-project/fs.c:416-474 | re-reading the tables changes nothing exactly when their copies on disk agree with memory |
| FsVolume.Volume.NumFreeBlk | pmeunier-project/fs.c:269-277 | the count is the size of the set of free blocks |
| FsVolume.Volume.GetFreeBlk | pmeunier-project/fs.c:284-297 | the lowest free block, zeroed and marked; or none is free and nothing changed |
| FsVolume.Volume.UpdateInode | pmeunier-project/fs.c:340-346 | one block of the table and the inode map reach the disk |
| FsVolume.Volume.FsWriteBlk | pmeunier-project/fs.c:1206-1212 | one block changes, unless the copy would run past a buffer |
| FsVolume.Volume.FsWriteDir | pmeunier-project/fs.c:1214-1239 | the direct part of a write: its bytes in place and all else kept, short only at a full disk or the last block, an overrun exactly for a short write across a boundary |
| FsVolume.Volume.FsWriteIndir1 | pmeunier-project/fs.c:1241-1270 | the same for one index block, an overrun exactly for an unaligned start |
| FsVolume.Volume.FsWriteIndir2 | pmeunier-project/fs.c:1272-1300 | from the start of the double indirect part of a file whose blocks are in order: bytes go in place one after the other, fewer than fit only when the disk is full and the next block missing, and then the count is that of the pieces tried, the one with nothing put included; the nearer bytes and other files are always kept |
| FsVolume.Volume.FsWrite | pmeunier-project/fs.c:1320-1379 | directories and offsets beyond the end are refused unchanged; ownership is kept; overruns exactly for BadWrite; bytes put, size, count and blocks taken as Written has them in all three parts of the file and on a full disk, and the file Backed again; block map on disk current unless it stopped below the double indirect part |
| FsSteps.NearWritten | pmeunier-project/fs.c:1371-1378 | a full write below the double indirect part: bytes in place, size the maximum, blocks there up to it and in order |
| FsSteps.FarWritten | pmeunier-project/fs.c:1357-1371 | a write past it, full or stopped by a full disk: the bytes put in place, the count in whole pieces as the bytes put determine it, the size raised to 268288 and by what was not counted |
| FsSteps.ShortWritten | pmeunier-project/fs.c:1343-1348 | a write that stopped short below it: the bytes put in place, the size as before |
| FsSteps.InOrderKept | pmeunier-project/fs.c:1272-1300 | a write keeps level-1 index blocks in order: none before all blocks of the ones before it are there |
| FsCounting.CompleteIff | pmeunier-project/fs.c:1334-1370 | a write puts all its bytes if and only if the slots still empty on the way to them, index blocks included, are at most the free blocks before it |
| FsCounting.PutIs | pmeunier-project/fs.c:1334-1370 | how much any write puts is the most for which the free blocks before it suffice |
| FsCounting.CountIff | pmeunier-project/fs.c:1283-1299 | count and size of a write that goes on past 268288, from what it put; it counts just that exactly if the free blocks before sufficed for all |
| FsCounting.StopsBelowIff | pmeunier-project/fs.c:1347-1364 | a write returns before the block map is written if and only if the slots still empty below 268288, and the double indirect block if it goes on there, are more than the free blocks |
| FsCounting.NeededIs | pmeunier-project/fs.c:1334-1370 | for a new file those are one for each block, the single indirect block from the seventh on, the double one from the 263rd, and a level-1 block for every 256 after that |
| FsVolume.Volume.FsReadDir | pmeunier-project/fs.c:1065-1086 | the bytes of the file from the offset on, an overrun exactly for an unaligned start in a block that is there |
| FsVolume.Volume.FsReadIndir1 | pmeunier-project/fs.c:1088-1112 | the same through an index block |
| FsVolume.Volume.FsReadIndir2 | pmeunier-project/fs.c:1114-1138 | from the start of the double indirect part of a file whose blocks are in order: its bytes up to the first block that is not there, which ends the read |
| FsVolume.Volume.FsRead | pmeunier-project/fs.c:1164-1204 | within a file that is Backed, from 268288 at the latest: its bytes, an overrun exactly for BadRead, all of the range exactly if its blocks are there, else up to a missing one; past the end a count and no bytes |
| FsSteps.BackedReads | pmeunier-project/fs.c:1164-1204 | every range within the size of such a file is one of those |
| FsSteps.ReadableReaches | pmeunier-project/fs.c:1164-1204 | so is every range whose blocks are all there, in any file |
| FsTruncation.FreedAndMids | pmeunier-project/fs.c:721-751 | the blocks that truncation clears and the level-1 index blocks are disjoint and together the file's blocks |
| FsTruncation.TruncateKeeps | pmeunier-project/fs.c:765-800 | the file is empty after, every other file has its slots and bytes, ownership holds |
| FsTruncation.TruncateCounts | pmeunier-project/fs.c:765-800 | the free count rises by the file's blocks less its level-1 index blocks, and no other bit changes |
| FsTruncation.TruncateConservesIff | pmeunier-project/fs.c:740-751 | all blocks come back if and only if there is no level-1 index block |
| FsTruncation.FillAndTruncate | pmeunier-project/fs.c:765-851 | an empty file filled by any writes and emptied: the free blocks are the same set but for level-1 index blocks |
| FsEffects.GrowsTransitive | pmeunier-project/fs.c:1320-1379 | any number of writes to a file is a growth of it, like one |
| FsVolume.Volume.FsTruncateDir | pmeunier-project/fs.c:721-726 | exactly the direct blocks are freed |
| FsVolume.Volume.FsTruncateIndir1 | pmeunier-project/fs.c:728-738 | exactly the blocks named in the index block are freed |
| FsVolume.Volume.FsTruncateIndir2 | pmeunier-project/fs.c:740-751 | exactly the blocks two levels down are freed |
| FsVolume.Volume.FsTruncate | pmeunier-project/fs.c:765-800 | length 0 only, files only; the blocks freed, the inode emptied with its mode kept, the maps on disk; an error changes nothing |
| FsVolume.Volume.GetFreeInode | pmeunier-project/fs.c:319-328 | the lowest free inode from 2 on, or none |
| FsVolume.Volume.FsMknod | pmeunier-project/fs.c:608-678 | the first free entry and the lowest free inode make a new empty file, every other file and slot kept, disk current; it fails exactly if the directory is full or no inode is free, then changes nothing in memory exactly if no inode was free, and nothing on disk |
| FsVolume.Volume.FsUnlink | pmeunier-project/fs.c:812-851 | the file gone: its blocks free but for level-1 index blocks, its inode cleared and free, the entries of that name removed, every other slot and file kept, disk current |
| FsVolume.Volume.FsRename | pmeunier-project/fs.c:964-977 | only the directory's block changes, and in it only the entries of that name |
| FsLaws.WriteThenRead | pmeunier-project/fs.c:1164-1379 | any write to a Backed file, from 268288 at the latest, and a read of the same range: the read returns the bytes if and only if the free blocks before sufficed, the range ends within the old size or 268288, and it is aligned; the size covers the write if and only if it did before, or the blocks sufficed and it ends at 268288 at the latest |
| FsLaws.WriteThenReload | pmeunier-project/fs.c:1347-1364 | a write of any length and fs_init: the map read back is too old if and only if the slots of StopsBelowIff outnumber the free blocks before, and the blocks then have owners if and only if no block was free |
| FsLaws.CreateWriteFind | pmeunier-project/fs.c:646-1379 | a file created at a path and written is found by that path again and reads back if and only if it ends below 268288 and the free blocks before sufficed |
| FsLaws.CreateFillRemove | pmeunier-project/fs.c:608-851 | create, any number of any writes, even on a disk that fills up, remove, by path: the free blocks before are those after and the level-1 index blocks taken, so both maps are as before if and only if there are none, as for writes that neither overrun nor pass 268288; and every path leads where it led |
| FsLaws.CreateFailsThenReload | pmeunier-project/fs.c:611-614 | after a creation that fails, fs_init brings back the volume as it was |
| FsLaws.StaleMapWhenFull | pmeunier-project/fs.c:1347-1364 | after a write that filled the disk, the old block map makes an owned volume exactly if no block was free before |
| FsLaws.FreshIsOwned | pmeunier-project/fs.c:416-474 | a volume with only a root directory satisfies every invariant that the operations need |
| FsLimits.Overruns | pmeunier-project/fs.c:1057-1239 | on a file of 1024 bytes, reading 10 or writing 100 at 1000 overruns |
| FsLimits.MapTooOld | pmeunier-project/fs.c:1347-1364 | with one free block, writing 2048 bytes to that file and reading the tables back: no assignment of blocks to slots owns the volume |
| FsLimits.CountTooHigh | pmeunier-project/fs.c:1283-1294 | with 264 free blocks, writing 268289 bytes to a new file returns 268289, and the last byte is not put |
| FsLimits.SizeTooHigh | pmeunier-project/fs.c:1283-1372 | of 792576 bytes 530432 are then counted, and that becomes the size, with 268288 put |
| FsLimits.BlockLost | pmeunier-project/fs.c:740-751 | writing 268289 bytes to a new file and truncating it leaves one free block less |
| FsLimits.InodeLost | pmeunier-project/fs.c:611-614 | on a new volume 32 files are created in the root directory; creating one more fails and leaves the inode map changed |
| FsLimits.SizeLeftBehind | pmeunier-project/fs.c:1357-1372 | writing 268289 bytes to a new file returns 268289, leaves its size at 268288, and reading them gives none |
| FsParse.NormalIff | pmeunier-project/fs.c:139-149 | normal paths are exactly those with no `.` and `..` only in front, and normalising again changes nothing |
| FsParse.NormalCancels | pmeunier-project/fs.c:137-149 | anywhere in a list of names a name with `..` after it cancels, and so does `..` twice where nothing is before it; `.` does nothing |
| FsParse.TokensJoined | pmeunier-project/fs.c:130-136 | the names of two paths joined by a slash are those of the one and then of the other; a name without a slash is its own, and nothing has none |
| FsParse.TokensOfJoin | pmeunier-project/fs.c:130-136 | any non-empty names without slashes, joined by slashes, come apart again |
| FsParse.ComponentsJoined | pmeunier-project/fs.c:130-149 | the second part of a path goes on from where the first ends, and a second slash adds nothing |
| FsParse.ComponentsHere | pmeunier-project/fs.c:139-140 | `.` can be left out of a path |
| FsParse.ComponentsUp | pmeunier-project/fs.c:137-138 | so can any name with `..` after it |
| FsParse.Parse | pmeunier-project/fs.c:130-152 | the count is the number of components, an over-long name an error, and the names that fit are stored |
| FsParse.ParseNames | pmeunier-project/fs.c:180-186 | counting, then storing in an array of that size, yields the component list even if the depth passes the count midway |
| FsNames.FindInDir | pmeunier-project/fs.c:84-93 | the inode of the first entry in use with the name |
| FsNames.FindFirst | pmeunier-project/fs.c:84-93 | of several entries with a name the first in use counts |
| FsNames.FindFreeDir | pmeunier-project/fs.c:354-363 | the first entry not in use, or an error exactly if there is none |
| FsNames.ResolveSplit | pmeunier-project/fs.c:189-203 | a path leads where its second half leads from where its first half leads |
| FsNames.InAndOut | pmeunier-project/fs.c:175-249 | a path that goes into a name and out again by `..` has the inode and the directory, or the error, that it has without, if the name is not too long |
| FsNames.LinkedBack | pmeunier-project/fs.c:608-851 | after a name that was nothing is made and removed, every path leads where it led |
| FsNames.LinkResolves | pmeunier-project/fs.c:608-678 | after mknod or unlink the paths through the name lead to the new file or nowhere, and every other path leads where it did |
| FsNames.HitLast | pmeunier-project/fs.c:608-678 | a path to a missing name or a file comes to that name at its end only |
| FsNames.RenameResolves | pmeunier-project/fs.c:969-977 | every path leads where it led with the two names exchanged in that directory, whatever the shape of the tree |
| FsNames.BeforeLast | pmeunier-project/fs.c:969-977 | the new path stands for the old one |
| FsNames.FindAdded | pmeunier-project/fs.c:617-619 | a new entry is found by its name, every other name as before |
| FsNames.FindRemoved | pmeunier-project/fs.c:834-838 | a removed name is not found, every other name as before |
| FsNames.FindRenamed | pmeunier-project/fs.c:969-974 | the new name finds what the old one found, the old one nothing, every other name as before |
| FsDirectory.StoreEntryIs | pmeunier-project/fsx492.h:21-26 | the bytes stored for an entry read back as that entry, and the other 31 entries as before |
| FsDirectory.ClearEntryIs | pmeunier-project/fs.c:836 | an entry wiped reads as none, the others as before |
| FsDirectory.RenameEntryIs | pmeunier-project/fs.c:971-972 | a name wiped and copied over reads as the new name of the same entry |
| FsDirectory.RemoveEntries | pmeunier-project/fs.c:834-838 | the loop over the block removes exactly the entries of that name |
| FsDirectory.RenameEntries | pmeunier-project/fs.c:969-974 | the loop over the block renames exactly those entries |
| FsPaths.Walk | pmeunier-project/fs.c:189-203 | the loop over the names, reading one directory block after another, leads where the components lead, with the same errors |
| FsPaths.Translate | pmeunier-project/fs.c:175-204 | the inode of a path on the volume |
| FsPaths.Translate1 | pmeunier-project/fs.c:219-249 | the inode of a path's directory, and its last name |
| FsPaths.WritesKeepNames | pmeunier-project/fs.c:1320-1379 | writing a file leaves every directory as it is |
| FsPaths.Created | pmeunier-project/fs.c:608-678 | from the bytes on disk: the path leads to the new inode, and only that name is new |
| FsPaths.Mknod | pmeunier-project/fs.c:646-678 | fs_mknod by path: every error code as it arises; on success the path leads to a new empty file of the lowest free inode, its name is in the first free entry, no other name and no file changed, and the tables on disk are current; on an error names and disk are as before, and a full directory costs an inode in memory |
| FsPaths.Unlinked | pmeunier-project/fs.c:834-840 | from the bytes on disk: the path leads nowhere, and only that name is gone |
| FsPaths.Unlink | pmeunier-project/fs.c:812-851 | fs_unlink by path: every error code; on success the path leads nowhere, only that name is gone, the inode is cleared and free, exactly the blocks of the file are freed but for level-1 index blocks, every other slot and file is kept, and the tables on disk are current; other errors than that of a file without a directory change nothing |
| FsPaths.Relabels | pmeunier-project/fs.c:969-977 | from the bytes on disk: every path leads where it led with the two names exchanged |
| FsPaths.Rename | pmeunier-project/fs.c:937-978 | fs_rename by path: every error code; on success all paths are relabelled so, no file changed, and nor did the tables |

## Left out

- FsWriteIndir2: for an offset that is not its start, or a file whose blocks are not in order, only the nearer bytes and the other files are spoken of.
- FsWrite: of a write that starts past 268288, in a file whose size an earlier one left above that, or a write to a file that is not Backed, only ownership, other files and the bytes before the offset and 268288 are spoken of. A write that overruns no buffer and starts at 268288 at the latest leaves a Backed file Backed.
- FsRead: likewise for a read that starts past 268288 or of a file that is not Backed and has not all its blocks; where the code would take block 0 for a missing index block the read counts as an overrun.
- FsReadIndir2: likewise for a start that is not the first byte of the part.
- FsWriteBlk: a copy past the end of a buffer is reported and not carried out; what such a copy overwrites in memory is not part of this model.
- StepInv: with headers looked up on entry, for a step that finds what was looked up still current; StepHolds is for every step.
- FirstInFirstOutOnEntry: for runs in which what a call looked up is current as it gets the lock; for all others FaithfulIff and BytesInOrderIff say exactly when the result is right.
- FsInit: on disk, the inode region and the two maps are typed copies of what is in memory, not blocks of bytes.
- Unlink: like Mknod and Rename, for a volume whose directories have their blocks and whose entries in use name an inode other than 0 within the inode map; each of them keeps that. A path is a string without zero characters.
- Disk reads and writes always succeed; inode owner and times, `chmod`, `utime`, `stat` and `statfs` are left out.
- `fs_mkdir` and `fs_rmdir`, which do not keep the tree (lines 712 and 897-902), `fs_readdir`, the FUSE glue, `image.c` and `main.c`.
- The scheduler's prompts, number formats and average; failed allocation and machine integer overflow; `edf (1).c`, the same program again.
- The driver's registration, ioctl, messages and failed allocation; a ring of no slots; memory outside the ring, which reads as 0 and is never written.
- `pa2` and `pa4`: small programs with nothing that spans several operations.
