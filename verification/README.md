# Nachos 4.0 in Dafny

A verified model of the Nachos 4.0 instructional kernel and of the machine it simulates, layer
by layer: threads and the synchronization built on them, the disk file system, paged user
memory, the hard instructions of the MIPS simulator, simulated time, and the list and hash
table libraries.  Operations are written as the C++ code works: objects with fields that
methods update, arrays changed in place, loops with invariants.  Protocols between threads are
state machines whose steps are the statements of the code, in every interleaving.

| files | what they model |
|---|---|
| `Semaphore.dfy`, `Threads.dfy` | semaphores, the scheduler, thread life and death, the idle loop |
| `Monitor.dfy`, `SynchList.dfy` | locks, condition variables, the synchronized list |
| `DeviceDriver.dfy`, `PostOffice.dfy`, `Process.dfy` | synchronous device access, the post office over a lossy network, Exec/Join/Exit |
| `Bytes.dfy`, `Bitmap.dfy`, `Storage.dfy`, `OpenFile.dfy`, `Directory.dfy` | packed bitmap, disk image, file headers, byte-level file access, the directory |
| `FileSystemState.dfy`, `FileSystem.dfy` | the file system as pure state over every run, and the code that keeps the disk equal to it |
| `Translation.dfy`, `AddrSpace.dfy`, `Isolation.dfy` | address translation, the program loader, private images over every run |
| `Multiply.dfy`, `Unaligned.dfy` | the 64-bit multiply; LWL, LWR, SWL, SWR and the delayed load |
| `Interrupts.dfy`, `DiskTiming.dfy` | the clock and pending interrupts; seek, rotation and track buffer |
| `LinkedList.dfy`, `HashTable.dfy` | the list and hash table libraries |

How the parts fit together:

- A semaphore's P is modelled one pass of its loop at a time, because a woken thread re-tests
  the value and may find it gone.  `Threads` has the scheduler around it; `Monitors` and the
  protocols above let any thread that is not asleep take the next step.
- The fields that only record history (who was woken, what was appended, which interrupts
  fired) decide nothing; they are there so that results over whole runs can be stated.
- The file system's meaning is a map from nine-character names to byte sequences.  `Fs` is the
  state the disk must hold; every method of `FileSystem` leaves the disk holding the state that
  the corresponding pure function gives.
- A process's meaning is a flat image of bytes; a page table presents it out of scattered
  frames.

Premises taken from the code's own assumptions: file sizes are at most 30 sectors and
positions are not negative; the loader is given a non-empty code segment at address 0 followed
without gaps by initialized and read-only data; the SIM_FIX and RDATA variants of the code are
the ones compiled; a process is joined at most once; an interrupt handler schedules only
strictly future interrupts; a device raises one interrupt per request.

One property fails of the code.  `ExitUpdate` lowers `numwait` in the parent's PCB, and a parent
that has itself exited, been joined and been removed no longer has one: the PCB used is then
deleted, or belongs to a process that has been given the slot since.  `Processes` has a run for
each case and the exact condition: the parent's own PCB is found if and only if no step cleared
the parent before.  A process that joins all its children before it exits never causes it, and
the wrong count decides nothing.

Where code and comments differ the code is followed: the loader's comment that virtual address
equals physical address is out of date, and `Condition::Broadcast` is the loop of signals that
it is, under the caller's lock.

## Model

| member | source | states |
|---|---|---|
| `Multiply.Mult` | NachOS-4.0/code/machine/mipssim.cc:794-858 | hi:lo is the exact 64-bit product, signed or unsigned, for every pair of 32-bit operands, the early exit and the most negative operand included |
| `Multiply.MultiplyMagnitudes` | NachOS-4.0/code/machine/mipssim.cc:820-843 | the shift-and-add loop, with its early exit, leaves the exact product of the two unsigned words |
| `Multiply.AddPair` | NachOS-4.0/code/machine/mipssim.cc:828-835 | 64-bit addition of word pairs with the carry found by comparison; exact as long as the sum fits |
| `Multiply.NegatePair` | NachOS-4.0/code/machine/mipssim.cc:845-854 | two's-complement negation of a word pair: the signed pair is minus the unsigned one |
| `Multiply.Advance` | NachOS-4.0/code/machine/mipssim.cc:826-843 | one loop step keeps accumulator + multiplicand x multiplier equal to the product |
| `Multiply.SignOfProduct` | NachOS-4.0/code/machine/mipssim.cc:803-818 | multiplying magnitudes loses only the sign, and the signed product always fits in 64 bits |
| `Unaligned.LoadRightBytes` | NachOS-4.0/code/machine/mipssim.cc:376-429 | LWR byte by byte: which bytes of the register come from memory and which stay |
| `Unaligned.LoadLeftBytes` | NachOS-4.0/code/machine/mipssim.cc:324-374 | the same for LWL |
| `Unaligned.StoredRightBytes` | NachOS-4.0/code/machine/mipssim.cc:619-675 | SWR changes exactly the bytes from a to the end of its aligned word |
| `Unaligned.StoredLeftBytes` | NachOS-4.0/code/machine/mipssim.cc:560-617 | SWL changes exactly the bytes from the start of its aligned word to a |
| `Unaligned.UnalignedStore` | NachOS-4.0/code/machine/mipssim.cc:560-675 | SWR a then SWL a+3 equals one four-byte store at a, for every a |
| `Unaligned.UnalignedLoad` | NachOS-4.0/code/machine/mipssim.cc:324-429 | LWR a then LWL a+3 gives the little-endian word at a, whatever the register held, for every a |
| `Unaligned.BaseRegisterKept` | NachOS-4.0/code/machine/mipssim.cc:718-724 | when the second instruction of the pair still computes with the same base register value |
| `Unaligned.WordThroughTable` | NachOS-4.0/code/machine/translate.cc:86-123 | an aligned word of memory, reached through a page table, is the word of the virtual image |
| `Unaligned.StorePairThroughTable` | NachOS-4.0/code/machine/mipssim.cc:560-675 | through a page table with frames anywhere in memory, SWR a then SWL a+3 changes exactly four virtual bytes, also across a page boundary |
| `Unaligned.Simulator.DelayedLoad` | NachOS-4.0/code/machine/mipssim.cc:718-724 | finishes the pending load, makes the new one pending, keeps register 0 zero |
| `Unaligned.Simulator.LoadWord` | NachOS-4.0/code/machine/mipssim.cc:324-429 | LWL and LWR on the machine: one aligned read at base plus displacement modulo 2^32 and a merge, or the read's exception with the pending load finished; and exactly which page table or TLB entry is touched |
| `Unaligned.Simulator.StoreWord` | NachOS-4.0/code/machine/mipssim.cc:560-675 | SWL and SWR on the machine: read, merge, write at base plus displacement modulo 2^32; an exception leaves memory unchanged; and exactly which entry is touched how |
| `Unaligned.Simulator.StoreMapped` | NachOS-4.0/code/machine/mipssim.cc:560-675 | through a loaded page table a store is a store into the virtual image, or an address error that changes nothing |
| `Unaligned.Simulator.LoadMapped` | NachOS-4.0/code/machine/mipssim.cc:324-429 | through a loaded page table a load is a load from the virtual image, or an address error |
| `Unaligned.Simulator.ExecuteStorePair` | NachOS-4.0/code/machine/mipssim.cc:560-675 | SWR a then SWL a+3 executed, across a page boundary and with or without a trap in between: exactly the four virtual bytes change; if the second instruction faults, exactly the bytes up to the end of a's word; if the first does, none |
| `Unaligned.Simulator.ExecuteLoadPair` | NachOS-4.0/code/machine/mipssim.cc:324-429 | LWR a then LWL a+3 executed, across a page boundary and with or without a trap in between: the little-endian word at a is on its way to rt and the other registers are what the load pending before leaves; and what a fault on either instruction leaves |
| `Bitmaps.UpdateUnpacked` | NachOS-4.0/code/lib/bitmap.cc:58-81 | setting or clearing a bit inside a packed word changes that bit of the map and no other |
| `Bitmaps.CountClearIsCardinality` | NachOS-4.0/code/lib/bitmap.cc:132-144 | the count of clear bits is the cardinality of the set of free items |
| `Bitmaps.Bitmap.constructor` | NachOS-4.0/code/lib/bitmap.cc:21-39 | a new map has nothing marked |
| `Bitmaps.Bitmap.Mark` | NachOS-4.0/code/lib/bitmap.cc:58-65 | marks one item |
| `Bitmaps.Bitmap.Clear` | NachOS-4.0/code/lib/bitmap.cc:74-81 | clears one item |
| `Bitmaps.Bitmap.Test` | NachOS-4.0/code/lib/bitmap.cc:90-102 | reads one item of the packed words |
| `Bitmaps.Bitmap.FindAndSet` | NachOS-4.0/code/lib/bitmap.cc:113-124 | first fit: the lowest free item is marked and returned; -1 and no change exactly if nothing is free |
| `Bitmaps.Bitmap.NumClear` | NachOS-4.0/code/lib/bitmap.cc:132-144 | counts the free items |
| `Storage.ContentFrame` | NachOS-4.0/code/filesys/filehdr.cc:110-113 | a file's bytes depend on its own data sectors only |
| `Storage.HeaderRoundTrip` | NachOS-4.0/code/filesys/filehdr.cc:83-98 | a header written to its sector and fetched back has the same length and data sectors, whatever the unused entries hold |
| `Storage.TakeIsAllocation` | NachOS-4.0/code/filesys/filehdr.cc:43-58 | what allocation takes was free, is taken once, and is all that changes in the free map |
| `Storage.FreeClears` | NachOS-4.0/code/filesys/filehdr.cc:67-74 | deallocation clears exactly the given sectors |
| `Storage.FileHeader.Allocate` | NachOS-4.0/code/filesys/filehdr.cc:43-58 | succeeds exactly if there is room, then takes the sectors first fit; otherwise the free map is untouched |
| `Storage.FileHeader.Deallocate` | NachOS-4.0/code/filesys/filehdr.cc:67-74 | gives back exactly the file's sectors, and its assertion that they were marked holds |
| `Storage.FileHeader.FetchFrom` | NachOS-4.0/code/filesys/filehdr.cc:83-86 | reads the header a sector holds |
| `Storage.FileHeader.WriteBack` | NachOS-4.0/code/filesys/filehdr.cc:95-98 | the sector then holds this header and no other sector changes |
| `Storage.FileHeader.ByteToSector` | NachOS-4.0/code/filesys/filehdr.cc:110-113 | the sector that holds a byte of the file |
| `OpenFiles.ReadOwnWrite` | NachOS-4.0/code/filesys/openfile.cc:112-178 | reading any part of what was just written gives it back |
| `OpenFiles.ReadOtherWrite` | NachOS-4.0/code/filesys/openfile.cc:112-178 | reading anywhere else gives what was there before |
| `OpenFiles.SpanIsContent` | NachOS-4.0/code/filesys/openfile.cc:124-136 | whole sectors read into a buffer, cut at the right offset, are the file's bytes |
| `OpenFiles.WroteContent` | NachOS-4.0/code/filesys/openfile.cc:169-175 | whole sectors written from a buffer holding old edges and new bytes overwrite exactly the bytes asked for |
| `OpenFiles.OpenFile.ReadAt` | NachOS-4.0/code/filesys/openfile.cc:112-138 | every byte asked for that lies below the file's end is in the buffer, the count is how many those are, and the rest of the buffer stays, for every position and count |
| `OpenFiles.OpenFile.WriteAt` | NachOS-4.0/code/filesys/openfile.cc:140-178 | every byte asked for that lies below the file's end is the new one, every other byte of the file the old one; no sector outside the file changes |
| `OpenFiles.OpenFile.ReadEdges` | NachOS-4.0/code/filesys/openfile.cc:159-167 | the first and last sector of the buffer keep what the request leaves alone |
| `OpenFiles.OpenFile.Seek` | NachOS-4.0/code/filesys/openfile.cc:54-57 | sets where the next Read or Write begins |
| `OpenFiles.OpenFile.Read` | NachOS-4.0/code/filesys/openfile.cc:72-77 | ReadAt at the seek position, which advances by what was read |
| `OpenFiles.OpenFile.Write` | NachOS-4.0/code/filesys/openfile.cc:79-84 | WriteAt at the seek position, which advances by what was written |
| `OpenFiles.OpenFile.Length` | NachOS-4.0/code/filesys/openfile.cc:185-188 | the number of bytes of the file |
| `Directories.StrnEqComparesKeys` | NachOS-4.0/code/filesys/directory.cc:87-93 | two names are the same to the directory exactly if their first nine characters are |
| `Directories.StoredKey` | NachOS-4.0/code/filesys/directory.cc:124-138 | the name stored by Add is found again under the name it was given, also when cut to nine characters |
| `Directories.TableRoundTrip` | NachOS-4.0/code/filesys/directory.cc:62-77 | the directory written to its file and fetched back is the same table |
| `Directories.Directory.FetchFrom` | NachOS-4.0/code/filesys/directory.cc:62-65 | fetches the table that the directory file's bytes stand for |
| `Directories.Directory.WriteBack` | NachOS-4.0/code/filesys/directory.cc:74-77 | the directory file then holds this table |
| `Directories.Directory.FindIndex` | NachOS-4.0/code/filesys/directory.cc:87-93 | the first entry in use with the same nine characters, or -1 if there is none |
| `Directories.Directory.Find` | NachOS-4.0/code/filesys/directory.cc:104-111 | the header sector of that entry, or -1 |
| `Directories.Directory.Add` | NachOS-4.0/code/filesys/directory.cc:124-138 | succeeds exactly if the name is new and there is room; changes one entry, or nothing |
| `Directories.Directory.Remove` | NachOS-4.0/code/filesys/directory.cc:148-156 | succeeds exactly if the name is there; frees one entry, or changes nothing |
| `FileSystemState.AddHeader` | NachOS-4.0/code/filesys/filesys.cc:199-241 | a new header over unmarked sectors, once marked, keeps the marked sectors the disjoint union of all claims |
| `FileSystemState.DropHeader` | NachOS-4.0/code/filesys/filesys.cc:293-323 | dropping a header and clearing its claim keeps it too |
| `FileSystemState.CreateKeepsInv` | NachOS-4.0/code/filesys/filesys.cc:199-241 | Create, whatever its outcome, keeps the partition, distinct names and distinct headers |
| `FileSystemState.RemoveKeepsInv` | NachOS-4.0/code/filesys/filesys.cc:293-323 | Remove, whatever its outcome, keeps them |
| `FileSystemState.CreateThenRemove` | NachOS-4.0/code/filesys/filesys.cc:199-323 | Create then Remove restores the free map bit for bit and the headers, and leaves the directory the same but for a dead entry |
| `FileSystemState.FormatEstablishesInv` | NachOS-4.0/code/filesys/filesys.cc:84-139 | formatting succeeds and marks exactly sectors 0 and 1 and the two system files' data |
| `FileSystemState.RunKeepsInv` | NachOS-4.0/code/filesys/filesys.cc:199-323 | in every state of every run of Create and Remove the marked sectors are exactly the disjoint union of the headers' and files' sectors, and names differ on nine characters |
| `FileSystems.WriteKeepsState` | NachOS-4.0/code/filesys/openfile.cc:140-178 | writing inside one file's data changes neither free map nor directory nor any header |
| `FileSystems.WriteChangesOneFile` | NachOS-4.0/code/filesys/openfile.cc:140-178 | and changes no other file's bytes |
| `FileSystems.CreateWritten` | NachOS-4.0/code/filesys/filesys.cc:229-234 | the three writes of Create, in their order, leave exactly the new state on disk |
| `FileSystems.RemoveWritten` | NachOS-4.0/code/filesys/filesys.cc:317-318 | the two writes of Remove leave exactly the new state on disk |
| `FileSystems.FetchFreeMap` | NachOS-4.0/code/filesys/pbitmap.cc:38-65 | the bitmap that the free map file's bytes stand for |
| `FileSystems.WriteBackFreeMap` | NachOS-4.0/code/filesys/pbitmap.cc:74-77 | the free map file then holds this bitmap |
| `FileSystems.FileSystem.Format` | NachOS-4.0/code/filesys/filesys.cc:84-139 | whatever the disk held, it then holds an empty, consistent file system |
| `FileSystems.FileSystem.constructor` | NachOS-4.0/code/filesys/filesys.cc:140-146 | opening the system files of a disk that holds a file system |
| `FileSystems.FileSystem.Create` | NachOS-4.0/code/filesys/filesys.cc:199-241 | as a map from names to bytes: succeeds exactly if the name is new, there are fewer files than directory entries, and sectors for header and data are free; adds one file of the size asked for and changes no other; a failed Create changes nothing on disk |
| `FileSystems.FileSystem.Open` | NachOS-4.0/code/filesys/filesys.cc:253-267 | null exactly if no file has the name, otherwise an open file whose contents are the file's bytes |
| `FileSystems.FileSystem.Remove` | NachOS-4.0/code/filesys/filesys.cc:293-323 | succeeds exactly if the name is in the map, and takes exactly that file out; otherwise nothing on disk changes |
| `FileSystems.CanCreateIff` | NachOS-4.0/code/filesys/filesys.cc:211-229 | the success test of Create, said of the map of files and the free sectors |
| `FileSystems.FileSystem.WriteFile` | NachOS-4.0/code/filesys/openfile.cc:140-178 | overwrites one file's bytes in the map of files and nothing else: no other file, free map or directory |
| `Threads.StepKeepsInv` | NachOS-4.0/code/threads/scheduler.cc:56-171 | every step of every thread and of the idle loop keeps the scheduler and semaphore invariant |
| `Threads.RunInv` | NachOS-4.0/code/threads/scheduler.cc:56-171 | so it holds in every state of every run |
| `Threads.ExactlyOnePlace` | NachOS-4.0/code/threads/scheduler.cc:56-171 | a live thread not on the processor is in exactly one of the ready list, one semaphore queue, toBeDestroyed, with the matching status |
| `Threads.AssertionsHold` | NachOS-4.0/code/threads/thread.cc:146-252 | the assertions on list membership and on toBeDestroyed never fail |
| `Threads.NoSleeperForgotten` | NachOS-4.0/code/threads/synch.cc:76-118 | if a thread sleeps on a semaphore, its value is at most the number of woken threads that have not re-tested, and those are ready or running |
| `Threads.UnitsConserved` | NachOS-4.0/code/threads/synch.cc:76-118 | value + completed P = the value the semaphore was made with + completed V, in every state of every run |
| `Threads.FirstInFirstOut` | NachOS-4.0/code/threads/scheduler.cc:74-86 | the thread at position k of the ready list is the one dispatched (k+1)-th |
| `Threads.WaitersInOrder` | NachOS-4.0/code/threads/synch.cc:76-118 | the thread at position k of a semaphore's queue is the one the (k+1)-th V makes ready |
| `Threads.System.MakeReady` | NachOS-4.0/code/threads/scheduler.cc:56-63 | appends the thread to the ready list with status Ready |
| `Threads.System.FindNextToRun` | NachOS-4.0/code/threads/scheduler.cc:74-86 | takes the head of the ready list, or none |
| `Threads.System.SwitchTo` | NachOS-4.0/code/threads/scheduler.cc:105-154 | gives the processor to a thread and remembers one that is finishing |
| `Threads.System.GoToSleep` | NachOS-4.0/code/threads/thread.cc:237-252 | the processor goes to the head of the ready list, or the machine idles |
| `Threads.System.LeaveIdle` | NachOS-4.0/code/threads/thread.cc:237-252 | the idle loop ends with the head of the ready list running |
| `Threads.System.ResumeThread` | NachOS-4.0/code/threads/scheduler.cc:164-171 | destroys the finished thread left by the switch |
| `Threads.System.YieldThread` | NachOS-4.0/code/threads/thread.cc:199-215 | the current thread goes to the end of the ready list if another is ready |
| `Threads.System.FinishThread` | NachOS-4.0/code/threads/thread.cc:170-179 | the current thread stops for good and waits to be destroyed |
| `Threads.System.Wait` | NachOS-4.0/code/threads/synch.cc:76-93 | one pass of P: takes a unit, or queues the thread and sleeps |
| `Threads.System.Signal` | NachOS-4.0/code/threads/synch.cc:103-118 | V: readies the first sleeper and adds a unit |
| `Monitors.StepKeepsInv` | NachOS-4.0/code/threads/synch.cc:183-304 | every statement of Acquire, Release, Wait and Signal, in any interleaving, keeps the monitor invariant |
| `Monitors.RunInv` | NachOS-4.0/code/threads/synch.cc:183-304 | so it holds in every state of every run |
| `Monitors.MutualExclusion` | NachOS-4.0/code/threads/synch.cc:183-209 | value plus the number of threads past Acquire's P and before Release's V is 1; lockHolder, if set, is that thread |
| `Monitors.AssertionsHold` | NachOS-4.0/code/threads/synch.cc:200-285 | the held-by-current-thread assertions of Release, Wait and Signal never fail |
| `Monitors.SignalNotLost` | NachOS-4.0/code/threads/synch.cc:249-290 | a signalled waiter is awake and its next pass of P succeeds, wherever between Release and P the signal landed |
| `Monitors.UnsignalledWaits` | NachOS-4.0/code/threads/synch.cc:249-263 | a waiter not signalled cannot get past its P |
| `Monitors.WaitEndsAfterOwnSignal` | NachOS-4.0/code/threads/synch.cc:249-290 | in every run, between the start and the end of a Wait some Signal took that Wait's own semaphore off the queue |
| `Monitors.SignalledInOrder` | NachOS-4.0/code/threads/synch.cc:249-290 | waiters are signalled in the order their Waits began |
| `Monitors.FreedWaiterIsUnused` | NachOS-4.0/code/threads/synch.cc:249-263 | the semaphore Wait deletes is off waitQueue, used by no Signal and slept on by nobody |
| `Monitors.SignalledWaiterIsAlive` | NachOS-4.0/code/threads/synch.cc:278-290 | the semaphore a Signal raises exists, its thread is waiting for it and its value is 0 |
| `Monitors.BroadcastWakesAll` | NachOS-4.0/code/threads/synch.cc:298-304 | after Broadcast the queue is empty and every thread in Wait's P gets past it at its next pass |
| `Monitors.OthersLeaveQueue` | NachOS-4.0/code/threads/synch.cc:278-304 | while a thread holds the lock no other thread changes the queue |
| `Monitors.LockForgetsNoSleeper` | NachOS-4.0/code/threads/synch.cc:183-205 | in every run, if the lock is free while threads sleep on it, a woken thread is awake and its next pass takes the lock |
| `SynchLists.StepKeepsInv` | NachOS-4.0/code/threads/synchlist.cc:51-79 | every step of Append and RemoveFront, in any interleaving, keeps the list invariant |
| `SynchLists.RunInv` | NachOS-4.0/code/threads/synchlist.cc:51-79 | so it holds in every state of every run |
| `SynchLists.TakenIsPrefixOfPut` | NachOS-4.0/code/threads/synchlist.cc:51-79 | over every interleaving the items removed are a prefix of the items that Append was called with, in the order put, and the list is the rest |
| `SynchLists.AppendingIsLatest` | NachOS-4.0/code/threads/synchlist.cc:51-60 | a thread puts on the list the item of its latest call of Append |
| `SynchLists.NobodyForgotten` | NachOS-4.0/code/threads/synchlist.cc:51-79 | while an unsignalled waiter is queued, the list is no longer than the number of signalled waiters that have not re-tested, and those are on their way to the test |
| `SynchLists.HolderCanProceed` | NachOS-4.0/code/threads/synchlist.cc:51-79 | the lock's holder always has a next statement it can execute; in particular it never takes from an empty list |
| `DeviceDrivers.StepKeepsInv` | NachOS-4.0/code/filesys/synchdisk.cc:56-90 | every step of a caller, and the interrupt, keep the protocol's invariant, for any device |
| `DeviceDrivers.RunInv` | NachOS-4.0/code/filesys/synchdisk.cc:56-90 | so it holds in every state of every run |
| `DeviceDrivers.NeverRequestsWhileActive` | NachOS-4.0/code/machine/disk.cc:113-163 | a request is never issued while the device is active |
| `DeviceDrivers.ReturnsOwnCompletedReply` | NachOS-4.0/code/filesys/synchdisk.cc:56-90 | a caller about to return holds the reply to the request it called with, as if requests were executed one after the other in issue order, and its own interrupt has happened |
| `DeviceDrivers.IssuedAreRequests` | NachOS-4.0/code/filesys/synchdisk.cc:56-90 | what was issued is, in order, what the callers called with |
| `DeviceDrivers.ReadSectorGetsLastWrite` | NachOS-4.0/code/filesys/synchdisk.cc:56-80 | ReadSector returns what the latest earlier WriteSector of that sector wrote, or the initial contents |
| `PostOffices.PackRoundTrip` | NachOS-4.0/code/network/post.cc:295-316 | header and data read out of a packet are those sent, whatever the padding |
| `PostOffices.StepKeepsInv` | NachOS-4.0/code/network/post.cc:187-250 | sending, polling, the postal worker's steps and taking mail keep the post office invariant |
| `PostOffices.RunInv` | NachOS-4.0/code/network/post.cc:187-250 | so inbox-full equals messageAvailable's value plus wakeups taken and not yet received, and survivors = delivered + in hand + in the inbox + on the wire, in every state of every run |
| `PostOffices.TakenIsPrefixOfSurvivors` | NachOS-4.0/code/network/post.cc:95-134 | what leaves a mailbox is, message for message, a prefix of the messages sent to it that the wire did not lose |
| `PostOffices.SurvivorsInOrder` | NachOS-4.0/code/machine/network.cc:160-184 | the survivors are an in-order subsequence of the messages sent: those not lost, at increasing positions |
| `PostOffices.InboxNeverOverwritten` | NachOS-4.0/code/machine/network.cc:60-103 | Receive always finds a packet, and polling never replaces one not yet received |
| `PostOffices.AbortsOnlyForMissingBox` | NachOS-4.0/code/network/post.cc:207-212 | the worker's assertions fail if and only if the message names a mailbox that does not exist |
| `PostOffices.WireCarriesSurvivors` | NachOS-4.0/code/network/post.cc:295-325 | with any number of threads in Send, in every run, the wire carries the surviving messages in the order the calls issued them under the lock |
| `Processes.StepKeepsInv` | NachOS-4.0/code/threads/ptable.cc:43-133 | every step of Exec, Join and Exit, in any interleaving, keeps the process table's invariant |
| `Processes.RunInv` | NachOS-4.0/code/threads/ptable.cc:43-133 | so it holds in every state of every run |
| `Processes.JoinReturnsChildsExitCode` | NachOS-4.0/code/threads/ptable.cc:80-98 | in every interleaving a Join returns the code that the process in the slot, when the Join began, itself passed to Exit in an earlier step |
| `Processes.ExitCodeIsFromCall` | NachOS-4.0/code/threads/ptable.cc:100-117 | in every run a process that is exiting made an Exit call, and its PCB holds the code of that call |
| `Processes.JoinHasExitCode` | NachOS-4.0/code/threads/ptable.cc:80-98 | the code read by a Join in progress is the exit code of its child |
| `Processes.ClearedOnlyAfterRead` | NachOS-4.0/code/threads/ptable.cc:100-133 | a slot is cleared only after the parent has read its process's exit code |
| `Processes.OnlyClearFreesSlot` | NachOS-4.0/code/threads/ptable.cc:100-133 | no other step takes a slot from its process, so it cannot be reused before |
| `Processes.JoinedChildExists` | NachOS-4.0/code/threads/ptable.cc:80-98 | the PCB that Join reaches into exists and is still the child's |
| `Processes.CountDownEffect` | NachOS-4.0/code/threads/ptable.cc:112-113 | what DecNumWait on the parent's PCB does: it uses a deleted PCB exactly if the parent's slot is not in use, and otherwise lowers the count of whatever process is in the slot |
| `Processes.OrphanedByClear` | NachOS-4.0/code/threads/ptable.cc:127-133 | a process loses its parent's PCB exactly when the parent's slot is cleared, and never gets it back |
| `Processes.CountDownFindsParent` | NachOS-4.0/code/threads/ptable.cc:112-113 | in every run, DecNumWait in Exit finds the PCB of the process's own parent if and only if no step has cleared that parent since the process was created |
| `Processes.DeletedParentIsUsed` | NachOS-4.0/code/threads/ptable.cc:112-113 | a run in which Exit uses a deleted PCB: the parent exited, was joined and cleared before its child exits |
| `Processes.AnotherProcessIsMiscounted` | NachOS-4.0/code/threads/ptable.cc:112-113 | a run in which the slot has been reused, and a process waiting in Join has its count lowered by a process it did not create |
| `Processes.NumWaitDecidesNothing` | NachOS-4.0/code/threads/pcb.cc:105-118 | a wrong count goes no further: two tables that differ only in numWait allow the same steps and stay so |
| `Processes.JoinAllThenExitIsSafe` | NachOS-4.0/code/threads/ptable.cc:80-117 | if every process exits only when all its children have been joined, no deleted PCB is ever used |
| `Processes.NoLostRelease` | NachOS-4.0/code/threads/pcb.cc:85-103 | a release given is never lost: the released side is not asleep and finds its unit |
| `Translation.HitStaysInPage` | NachOS-4.0/code/machine/translate.cc:187-265 | an access that translates stays inside one page and inside memory, so the final assertion holds |
| `Translation.TlbAgreesWithTable` | NachOS-4.0/code/machine/translate.cc:213-243 | a TLB holding copies of page table entries answers exactly as the page table, but for a fault on a page it does not hold |
| `Translation.TouchingKeepsTranslation` | NachOS-4.0/code/machine/translate.cc:258-260 | setting use and dirty bits never changes a later translation |
| `Translation.UseAndDirtyAreExact` | NachOS-4.0/code/machine/translate.cc:258-260 | over any run of accesses an entry is in use exactly if it was or an access went through it, and dirty exactly if it was or a write did; nothing else of it changes |
| `Translation.ReadOnlyStaysClean` | NachOS-4.0/code/machine/translate.cc:244-248 | no run of accesses makes a read-only page dirty |
| `Translation.AlignedFits` | NachOS-4.0/code/machine/translate.cc:196-202 | an aligned access of 1, 2 or 4 bytes never leaves its page |
| `Translation.MapsTranslates` | NachOS-4.0/code/machine/translate.cc:187-265 | a page table as the loader makes it hits every aligned address of the image, at its frame, and nothing else |
| `Translation.ReadIsView` | NachOS-4.0/code/machine/translate.cc:86-123 | bytes read from one page are bytes of the virtual image |
| `Translation.WriteChangesView` | NachOS-4.0/code/machine/translate.cc:138-170 | bytes written to one page change exactly those bytes of the virtual image |
| `Translation.WriteLeavesOtherView` | NachOS-4.0/code/machine/translate.cc:138-170 | and leave the image of any disjoint set of frames alone |
| `Translation.Machine.Translate` | NachOS-4.0/code/machine/translate.cc:187-265 | page table and TLB search, every exception in the source's order, and exactly the touched entry's bits |
| `Translation.Machine.ReadMem` | NachOS-4.0/code/machine/translate.cc:86-123 | the bytes at the translated address, or the exception |
| `Translation.Machine.WriteMem` | NachOS-4.0/code/machine/translate.cc:138-170 | changes exactly the addressed bytes of memory and touches exactly the entry hit, or raises an exception and changes nothing |
| `AddrSpaces.ChunkExtends` | NachOS-4.0/code/userprog/addrspace.cc:189-262 | one read into one page extends the loaded prefix of the image by exactly its size; past the end of the file memory stays zero |
| `AddrSpaces.FillSplit` | NachOS-4.0/code/userprog/addrspace.cc:168-174 | the page arithmetic for a segment that starts in the middle of a page |
| `AddrSpaces.SegmentsMatch` | NachOS-4.0/code/userprog/addrspace.cc:118-132 | the flat image: the three segments follow one another and the rest is zero |
| `AddrSpaces.FlatHasStack` | NachOS-4.0/code/userprog/addrspace.cc:118-132 | behind the segments there is zeroed room for uninitialised data and the stack, and less than a page more |
| `AddrSpaces.NoffRoundTrip` | NachOS-4.0/code/userprog/noff.h:12-30 | the header read from the file has each segment's three words where the format puts them |
| `AddrSpaces.TlbServesPages` | NachOS-4.0/code/userprog/addrspace.cc:146-157 | a TLB filled from a loaded page table answers as that table does, on the pages it holds |
| `AddrSpaces.AddrSpace.AllocateFrames` | NachOS-4.0/code/userprog/addrspace.cc:146-157 | takes the frames first fit, enters them in the page table and zeroes exactly them; FindAndSet never fails |
| `AddrSpaces.AddrSpace.CopyPages` | NachOS-4.0/code/userprog/addrspace.cc:178-196 | the page loop copies a segment into whole pages |
| `AddrSpaces.AddrSpace.AppendSegment` | NachOS-4.0/code/userprog/addrspace.cc:197-262 | a segment is copied behind what is there: into the rest of the last page, then whole pages |
| `AddrSpaces.AddrSpace.CopySegments` | NachOS-4.0/code/userprog/addrspace.cc:178-266 | the three segments are copied behind one another, as the flat image has them |
| `AddrSpaces.AddrSpace.Load` | NachOS-4.0/code/userprog/addrspace.cc:96-271 | true exactly if there is a file and enough free memory; then the page table presents the flat image, byte for byte, with zeroed room for uninitialised data and the stack and less than a page more, and memory outside its frames is unchanged; if false nothing changed |
| `AddrSpaces.AddrSpace.Destroy` | NachOS-4.0/code/userprog/addrspace.cc:75-84 | gives back exactly the frames of the page table |
| `Isolation.StepKeepsInv` | NachOS-4.0/code/userprog/addrspace.cc:75-156 | loading, destroying and writing keep the marked frames the disjoint union of the live page tables |
| `Isolation.RunInv` | NachOS-4.0/code/userprog/addrspace.cc:75-156 | so in every state of every run |
| `Isolation.OthersUntouched` | NachOS-4.0/code/machine/translate.cc:86-265 | no step of one process changes the frames or the image of another |
| `Isolation.ImageIsPrivate` | NachOS-4.0/code/machine/translate.cc:86-265 | over any run, a process that does nothing keeps its image byte for byte, whatever the others do |
| `Isolation.WriteIsSplice` | NachOS-4.0/code/machine/translate.cc:138-170 | a write through a loaded table changes exactly the addressed bytes of its own image if aligned and in range, and nothing otherwise |
| `Isolation.ReadIsImage` | NachOS-4.0/code/machine/translate.cc:86-123 | an aligned read in range, through any page table mapping the process's frames, returns the bytes of its image |
| `Isolation.LoadStep` | NachOS-4.0/code/userprog/addrspace.cc:96-271 | Load performs a step of the run, and its page table then maps the process's frames |
| `Isolation.DestroyStep` | NachOS-4.0/code/userprog/addrspace.cc:75-84 | the destructor performs a step of the run |
| `Isolation.WriteStep` | NachOS-4.0/code/machine/translate.cc:138-170 | WriteMem through a process's page table performs a step of the run, with no exception exactly if aligned and in range |
| `Isolation.ReadStep` | NachOS-4.0/code/machine/translate.cc:86-123 | ReadMem through a process's page table returns the bytes of its own image, or an address error |
| `Interrupts.InsertedAtPlace` | NachOS-4.0/code/lib/list.cc:241-275 | a pending interrupt goes behind all that are due no later and in front of the first that is later |
| `Interrupts.InsertedIsListInsert` | NachOS-4.0/code/lib/list.cc:241-275 | this is the linked sorted list's Insert with the source's comparison |
| `Interrupts.FireOneProgress` | NachOS-4.0/code/machine/interrupt.cc:328-335 | handlers cannot advance the clock, so each firing leaves one due interrupt fewer and the loop ends |
| `Interrupts.FireDueRestoresInv` | NachOS-4.0/code/machine/interrupt.cc:328-335 | after the firing loop every pending interrupt is strictly in the future |
| `Interrupts.TickKeepsInv` | NachOS-4.0/code/machine/interrupt.cc:157-189 | a tick keeps the timeline invariant and advances time by its mode's amount |
| `Interrupts.IdleKeepsInv` | NachOS-4.0/code/machine/interrupt.cc:219-239 | idling jumps exactly to the next interrupt and keeps the invariant |
| `Interrupts.FireDueAccounted` | NachOS-4.0/code/machine/interrupt.cc:290-337 | firing loses no interrupt and fires none twice |
| `Interrupts.RunKeepsInv` | NachOS-4.0/code/machine/interrupt.cc:132-337 | after any run, with any handlers: pending strictly in the future; fired in order of due time with ties in scheduling order, never early and at most SystemTick-1 late; each scheduled interrupt in exactly one of the two; totalTicks = idle + system + user |
| `Interrupts.ScheduledFiresOnTime` | NachOS-4.0/code/machine/interrupt.cc:267-276 | in every run with any handlers, an interrupt asked for d ticks from now fires at a time in [now+d, now+d+SystemTick), and is pending only before now+d |
| `Interrupts.HandlerDelaysOnTime` | NachOS-4.0/code/machine/interrupt.cc:267-335 | the same for every delay a handler asks for, from the time the handler ran |
| `Interrupts.TicksCounted` | NachOS-4.0/code/machine/interrupt.cc:157-172 | system and user ticks count exactly the ticks of their mode, and the rest of the time is idle |
| `Interrupts.YieldIffAsked` | NachOS-4.0/code/machine/interrupt.cc:157-189 | a tick makes the interrupted thread yield exactly if a handler that ran since the tick before asked for it |
| `Interrupts.Interrupt.ScheduleInterrupt` | NachOS-4.0/code/machine/interrupt.cc:267-276 | adds one interrupt, due the given time from now, behind all that are due no later and in front of the first that is later |
| `Interrupts.Interrupt.FireInterrupts` | NachOS-4.0/code/machine/interrupt.cc:328-335 | the loop fires exactly the interrupts that are due, with their handlers' effects |
| `Interrupts.Interrupt.CheckIfDue` | NachOS-4.0/code/machine/interrupt.cc:290-337 | says whether anything fired; with advanceClock time jumps first and the jump is counted as idle |
| `Interrupts.Interrupt.OneTick` | NachOS-4.0/code/machine/interrupt.cc:157-189 | one tick, counted by mode, and whether the interrupted thread must yield |
| `Interrupts.Interrupt.SetLevel` | NachOS-4.0/code/machine/interrupt.cc:132-146 | ticks exactly when interrupts go from off to on |
| `Interrupts.Interrupt.Idle` | NachOS-4.0/code/machine/interrupt.cc:219-239 | fires the next interrupts, or reports that nothing is pending |
| `DiskTiming.TurnFromBoundary` | NachOS-4.0/code/machine/disk.cc:199-206 | ModuloDiff counts exactly the sectors that pass before the wanted one, from a boundary on |
| `DiskTiming.UnbufferedIsFirstTurn` | NachOS-4.0/code/machine/disk.cc:176-250 | without the buffer the transfer begins at the first turn of the sector after the seek; the latency is positive and below seek + 33 rotations |
| `DiskTiming.BufferedIffPassed` | NachOS-4.0/code/machine/disk.cc:229-250 | the track buffer answers exactly if a whole turn of the sector since bufferInit is over by the next boundary, and is never slower |
| `DiskTiming.RunKeepsOk` | NachOS-4.0/code/machine/disk.cc:258-268 | in every run of requests bufferInit is a boundary not later than the next request |
| `DiskTiming.SeekIsDistance` | NachOS-4.0/code/machine/disk.cc:176-192 | in every run a seek takes SeekTime for each track between the previous request's sector and this one, either way |
| `DiskTiming.BufferFillsSinceSeek` | NachOS-4.0/code/machine/disk.cc:258-268 | in every run bufferInit is the first sector boundary from the end of the latest seek on |
| `DiskTiming.BufferFillsSinceStart` | NachOS-4.0/code/machine/disk.cc:258-268 | before the first seek it is the start |
| `LinkedLists.InsertedIsSorted` | NachOS-4.0/code/lib/list.cc:241-275 | Insert keeps a list sorted and puts equals in order of arrival |
| `LinkedLists.List.Append` | NachOS-4.0/code/lib/list.cc:73-90 | the sequence of items grows at its end; the nodes stay linked, counted and distinct |
| `LinkedLists.List.Prepend` | NachOS-4.0/code/lib/list.cc:98-115 | the sequence grows at its front |
| `LinkedLists.List.RemoveFront` | NachOS-4.0/code/lib/list.cc:127-147 | takes the first item off |
| `LinkedLists.List.Remove` | NachOS-4.0/code/lib/list.cc:155-188 | takes out exactly the first node with the item, repairing last; the item is then not in the list |
| `LinkedLists.List.IsInList` | NachOS-4.0/code/lib/list.cc:196-208 | true exactly if the item is among the items |
| `LinkedLists.List.Insert` | NachOS-4.0/code/lib/list.cc:241-275 | the items become the sorted insertion of the new one |
| `HashTables.HashTable.constructor` | NachOS-4.0/code/lib/hash.cc:29-35 | an empty map |
| `HashTables.HashTable.Insert` | NachOS-4.0/code/lib/hash.cc:108-123 | the map gains one binding, also when the table grows; each item sits in its bucket and numItems <= 3 x numBuckets |
| `HashTables.HashTable.ReHash` | NachOS-4.0/code/lib/hash.cc:134-153 | four times the buckets and the same map |
| `HashTables.HashTable.Find` | NachOS-4.0/code/lib/hash.cc:167-198 | the item bound to the key, or none if the key is not bound |
| `HashTables.HashTable.Remove` | NachOS-4.0/code/lib/hash.cc:209-222 | the map loses exactly one binding and its item is returned |
| `HashTables.InOwnBucket` | NachOS-4.0/code/lib/hash.cc:88-93 | an item is in the table exactly if it is in the bucket of its key |
| `HashTables.HashIterator.Next` | NachOS-4.0/code/lib/hash.cc:349-362 | what is left to visit loses exactly its first item |
| `HashTables.VisitAll` | NachOS-4.0/code/lib/hash.cc:332-362 | stepping the iterator to its end visits every item exactly once |

## Left out

- The stub file system over the host's files, and the other host calls of `lib/sysdep.cc`: thin wrappers.
- Sockets, host files and terminals behind the network, disk and console: the network is a queue that keeps order and may lose packets, the disk an array of sectors, the console is not modelled.
- The context switch itself, stack set-up and thread bodies: a switch is one step, and a thread's own computation between steps is any.
- The descriptor table at the end of the `FileSystem` constructor and `FindFreeSlot`: they use members the real class does not declare.
- System call dispatch, the PCB's file table and `Exec`'s checks of the program name: plumbing and easy members.
- `ExecUpdate`'s `bmsem`: reserving a slot is one step here, so the mutual exclusion it gives is not needed.
- `AddrSpace::Translate` and `InitRegisters`: the first is the page-table half of `Machine::Translate` without its alignment and validity checks.
- The remaining MIPS instructions, among them SRL and SRLV, which shift a signed value: each is one expression.
- Crash recovery: the code disclaims it, and a state between two disk writes is not described.
- Deallocation, leaked nodes and uninitialised fields: the padding bytes of a directory entry are taken to be zero.
- Printing, debugging, statistics other than the tick counts, self tests and user programs.
- DeviceDrivers.ReadSectorGetsLastWrite: the assertion that refuses a sector number off the disk is not a step; such a request changes nothing here.
- PostOffices.StepKeepsInv: putting mail into a mailbox and taking it out are single steps; that the underlying list behaves so under interleaving is the result about `SynchLists`.
- Isolation.StepKeepsInv: a whole Load is one step; its copying writes only to its own frames, which is what `LoadStep` ensures.
- Interrupts.RunKeepsInv: the yield that ends a tick is reported, and what the next thread does is further operations of the run.
- Processes.StepKeepsInv: joining a process that does not exist, or joining one twice, is not a step, because the code then follows a PCB pointer that may be dangling; after a deleted PCB has been used the run ends.
