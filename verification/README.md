# The kernel heap of SvetOS and the structures that own memory in it

This project models the best-fit heap allocator of the SvetOS kernel, the message queues,
sandbox table, interface registry and ELF loader that live on it, and proves what they keep
over whole runs.

All of it works on one flat 32-bit memory, an `array<byte>` of 2^32 little-endian bytes
(`Bytes.dfy`): block headers, list links, messages, registry entries and ELF images are words
and bytes at addresses, read and written as the C code does. The layers are

| file | what it holds |
|---|---|
| `Bytes.dfy` | words in memory, `memcpy` and `memset` |
| `Blocks.dfy` | the block list as a value, runs of free blocks, the coalescing pass |
| `HeapModel.dfy` | `kmalloc` and `kfree` as functions on values (`Alloc`, `Free`) and the heap invariant |
| `HeapRuns.dfy`, `HeapTheorems.dfy` | what the two calls mean, the fragmentation bound, all runs |
| `HeapImage.dfy`, `Mm.dfy` | headers in memory and the class `Mm`, proved to do to memory what `Alloc` and `Free` do to values |
| `List.dfy` | circular doubly linked lists in memory |
| `IpcImage.dfy`, `IpcSteps.dfy`, `Ipc.dfy` | the 32 message queues and the class `Ipc` |
| `SandboxTable.dfy`, `Sandbox.dfy` | the sandbox table, its histories, and the class `Sandboxes` |
| `Registry.dfy` | the interface registry and the class `Interfaces` |
| `Loader.dfy` | `load_elf_module` |
| `System.dfy`, `SystemRuns.dfy` | one state machine for the heap with all its users; theorems about its runs |
| `KernelFrames.dfy`, `Kernel.dfy` | the class `Kernel`: every call over the shared memory is a step of that state machine |

The theorems come in two kinds. A method contract says what one call does to memory, to the
heap and to the caller's own structure, and what it leaves alone. A lemma about `Run` says what
holds after any sequence of calls by any of the users. `Kernel.dfy` joins the two: each call of
the code is a step of the state machine, the state after boot is one the theorems start from, and
`log` is the history of the calls made since. So contracts there can speak of that history:
`IpcReceive` delivers what one earlier `IpcSend` of the history was given.

Findings about the code:

* No two free blocks being adjacent is *not* an invariant: `kfree` merges each free block with
  its successor at most once. `TextbookInvariantFails` gives a run on every heap with 80 bytes;
  `FreeKeepsOnePair` says exactly when a pair is left, and `RunKeepsInv` that there is never more
  than one.
* An interface is found under the name it was registered with if and only if the name has at most
  31 characters (`LongNamesAreCut`; `ThirtyTwoLetters` is an input for which it fails). Nothing is
  ever found under a longer name, in any run (`LongNamesNeverFound`).
* `ALIGN` wraps to 0 for the last seven 32-bit sizes, and `kmalloc` then grants less than asked
  for. The model keeps this; the heap invariant survives it. A grant is large enough exactly for
  sizes up to 0xFFFFFFF8 (`AllocMeaning`; `WrappedRequest` gives the inputs on a new heap).
* `load_elf_module` succeeds exactly when the file header is accepted and the heap, as it is
  before the call, grants one segment after the other (`LoadElf`, `Loads`), which it does whenever
  the statistics show enough free bytes (`LoadsWithRoom`). A PT_LOAD segment of memory size 0
  makes it fail, because `kmalloc(0)` is NULL (`EmptySegmentFails`, for a file that may lie
  anywhere in memory). A failed load leaves the heap as it was exactly when no segment was granted
  before the failure; otherwise the blocks so far stay allocated (`FailedLoadLeaks`).

Where code and comments disagree the code is followed: `mm.c` does not include `config.h`, so
HEAP_SIZE is its own (here a parameter); `ipc_init` is the one in `ipc.c`, not the stub in
`kernel.c`; `kernel_main` never calls `sandbox_init`, but the table it leaves zeroed has no used slot
either; `sandbox_alloc` announces memory inside a sandbox but takes an unrecorded heap block.

Modelling conventions: `size_t` and pointers are 32 bits wide (`word`); the current pid is an
argument; an `int` result that carries a length is unsigned; `Kernel.Write` stands for any store of
an owner into its own block, `Kernel.WriteStatic` for any store to static memory beside the list
heads; `nodes`, `entries`, `blocks` and `owner` are ghost and tied to memory by `Valid()`; calls
that only read leave no event in `log`.
Callers must do what the code relies on: pass to `kfree` a pointer of their own, NULL, or one
that `is_valid_pointer` rejects; let message and image sizes not wrap; pass data that lies in
static memory or in live blocks; receive into memory of their own; initialize once.

## Model

| member | source | states |
|---|---|---|
| Bytes.PutWord | kernel/src/mm/mm.c:59-63 | a stored word is read back, and every byte and every word beside it is unchanged |
| Bytes.Memcpy | kernel/src/string.c:3-10 | the destination holds the source bytes as they were on entry, nothing else changes, also for an overlap where the destination comes first |
| Bytes.Memset | kernel/src/string.c:12-18 | exactly n bytes become c |
| Blocks.Ordered | kernel/src/mm/mm.c:103-115 | tiling blocks lie in strict address order inside the heap, on 8-byte granules |
| Blocks.Adjacent | kernel/src/mm/mm.c:103-115 | each block ends exactly where its successor's header begins, the last one at the end of the heap |
| Blocks.PassHalvesRuns | kernel/src/mm/mm.c:135-142 | for any list, the coalescing pass turns every maximal run of k free blocks into ceil(k/2) free blocks |
| Blocks.PassKeepsUsed | kernel/src/mm/mm.c:135-142 | for any list, the pass leaves the used blocks as they are, in order |
| Blocks.PassKeepsFreeAddresses | kernel/src/mm/mm.c:135-142 | for any tiling list, an address is free after the pass exactly when it was free before |
| Blocks.PassTiles | kernel/src/mm/mm.c:138-139 | merging keeps the tiling |
| Blocks.FreeAndUsed | kernel/src/mm/mm.c:151-151 | free and used bytes add up to the heap size in every tiling list |
| Blocks.FreeCountBound | kernel/src/mm/mm.c:135-142 | there are at most as many free blocks as used blocks plus one plus adjacent free pairs |
| HeapModel.Align | kernel/src/mm/mm.c:13-15 | rounds up to a multiple of 8 in 32-bit arithmetic, and wraps to 0 exactly for sizes above 0xFFFFFFF8 |
| HeapModel.BestFit | kernel/src/mm/mm.c:86-96 | the scan finds a free block of least sufficient size, the first among equals, and none only if no free block is large enough |
| HeapModel.InitialInv | kernel/src/mm/mm.c:57-69 | a new heap satisfies the heap invariant and has nothing live |
| HeapModel.LiveDisjoint | kernel/src/mm/mm.c:103-113 | two live extents never overlap, a header lies between them |
| HeapModel.UsedIsLive | kernel/src/mm/mm.c:115-119 | every used block is a live pointer with its size |
| HeapRuns.AllocMeaning | kernel/src/mm/mm.c:82-120 | NULL exactly for size 0 or when no free block has ALIGN(n) bytes, and then nothing changes; else the smallest sufficient free block, the first among equals, is granted: whole if less than 32 bytes are left, otherwise cut behind ALIGN(n) bytes, and all other blocks stay; the extent is 8-aligned and accounted for with 16 bytes more; it has at least n bytes if and only if n is at most 0xFFFFFFF8 |
| HeapRuns.RoomFor | kernel/src/mm/mm.c:82-113 | without wrap-around kmalloc(n) succeeds exactly if a free block has n rounded up to 8 bytes, and grants that much and at most 24 bytes more |
| HeapRuns.CarvePairs | kernel/src/mm/mm.c:103-115 | granting from a run of free blocks, split or not, never adds an adjacent free pair |
| HeapRuns.AllocKeepsInv | kernel/src/mm/mm.c:82-120 | kmalloc keeps tiling, statistics and at most one adjacent free pair |
| HeapRuns.FreeMeaning | kernel/src/mm/mm.c:122-143 | kfree removes exactly the entry of its pointer from the live extents and from the statistics |
| HeapRuns.FreeKeepsOnePair | kernel/src/mm/mm.c:131-142 | from at most one adjacent free pair kfree leaves at most one; it leaves one if and only if at least two free blocks adjoined the released block, and only in the run around that block |
| HeapRuns.SurvivingPair | kernel/src/mm/mm.c:131-142 | a pair that survives kfree encloses the header just released |
| HeapRuns.FreeKeepsInv | kernel/src/mm/mm.c:122-143 | kfree keeps tiling, statistics and at most one adjacent free pair |
| HeapTheorems.RunKeepsInv | kernel/src/mm/mm.c:82-143 | in every heap reachable by any interleaving of the two calls the invariant holds |
| HeapTheorems.FreeBytesFromStats | kernel/src/mm/mm.c:116-151 | heap size minus allocated is the free bytes and never negative; allocation minus release count is the number of live blocks in 32-bit arithmetic; at most 2U+2 blocks |
| HeapTheorems.NullMeansFull | kernel/src/mm/mm.c:90-101 | kmalloc(n) fails with U live blocks only if at most (U+2)(ALIGN(n)+8) bytes are not allocated |
| HeapTheorems.EmptiedHeap | kernel/src/mm/mm.c:82-143 | after any run that gave everything back, one or two free blocks cover the heap, and every request with 2(ALIGN(n)+8) below the heap size succeeds |
| HeapTheorems.TextbookInvariantFails | kernel/src/mm/mm.c:135-142 | on every heap with room for 80 bytes, two grants and two releases leave two adjacent free blocks |
| HeapTheorems.WrappedRequest | kernel/src/mm/mm.c:86-113 | on every new heap, a request for one of the last seven sizes gets a pointer to at most 24 bytes |
| HeapImage.WriteInFree | kernel/src/mm/mm.c:103-113 | stores inside a free block reach no live payload and nothing outside the heap |
| HeapImage.HeaderExposed | kernel/src/mm/mm.c:130-142 | no header byte lies in a live payload |
| HeapImage.CarveHeaders | kernel/src/mm/mm.c:103-115 | after the stores of kmalloc the headers in memory are those of the list with the granted block carved out |
| HeapImage.MergeHeaders | kernel/src/mm/mm.c:138-139 | after the two stores of a merge the headers in memory are those of the merged list, and no protected byte has changed |
| MemoryManager.Mm.InitHeap | kernel/src/mm/mm.c:32-72 | the memory size is (mem_lower + mem_upper) KB if bit 0 of the flags is set, else 64 MB; the heap starts at the page behind the kernel, is HEAP_SIZE or what memory leaves, and is one free block; only its header is written |
| MemoryManager.Mm.IsValidPointer | kernel/src/mm/mm.c:74-80 | true exactly in the range of the heap with 0xDEADBEEF in the word below; true for every live pointer |
| MemoryManager.Mm.LiveIsValid | kernel/src/mm/mm.c:74-80 | is_valid_pointer accepts every live pointer |
| MemoryManager.Mm.Scan | kernel/src/mm/mm.c:87-96 | walking the links finds the address of the best fit |
| MemoryManager.Mm.Kmalloc | kernel/src/mm/mm.c:82-120 | memory, statistics and result are those of the abstract allocation; which block is granted and how it is cut is stated on the list before and after; live payloads and everything outside the heap keep their bytes |
| MemoryManager.Mm.Kfree | kernel/src/mm/mm.c:122-143 | memory and statistics are those of the abstract release, or unchanged for a rejected pointer; payloads still live and everything outside the heap keep their bytes |
| MemoryManager.Mm.Coalesce | kernel/src/mm/mm.c:135-142 | the loop ends and leaves the headers of the coalescing pass in memory |
| List.MutuallyInverse | include/kernel/list.h:7-9 | on a ring, next and prev of every node undo each other |
| List.LinkRing | include/kernel/list.h:22-35 | list_add_tail lengthens the ring by the new node behind the last and changes no byte but links |
| List.UnlinkRing | include/kernel/list.h:37-48 | list_del of any node but the head leaves the ring of the others and NULL links in the node |
| List.InitListHead | include/kernel/list.h:16-20 | makes a ring of one |
| List.ListAddTail | include/kernel/list.h:32-35 | the code establishes the longer ring |
| List.ListDel | include/kernel/list.h:43-48 | the code establishes the shorter ring |
| List.ListEmpty | include/kernel/list.h:50-53 | true exactly for the ring of the head alone |
| IpcImage.NodesUnshared | kernel/src/ipc/ipc.c:22-22 | no node is in two queues |
| IpcImage.Enqueued | kernel/src/ipc/ipc.c:45-49 | linking a filled node appends its message to its queue and changes no other queue |
| IpcImage.Dequeued | kernel/src/ipc/ipc.c:65-71 | unlinking the first node takes its message off the front, leaves it readable and changes no other queue |
| IpcImage.QueuesKept | kernel/src/ipc/ipc.c:16-22 | rings and messages survive whatever leaves their live blocks untouched |
| Ipc.Ipc.constructor | kernel/src/ipc/ipc.c:24-29 | 32 empty rings; nothing else is written |
| Ipc.Ipc.Send | kernel/src/ipc/ipc.c:31-54 | succeeds exactly for pids below 32 if a free block has 24 + size bytes rounded up to 8; then the new node has that extent and at most 24 bytes more, and exactly the message with the sender's pid, type and bytes goes to the end of its queue; otherwise no queue changes; other queues and owners are untouched |
| Ipc.Ipc.Receive | kernel/src/ipc/ipc.c:56-88 | the first message of the caller's queue is taken, its node freed, min(size, length) is returned and the message is delivered; of the buffer only so many bytes are written; other queues and owners are untouched |
| Ipc.Ipc.ProcessMessages | kernel/src/ipc/ipc.c:90-139 | the walk takes at most the first message, frees its node, and ends before it could follow the cleared links |
| IpcSteps.DeliverMeaning | kernel/src/ipc/ipc.c:73-80 | the caller finds the first bytes, the type and the sender, each unless a later store of the same call overwrote it |
| IpcSteps.DeliveredPlain | kernel/src/ipc/ipc.c:73-80 | the same for each of the three stores, by addresses |
| SandboxTable.FullTable | kernel/src/sandbox/sandbox.c:18-44 | no slot is unused exactly when the count is the table size, so the fall-through return of sandbox_create is unreachable |
| SandboxTable.MaskIsBits | kernel/src/sandbox/sandbox.c:86-86 | the mask test holds exactly when every required bit is held |
| SandboxTable.CapabilityHistory | kernel/src/sandbox/sandbox.c:62-87 | a permission check succeeds exactly when the slot is in use and each required bit was granted last, not revoked, since its latest creation |
| SandboxTable.ReusedSlotIsBare | kernel/src/sandbox/sandbox.c:25-27 | a newly created sandbox has no right, whatever its slot held before |
| SandboxTable.CountHistory | kernel/src/sandbox/sandbox.c:28-56 | the number of used slots is creations minus destructions |
| Sandbox.PagesDisjoint | kernel/src/sandbox/sandbox.c:31-31 | the pages of two sandboxes share no byte |
| Sandbox.Sandboxes.constructor | kernel/src/sandbox/sandbox.c:9-15 | no slot is used |
| Sandbox.Sandboxes.Create | kernel/src/sandbox/sandbox.c:17-45 | succeeds exactly if one of the 32 slots is unused and a free block has 4096 bytes; takes the lowest unused slot with a live page; otherwise used slots and count are as before |
| Sandbox.Sandboxes.Destroy | kernel/src/sandbox/sandbox.c:47-60 | frees exactly the page of a used slot, and refuses anything else |
| Sandbox.Sandboxes.Grant | kernel/src/sandbox/sandbox.c:62-69 | adds the rights to a used slot only |
| Sandbox.Sandboxes.Revoke | kernel/src/sandbox/sandbox.c:71-78 | removes the rights from a used slot only |
| Sandbox.Sandboxes.AllocFor | kernel/src/sandbox/sandbox.c:90-102 | allocates for a sandbox that holds right 0x08, nothing otherwise |
| Sandbox.Sandboxes.Syscall | kernel/src/sandbox/sandbox.c:105-126 | 0 exactly for call 1 by a sandbox that holds rights 0x10 and 0x20 |
| Registry.StrNCpy | kernel/include/string.h:12-12 | the characters up to the NUL, then NULs, as ISO C 7.24.2.4 has it |
| Registry.StrEqual | kernel/include/string.h:13-13 | strcmp is zero exactly for equal strings |
| Registry.LastWriterWins | kernel/src/interfaces/registry.c:25-43 | looking up in the list of all registrations is looking up in the map they stand for |
| Registry.KeptNamesAreShort | kernel/src/interfaces/registry.c:23-24 | every name kept in the registry has at most 31 characters |
| Registry.LongNamesAreCut | kernel/src/interfaces/registry.c:23-43 | in a registry as the code keeps it, the new interface is found under its own name if and only if the name has at most 31 characters; a longer name finds nothing, its first 31 characters find the interface |
| Registry.ThirtyTwoLetters | kernel/src/interfaces/registry.c:23-43 | a name of 32 letters is not found after its registration, its first 31 letters are |
| Registry.Interfaces.Register | kernel/src/interfaces/registry.c:14-30 | puts the binding of the cut name in front, in a new block of 40 to 64 bytes, exactly if a free block has 40 bytes, or changes nothing; afterwards the name is found if and only if it has at most 31 characters |
| Registry.Interfaces.Get | kernel/src/interfaces/registry.c:32-43 | the first binding of the name, NULL if there is none |
| Registry.Interfaces.Exists | kernel/src/interfaces/registry.c:45-47 | true exactly when something is registered under the name |
| Loader.CheckHeader | kernel/src/modules/loader.c:13-26 | true exactly for magic 0x464C457F, type 2 and machine 3 at offsets 0, 16 and 18 |
| Loader.LoadSegment | kernel/src/modules/loader.c:30-42 | one segment gets a new live block with its file bytes and zeros up to its memory size |
| Loader.LoadElf | kernel/src/modules/loader.c:8-46 | an image with another magic, type or machine fails and leaves the heap as it was; otherwise each PT_LOAD header dealt with has a new block of its own, with the file bytes from its offset and zeros up to its memory size, and there are no other new blocks; the load succeeds exactly if all headers are dealt with, and returns the word at 24; else the next header is a PT_LOAD one of memory size 0 or larger than any free block; the outcome is also determined by image and heap before the call; nothing else changes |
| Loader.HeadersDone | kernel/src/modules/loader.c:28-43 | what the loop has done is what the program headers ask for, header by header |
| Loader.LoadDecided | kernel/src/modules/loader.c:28-43 | stopping at the first NULL gives the grants, and the outcome, that the heap and the sizes alone determine |
| Loader.RoomSuffices | kernel/src/mm/mm.c:90-117 | any sequence of requests succeeds if the statistics show enough free bytes for each, whatever the earlier grants take |
| Loader.LoadsWithRoom | kernel/src/modules/loader.c:28-43 | an accepted image with that many free bytes is loaded |
| Loader.SampleBesideHeap | kernel/src/modules/loader.c:13-30 | the file of the next two rows may lie below a heap that init_heap has just set up |
| Loader.EmptySegmentFails | kernel/src/modules/loader.c:30-34 | a file whose only PT_LOAD segment is empty is accepted by the header checks and never loaded, on any heap and whatever else memory holds |
| Loader.FailedLoadLeaks | kernel/src/modules/loader.c:30-34 | a file with a segment of 8 bytes and an empty one fails on every new heap with room, whatever else memory holds, and the first block stays live |
| System.GrantsKeep | kernel/src/mm/mm.c:82-120 | a grant to any owner keeps the heap invariant and gives a block nobody owned |
| SystemRuns.StepKeepsInv | kernel/src/ipc/ipc.c:31-139 | every call keeps the system invariant: heap, one owner per live block, one node per message, one page per sandbox, one entry per binding |
| SystemRuns.RunKeepsSysInv | kernel/src/mm/mm.c:82-143 | the system invariant holds throughout every run |
| SystemRuns.OnlyOwnerReleases | kernel/src/mm/mm.c:122-143 | a block never changes hands and becomes free only by its owner's release step |
| SystemRuns.OwnersDisjoint | kernel/src/mm/mm.c:103-113 | payloads of different blocks never overlap |
| SystemRuns.PayloadStable | kernel/src/mm/mm.c:82-143 | over any run in which nobody writes or releases it, a block keeps its owner and every byte |
| SystemRuns.MessagesConserved | kernel/src/ipc/ipc.c:31-139 | over any run, what was queued and sent is what was taken, in order, followed by what is still queued |
| SystemRuns.TakenIsSent | kernel/src/ipc/ipc.c:31-139 | from empty queues, the messages taken are a prefix of the messages sent |
| SystemRuns.MatchingSend | kernel/src/ipc/ipc.c:34-83 | every message received comes from one earlier send to that process, in order, with the sender's pid, type and bytes, whatever happened in between |
| SystemRuns.TableFollowsLog | kernel/src/sandbox/sandbox.c:17-78 | in every run the sandbox table is the one its history stands for |
| SystemRuns.PermissionsInRuns | kernel/src/sandbox/sandbox.c:80-87 | in every run, for any slot and any mask, the permission check succeeds exactly when the slot is in use and each required right was granted last since its creation |
| SystemRuns.SyscallGate | kernel/src/sandbox/sandbox.c:105-126 | in every run sandbox_syscall returns 0 exactly for call 1 by a sandbox that holds rights 0x10 and 0x20 by its history |
| SystemRuns.RegistryIsMap | kernel/src/interfaces/registry.c:14-43 | in every run a lookup gives the latest successful registration of that name, NULL if none |
| SystemRuns.LongNamesNeverFound | kernel/src/interfaces/registry.c:23-43 | in every run a lookup of a name of 32 or more characters gives NULL |
| SystemRuns.FailsOnlyWhenFull | kernel/src/mm/mm.c:98-101 | the success guarantee in every run of the whole system, for every call that asks for memory (kmalloc, send, sandbox_create, sandbox_alloc, register, load), with the number of owned blocks |
| SystemRuns.HeapInEveryRun | kernel/src/mm/mm.c:82-143 | in every run of the whole system at most one adjacent free pair, and exact statistics |
| SystemRuns.FrontWasSent | kernel/src/ipc/ipc.c:34-83 | in every state reached from boot the message at the front of a queue is that of the send with as many sends before it as messages have been taken |
| Kernel.Kernel.constructor | kernel/src/kernel.c:45-51 | after boot the system invariant holds with empty queues, table and registry, on fresh kernel objects; memory size, start and end of the heap are those of the multiboot record and the kernel end; static memory beside the list heads stays |
| Kernel.Kernel.Kmalloc | kernel/src/mm/mm.c:82-120 | an outside kmalloc is a step of the system, which fails and grants by the law of the allocator; static memory beside the list heads stays |
| Kernel.Kernel.Kfree | kernel/src/mm/mm.c:122-143 | an outside kfree is a step of the system, and static memory beside the list heads stays |
| Kernel.Kernel.IpcSend | kernel/src/ipc/ipc.c:31-54 | ipc_send is a step of the system, and succeeds exactly for pids below 32 if a free block has 24 + size bytes rounded up to 8; static memory beside the list heads stays |
| Kernel.Kernel.IpcReceive | kernel/src/ipc/ipc.c:56-88 | ipc_receive is a step of the system, and the caller finds sender, type and first bytes of one earlier successful ipc_send to this process in the history, the one with the same ordinal; all other bytes of static memory and of blocks other than queue nodes stay |
| Kernel.Kernel.IpcProcess | kernel/src/ipc/ipc.c:90-139 | ipc_process_messages is a step of the system, and static memory beside the list heads stays |
| Kernel.Kernel.SandboxCreate | kernel/src/sandbox/sandbox.c:17-45 | sandbox_create is a step of the system, and succeeds exactly if one of the 32 slots is unused and a free block has 4096 bytes; every used slot has a live block of 4096 bytes; static memory beside the list heads stays |
| Kernel.Kernel.SandboxDestroy | kernel/src/sandbox/sandbox.c:47-60 | sandbox_destroy is a step of the system, and static memory beside the list heads stays |
| Kernel.Kernel.SandboxGrant | kernel/src/sandbox/sandbox.c:62-69 | sandbox_grant_capability is a step of the system |
| Kernel.Kernel.SandboxRevoke | kernel/src/sandbox/sandbox.c:71-78 | sandbox_revoke_capability is a step of the system |
| Kernel.Kernel.SandboxAlloc | kernel/src/sandbox/sandbox.c:90-102 | sandbox_alloc is a step of the system, and allocates exactly for a sandbox that holds right 0x08 by the history, if a free block suffices; static memory beside the list heads stays |
| Kernel.Kernel.SandboxCheckPermission | kernel/src/sandbox/sandbox.c:80-87 | true exactly if the slot is in use and each required right was granted last by the history of calls |
| Kernel.Kernel.SandboxSyscall | kernel/src/sandbox/sandbox.c:105-126 | sandbox_syscall is a step of the system, and returns 0 exactly for call 1 by a sandbox that holds rights 0x10 and 0x20 by the history of calls |
| Kernel.Kernel.InterfaceRegister | kernel/src/interfaces/registry.c:14-30 | interface_register is a step of the system that adds an entry exactly if a free block has 40 bytes, or changes nothing for NULL arguments; static memory beside the list heads stays |
| Kernel.Kernel.InterfaceGet | kernel/src/interfaces/registry.c:32-43 | interface_get is a step of the system, and returns the latest interface registered under the name in the history of calls, NULL if none or if the name has 32 or more characters |
| Kernel.Kernel.InterfaceExists | kernel/src/interfaces/registry.c:45-47 | true exactly if something has been registered under the name in the history of calls |
| Kernel.Kernel.LoadModule | kernel/src/modules/loader.c:8-46 | load_elf_module is a step of the system; header by header the PT_LOAD segments have blocks with their bytes, as for LoadElf; success, failure and the blocks left are determined by image and heap before the call; static memory beside the list heads stays |

## Left out

- Printing: all `printk` output, including the log line of `ipc_receive` that reads the node after `kfree`, and the type switch of `ipc_process_messages`.
- Hardware: serial ports, port I/O, interrupt controllers and tables, boot assembly, disk drivers and text output.
- `kernel/src/modules/manager.c`, and the call of a loaded module's entry point or `init`: foreign code.
- `strncpy` and `strcmp`: declared without bodies in the repository, so their source is not part of this model, which follows ISO C 7.24.
- Scheduler, paging, performance manager, manifest parser, multiboot loader: declarations or stubs.
- Misuse the code does not detect: double release, forged pointers with a valid magic, message sizes that wrap 32 bits, a second initialization.
- `tools/os-builder.c` and the scripts: file I/O with no reader in the kernel.
