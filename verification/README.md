# YAX: memory, scheduling and message passing

YAX is a small x86 kernel. This project models the parts of it whose state is hardest to keep in mind and proves what
they are relied on for, for all inputs, all runs and all interleavings:

| module | models | says |
|---|---|---|
| `HeapLayout`, `Payloads`, `Liballoc`, `HeapClients` | the kernel heap, `src/mem/malloc.c` | headers linked in the memory they describe; every call keeps the layout and the accounts; over any run each caller's block behaves like an array of its own |
| `Semaphores`, `Ring`, `Multitask` | processes and semaphores, `src/multitask.c` | linked processes and waiters refine a scheduler on values, interrupts in the gap before a switch included; bounded waiting; no wakeup is lost; which signals wake too early |
| `PipeBuffer`, `PipeProtocol`, `PipeMachine` | pipes, `src/fs/pipe.c` | a circular buffer refines a queue; reader and writer in any interleaving, on the queue and on the buffer itself |
| `CopyOnWrite` | address spaces, `src/mem/virt.c` | page by page, sharing frames copy-on-write cannot be told from private copies as long as every fork found the page isolating; which pages are private after a fork, exactly |
| `Frames`, `FrameRaces`, `PageMap`, `PageTables` | `src/mem/phys.c`, `src/mem/user.c`, `src/mem/pgdir.c` | lists inside free memory refine a set, calls that overlap do not, a radix trie refines a map, two-level tables refine a flat map |
| `Wire`, `MountServer`, `MountProtocol` | the mount RPC, `src/fs/mnt.c`, `libyaxfs/serve.c`, `libcodas/include/codas/bit.h` | the wire format, the resumable encoder, and many clients against one server in any interleaving, the server's steps on its linked chain |
| `PathName`, `Argv`, `Strtoll` | `src/fs/name.c`, `libc/execve.c`, `libc/_YALCmain.c`, `libc/strtoll.c` | in-place text transformations against independent specifications |

`Basics` holds what they share.

Where the source changes memory in place, the model is a class with the same fields: addresses are integers, and the
headers, links and page contents found at them are maps from addresses. A ghost field or function gives the abstract
value, and each method's contract ties the new abstract value to the old one. Where the source is a protocol between
processes, the model is a step relation: a critical section is one step, and every process can be preempted between any
two steps. In `Ring` and `Multitask` a process that blocks or exits leaves the ring in one step and gives up the
processor in another, with room for interrupts between the two. What the kernel gets from outside is a parameter: the
page source's answer (`grant`), the frame and the object the allocators would hand out, the contents a page is filled
with.

## Surprises

Places where the code does something else than one would expect. The model does what the code does; the members named
here say exactly when.

- A fork shares untouched writeable demand pages, so parent and child then see each other's writes
  (`CopyOnWrite.ForkIsolatesIff`, `CopyOnWrite.SharedPageLeaks`). Other pages are not affected
  (`CopyOnWrite.SharingIsInvisible`), and a page that was shared can be alone again after another fork, because that
  takes the right to write in place from it (`CopyOnWrite.ForkAloneIff`, `CopyOnWrite.AloneAgain`).
- Unmapping a page that was never used leaves it mapped (`CopyOnWrite.UnmapShows`).
- The reverse map holds a reference of its own, so unmapping the last mapping frees no frame
  (`CopyOnWrite.UnmapFreesNothing`).
- A store that breaks the sharing of a page leaves the shared Page with a reference that nobody holds, and so does
  mapping over a page that was never used; no other step loses one (`CopyOnWrite.StepSlack`).
- Freeing a page that is free already leaves words that are no lists any more (`Frames.FreeIff`).
- Reserving the last page of a region loses the regions behind it, or leaves a link into memory that is not free,
  unless the next region starts right behind the page (`Frames.ReserveIff`).
- The third field of a message is guarded by a room test of one byte, so a read with one to three bytes left there
  writes past its buffer (`Wire.StaysInsideIff`).
- A write that fills a pipe does not return before the reader takes something (`PipeProtocol.FullWriteWaits`), and
  what a write returns is the size of its last round, which is 0 (`PipeProtocol.WriteDelivers`). A read waits for a byte
  even when none is asked for (`PipeProtocol.WaitsIff`).
- A semaphore's signal wakes a waiter without looking at how much is missing. Only the last waiter that a signal wakes
  can come away without its units, and in a run everything granted was there to grant iff no signal wakes for more than
  it brings and what is to spare (`Semaphores.OnlyLastUncovered`, `Semaphores.GrantsCoveredIff`,
  `Semaphores.EarlyWake`); in a pipe the debt is always covered (`PipeProtocol.WakesAreCovered`). The waiter that came
  last is woken first, so one can wait for ever while others come and go (`Semaphores.NeverItsTurn`).
- A blocked process leaves the ring in one critical section and switches in another. An interrupt between the two that
  wakes somebody follows the links from the current process, which no link leads back to, and never ends; so does
  anything that wants the lock while an exit holds it, because the exit takes it with interrupts on although the comment
  above it shows a `cli` (`Ring.HungIff`, `Ring.InterruptInTheGap`, `Multitask.WalkEndsIff`). An exit can do that to
  itself: it drops its descriptors with the lock held, and the last one of a pipe signals (src/fs/pipe.c:67-68) while
  the last one of a mounted connection waits (src/fs/mnt.c:45 and 204) (`Ring.ExitHangsItself`).
- Two allocations of frames hand out the same one iff each reads the root before the other writes it
  (`FrameRaces.RaceIff`); no lock keeps them apart. A free that takes the shared window from an allocation leaves the
  frame just handed out first on the list (`FrameRaces.FreeInTheWindow`).
- A first read of a message with room for less than four bytes delivers nothing and loses the message, and its client
  never returns (`MountProtocol.LostIff`, `MountProtocol.LostForever`); a continued read returns how far the message has
  got and not how much of it was read (`MountServer.Server.Read`).
- A program that is given no arguments, or no environment, faults before its `main` (`Argv.Exec`).
- Behind a working directory that ends in a slash or has an empty component, relative names keep an empty component
  (`PathName.RelativeIff`), and `chdir("x")` from the root already leaves such a one, "//x" (`PathName.FromTheRoot`).
  ".." pops the empty component instead of a directory (`PathName.ParentIff`).
- Blanks behind the last argument of a string make an empty argument more (`Argv.TokensOfSpaced`).
- A token's buffer has no room for its terminator unless a quote in it was doubled (`Argv.TokenFitsIff`,
  `Argv.LetterOverruns`). The stray byte still falls into the block that the heap gave (`Payloads.OneByteBehind`).
- `strtoll` has no upper bound on decimal digits, so in bases above 10 it takes ':' to '@' for the digits ten to
  sixteen, as far as the base reaches (`Strtoll.AgreesIff`, `Strtoll.ColonIsTen`). It reports ERANGE for exactly -2^63
  although the value it returns is right, takes the prefix "0x" even when no hexadecimal digit follows, and on overflow
  leaves the end pointer at the digit that was too much (`Strtoll.Strtoll`; compare section 7.22.1.4 of
  ISO/IEC 9899:2011). A sign with nothing behind it counts as read (`Strtoll.LoneSign`).
- `pgfind` adds in 32 bits; a result that does not end below the limit was never checked
  (`PageTables.Tables.Find`).
- `realloc` copies through null when a growing request is refused (`Liballoc.Heap.Realloc`).

## Model

| member | source | states |
|---|---|---|
| Payloads.UnalignRecovers | src/mem/malloc.c:21-45 | for every live allocation the distance stored below the aligned pointer leads back to its header |
| Payloads.PayloadsAreSafe | src/mem/malloc.c:21-45 | a live payload is 16-aligned, as large as requested, inside its major, and clear of every header and of every other payload |
| Payloads.WritesStayInside | src/mem/malloc.c:21-45 | writing anywhere inside one allocation's extent changes no byte and no stored distance of any other allocation |
| HeapLayout.Extents | src/mem/malloc.c:60-86 | headers and bytes of two allocations never overlap, also across majors |
| HeapLayout.InsertKeepsLayout | src/mem/malloc.c:346-560 | a minor put into a gap that is large enough keeps all links, orders and usages of the heap and adds exactly one allocation |
| HeapLayout.RemoveKeepsLayout | src/mem/malloc.c:593-716 | taking a minor out keeps the layout and removes exactly that allocation |
| HeapLayout.AppendKeepsLayout | src/mem/malloc.c:184-234 | a fresh block joins the list of majors, empty, and the layout holds |
| HeapLayout.DropKeepsLayout | src/mem/malloc.c:593-716 | giving an empty major back keeps the layout of all others |
| HeapLayout.InsertTotals | src/mem/malloc.c:92-95 | the true sum of sizes in use grows by exactly the new minor, and the capacity does not change |
| Liballoc.FullMajor | src/mem/malloc.c:312-583 | a major without a fitting gap leads on to the next, once back to the root, or to a page request made only when no major has room |
| Liballoc.FoundMajor | src/mem/malloc.c:312-583 | when a gap is found, pages were asked for iff no existing gap fitted |
| Liballoc.PagesFor | src/mem/malloc.c:186-202 | the least number of pages, of 16 or more, that hold the request and both headers |
| Liballoc.Heap.AllocateNewPage | src/mem/malloc.c:184-234 | an empty, unlinked major of that many pages at the page source's address, and the account of held memory grows by it; on its null answer nothing changes |
| Liballoc.Heap.ScanMinors | src/mem/malloc.c:420-560 | finds the first gap of a major that is large enough, null iff there is none |
| Liballoc.Heap.Search | src/mem/malloc.c:312-583 | terminates through best-bet restart and extension; null iff no gap fits anywhere and the page source refuses |
| Liballoc.Heap.Malloc | src/mem/malloc.c:240-583 | keeps links, orders, usages, totals and best bet; asks for pages iff no gap fits; null iff it asked and was refused, with all headers, accounts and bytes as they were (only the best bet, a hint, may have moved); otherwise a new aligned live pointer, whose block takes what was asked for plus the slack and no more, in the first gap that fits of the first major that has one, from the best bet or the root on; the bytes in use grow by that, the best bet has the most free bytes of the majors looked at, and every other allocation is as it was |
| Liballoc.Heap.Free | src/mem/malloc.c:593-716 | exactly the given allocation goes, all other contents stay, the bytes in use drop by its size; the major goes back iff it became empty; the best bet goes with its major and gives way to a major that now has more free bytes; all invariants hold again |
| Liballoc.Heap.Memcpy | src/mem/malloc.c:114-137 | word by word and then byte by byte, exactly the n bytes are copied |
| Liballoc.Heap.Realloc | src/mem/malloc.c:738-827 | size 0 frees, null allocates, shrinking stays in place, growing moves the old bytes to a new allocation and releases the old one; a refused growth faults exactly if there were bytes to copy; the bytes in use and the majors held follow each case |
| HeapClients.Owners.Allocate | src/mem/malloc.c:240-583 | a new owner gets an array of the size asked for and everybody else's is untouched; refused iff no gap of any major takes the request and the page source answers null |
| HeapClients.Owners.Release | src/mem/malloc.c:593-716 | exactly the owner's array goes |
| HeapClients.Owners.Put | src/mem/malloc.c:593-716 | a store through an owner's pointer changes that element of that array and nothing else |
| HeapClients.Owners.Resize | src/mem/malloc.c:738-827 | shrinking keeps the front of the array, growing keeps all of it as the front of the new one, nobody else's changes; it faults iff a growth of an array with bytes in it is refused |
| HeapClients.Owners.Run | src/mem/malloc.c:240-827 | over any run of calls, with a given answer of the page source for each, each call changes its own owner's array as it should and nobody else's, is refused exactly if no gap fits and its answer is null, and the run ends early exactly at the fault of a refused growth; at every point the bytes in use are the sum of what the live blocks were allocated for, plus the slack of each |
| Semaphores.NoWakeupLost | src/multitask.c:156-223 | with unit waits, after any sequence of waits and signals exactly as many waits have completed as there were units for, and the chain is as long as the debt |
| Semaphores.OnlyLastUncovered | src/multitask.c:191-223 | of the waiters a signal wakes, with requests of any size, only the last can lack units, and it does iff what all of them asked for exceeds the signal by more than was to spare |
| Semaphores.SpareIsLeft | src/multitask.c:156-223 | over all runs, the units nobody has taken are those there were at first plus those signalled minus those granted to waits that went through or were woken |
| Semaphores.GrantsCoveredIff | src/multitask.c:156-223 | over all runs with requests of any size, everything granted was there to grant at every point iff no signal of the run wakes for more than it brings and what is to spare |
| Semaphores.EarlyWake | src/multitask.c:195-221 | such an input: a waiter for five units is woken although one is still missing |
| Semaphores.LastComeFirst | src/multitask.c:156-223 | the waiter that came last is the first that the next signal wakes |
| Semaphores.NeverItsTurn | src/multitask.c:156-223 | over runs of any length, signalled as many units as one likes, a waiter stays where it is if another comes before each signal |
| Ring.StepKeepsOk | src/multitask.c:120-330 | every step, of a process or of an interrupt, also between unhooking and switching, keeps one simple cycle through the idle process, with each waiter off it and on exactly one chain, once; and a step hangs the kernel iff it wants the lock an exit holds, or wakes somebody while the current process is off the ring |
| Ring.Population | src/multitask.c:120-330 | no step loses or invents a process: who is ready or waiting stays so, except for the child of a fork and an exited process at its last switch |
| Ring.IdleOnlyWhenAlone | src/multitask.c:126-131 | a switch chooses the idle process only when it is alone on the ring |
| Ring.Closer | src/multitask.c:120-147 | the ring distance of a ready process drops at every switch, grows by exactly one per fork, and does not move otherwise |
| Ring.WokenRunLast | src/multitask.c:191-223 | the i-th waiter that a signal wakes runs after all who are ready and after the i that are woken before it |
| Ring.RunKeepsOk | src/multitask.c:120-330 | the ring and chain invariant over all runs, with interrupts in the gaps |
| Ring.HungIff | src/multitask.c:185-306 | over all runs, the kernel spins for ever iff the last step wanted the lock that an exit holds, be it the exit itself, or woke somebody between the unhooking and the switch of the current process |
| Ring.InterruptInTheGap | src/fs/iofs.c:25-32 | such a run: process 1 blocks, and before it switches an interrupt signals the semaphore of process 2 |
| Ring.ExitHangsItself | src/multitask.c:303-306 | any signal or wait that an exit makes while it holds the lock hangs the kernel, without an interrupt |
| Ring.BoundedWaiting | src/multitask.c:120-330 | over all runs, the switches a ready process waits for are at most its distance plus the number of forks meanwhile |
| Ring.RunKeepsUnits | src/multitask.c:161-223 | over all runs, until the kernel hangs, a semaphore used with unit waits has as many waiters as it owes units |
| Multitask.Kernel.constructor | src/multitask.c:72-98 | the idle process alone on the ring |
| Multitask.Kernel.FindPrev | src/multitask.c:54-59 | the walk around the cycle ends at the predecessor |
| Multitask.WalkEndsIff | src/multitask.c:207-209 | following links from the current process leads back to it iff it is on the ring |
| Multitask.Kernel.ComesBack | src/multitask.c:207-209 | the walk of a signal, which tells by the number of links followed that it will not end |
| Multitask.Kernel.SwitchGut | src/multitask.c:120-147 | the successor becomes current, passing over the idle process unless it is alone |
| Multitask.Kernel.Switch | src/multitask.c:120-147 | the linked ring takes the specification's yield step, for a process on the ring or off it; it spins iff the lock is held by an exit |
| Multitask.Kernel.SemWait | src/multitask.c:161-187 | the critical section: links, counters and blocked fields take the specification's wait step, which leaves the process current and off the ring iff it blocks, and spins iff an exit holds the lock; the switch is a call of its own |
| Multitask.Kernel.SemSignal | src/multitask.c:191-223 | from a process or an interrupt, whether the current process is on the ring or not, the loop over the waiter chain takes the specification's signal step: woken processes go just before the current one, or the walk for that place never ends |
| Multitask.Kernel.ProcFork | src/multitask.c:228-281 | a new process goes right behind its parent |
| Multitask.Kernel.ProcExit | src/multitask.c:298-303 | an exit takes the lock with interrupts on |
| Multitask.Kernel.ExitUnhook | src/multitask.c:304-326 | the current process leaves the ring and gives the lock back; the switch that makes it vanish is a step of its own |
| PipeBuffer.TakenPieces | src/fs/pipe.c:92-96 | the two pieces copied out are the front of the queue, and moving `begin` leaves its rest |
| PipeBuffer.PutPieces | src/fs/pipe.c:116-119 | the two pieces copied in extend the queue at its back |
| PipeBuffer.Buf.TakeOut | src/fs/pipe.c:88-97 | the buffer refines taking n bytes from a queue, and nothing behind them in the destination changes |
| PipeBuffer.Buf.PutIn | src/fs/pipe.c:112-120 | the buffer refines adding n bytes to a queue |
| PipeProtocol.DoKeepsInv | src/fs/pipe.c:81-125 | every step of either process keeps the conservation of units, the waiter chains, the lock and the byte history |
| PipeProtocol.PipeIsFifo | src/fs/pipe.c:81-125 | in every interleaving the bytes read and then the bytes in the buffer are the bytes written; the buffer never overflows; units are conserved |
| PipeProtocol.WakesAreCovered | src/multitask.c:191-223 | whoever a pipe's signal wakes finds the counter at zero or above |
| PipeProtocol.TransferSizes | src/fs/pipe.c:88-114 | a read moves as much as was asked for or all that is there, and a round of a write all that is left or all the room there is; nothing iff nothing was asked for |
| PipeProtocol.WaitsIff | src/fs/pipe.c:84-109 | a read waits iff there is no byte that was signalled, whatever it asks for; a round of a write iff there is no empty place that was signalled |
| PipeProtocol.ReadMoves | src/fs/pipe.c:87-97 | in every interleaving, once a read has the lock, what it adds to the bytes read is exactly that many from the front of the queue as it was then |
| PipeProtocol.StandsStill | src/fs/pipe.c:81-125 | nothing can move iff both are idle, or the reader waits at an empty pipe, or the writer at a full one, the other being idle: never both stuck, never stuck inside the lock |
| PipeProtocol.WriteDelivers | src/fs/pipe.c:101-125 | when a write returns, all its bytes are in the pipe behind everything written before, and the size of its last round, which it returns, is 0 |
| PipeProtocol.FullWriteWaits | src/fs/pipe.c:107-109 | the last loop test waits for one empty place, and blocks iff there is none |
| PipeMachine.Machine.ReadStep | src/fs/pipe.c:81-99 | each step of a read on the circular buffer and its counters is the step of the protocol on the queue |
| PipeMachine.Machine.WriteStep | src/fs/pipe.c:101-125 | the same for each step of a write |
| PipeMachine.Machine.Run | src/fs/pipe.c:81-125 | in every interleaving the bytes copied out and then the bytes that the circular buffer holds from `begin`, around its end, are the bytes written, and every run is one of the protocol |
| CopyOnWrite.CopyShape | src/mem/virt.c:196-247 | copying changes exactly the copied entries of the two spaces, and beside them only reference counts |
| CopyOnWrite.ForkShows | src/mem/virt.c:178-250 | a fork changes what no space sees, and the child sees what the parent sees |
| CopyOnWrite.ForkIsolatesIff | src/mem/virt.c:178-250 | after a fork no page is writeable in place in one space and mapped in another iff every page copied was isolating |
| CopyOnWrite.ForkAloneIff | src/mem/virt.c:178-250 | for each page copied, in the parent and in the child: it shares its frame with nobody who can write it in place, nor can itself, iff its entry was isolating and no other space could write it in place before |
| CopyOnWrite.AloneAgain | src/mem/virt.c:220-232 | such a page: shared in place before the fork, alone after it |
| CopyOnWrite.SharedPageLeaks | src/mem/virt.c:197-211 | through any page that is not isolating the parent reads what the child wrote |
| CopyOnWrite.EnsureShows | src/mem/virt.c:262-313 | a page fault changes what no space sees |
| CopyOnWrite.EnsureRefusesIff | src/mem/virt.c:262-313 | a page fault is refused iff nothing is mapped or a page in use is to be written that the space may not write; a page in use is left as it is, or gets the new frame if its sharing is broken |
| CopyOnWrite.EnsureClash | src/mem/virt.c:262-313 | a page fault makes no two pages share what one of them can write in place, whatever is shared elsewhere |
| CopyOnWrite.EnsureGrants | src/mem/virt.c:262-313 | after a write fault the page is writeable iff the space may write it |
| CopyOnWrite.WriteShows | src/mem/virt.c:262-289 | a store in place shows at exactly the pages that share the frame, in every state |
| CopyOnWrite.SharingIsInvisible | src/mem/virt.c:178-289 | over all runs with any tree of any forks, every load and store at a page that is still private is answered as private full copies would answer it, whatever is shared at other pages and done there; a fork takes from the private pages only the copied ones that are not isolating, an unmapping only a page that was never used |
| CopyOnWrite.SeparateAnswers | src/mem/virt.c:178-289 | with isolating forks alone, all answers of the run are those of private copies |
| CopyOnWrite.NoShareStays | src/mem/virt.c:178-313 | whether a page may be shared is what its map call said, through every step, every use and in every child of every fork |
| CopyOnWrite.GuardedStep | src/mem/virt.c:196-247 | a page in use that is not to be shared stays private through every step but its unmapping, and a fork gives the child such a page |
| CopyOnWrite.NoShareIsPrivate | src/mem/virt.c:50-113 | from the map call alone: a page mapped as not to be shared and used once stays private over all runs that do not unmap it, whatever forks there are, sharing memory or not |
| CopyOnWrite.StepSlack | src/mem/virt.c:152-313 | every step accounts for each reference of each Page, but for the one that a broken sharing leaves, and the one of an untouched page that is mapped over |
| CopyOnWrite.MappedTwice | src/mem/user.c:30-58 | a mapped Page is referenced at least twice |
| CopyOnWrite.UnmapFreesNothing | src/mem/virt.c:152-166 | unmapping a page changes one entry and never reaches the branch that frees a frame |
| CopyOnWrite.UnmapShows | src/mem/virt.c:152-166 | unmapping takes a present page from one space and from no other |
| CopyOnWrite.SkipEmpty | src/mem/virt.c:185-186 | skipping an absent page table copies what copying it would |
| CopyOnWrite.Spaces.CopyOne | src/mem/virt.c:196-247 | the in-place round of the inner loop is one step of the specification |
| CopyOnWrite.Spaces.VpgCopy | src/mem/virt.c:178-250 | the nested loops over tables and entries compute the specified fork |
| CopyOnWrite.Spaces.EnsurePage | src/mem/virt.c:262-313 | the in-place fault handler computes the specified one, with the same refusals |
| Frames.SpliceHas | src/mem/phys.c:139-163 | cutting a page out of a region removes exactly that frame from the set |
| Frames.CutDescribes | src/mem/phys.c:143-163 | if the guard holds, the headers written spell lists again, of exactly the other frames |
| Frames.CutLoses | src/mem/phys.c:146-161 | otherwise no reading of the headers gives the frames that should be left |
| Frames.ReserveIff | src/mem/phys.c:139-163 | reserving a page of a region leaves well-formed lists of exactly the other frames iff it is not the region's last page or the next region follows it |
| Frames.Allocator.AddRegion | src/mem/phys.c:66-71 | exactly the frames of the region join the set |
| Frames.Allocator.Alloc | src/mem/phys.c:87-127 | exactly the returned frame, the first of the list of single pages or else of the regions, leaves the set; the halt happens iff it is empty |
| Frames.Allocator.Free | src/mem/phys.c:129-137 | exactly the freed frame joins the set, in front of the list |
| Frames.FreeIff | src/mem/phys.c:129-137 | after a free the words are lists again iff the page was not free already |
| Frames.Allocator.Reserve | src/mem/phys.c:139-185 | 0 iff the page was free, 1 with no change at all otherwise; exactly the page leaves the set under the guard |
| Frames.ServeDoes | src/mem/phys.c:87-185 | on the two lists, an allocation takes a free frame, a free gives a frame that was not free, and a reservation takes its page iff that is free; the lists stay proper |
| Frames.NeverHandedOutTwice | src/mem/phys.c:87-185 | in every run of such calls a frame is given back between any two hand-outs of it |
| Frames.RunCalls | src/mem/phys.c:87-185 | any run of calls over a real allocator does exactly that, call by call, and ends early exactly at an allocation without memory, a free of a free page, or a reservation outside the guard; so no frame is handed out twice without being given back |
| FrameRaces.RaceIff | src/mem/phys.c:87-127 | two allocations of single steps in any order, from either list, with the window shared: once both are done they have the same frame iff each read the root before the other one wrote it |
| FrameRaces.FreeInTheWindow | src/mem/phys.c:93-137 | a free between the mapping and the reading of an allocation leaves the frame handed out first on the list |
| FrameRaces.AllocAlone | src/mem/phys.c:87-127 | with nobody in between, the single steps of an allocation hand out the frame, and leave the lists, that the whole allocation does |
| FrameRaces.FreeAlone | src/mem/phys.c:129-137 | and so for a free |
| PageMap.GrowKeeps | src/mem/user.c:41-44 | hanging an empty node into an empty slot changes no lookup |
| PageMap.SetLookup | src/mem/user.c:45-54 | writing the leaf of a frame changes the lookup of that frame and of no other |
| PageMap.Pmap.PmapGet | src/mem/user.c:13-28 | the walk over the address's nibbles returns the map's value at the frame |
| PageMap.Pmap.PmapSet | src/mem/user.c:30-58 | get after set is the new Page at this frame and the old one everywhere else, through new nodes too; the new Page's count goes up by one, the old one's goes down by one only if there is a new one, and no other count changes |
| PageMap.Pmap.PmapDel | src/mem/user.c:60-63 | the frame has no Page afterwards, all others keep theirs, no reference is dropped |
| PageTables.Tables.Map | src/mem/pgdir.c:22-44 | one entry of the flat map changes; a directory entry that was present stays, and one that was not gets the frame handed out for the table, present, writeable and for users |
| PageTables.Tables.Unmap | src/mem/pgdir.c:46-85 | one present entry is cleared and its address returned; a table goes iff all its entries are zero, and no other directory entry changes |
| PageTables.Tables.Find | src/mem/pgdir.c:87-109 | nothing below the result fits, zero iff nothing fits unless the sum wraps, and a result fits iff it ends below the limit |
| Wire.Word32 | libcodas/include/codas/bit.h:7-15 | four bytes give the number back modulo 2^32, whatever follows |
| Wire.Int64Returns | libcodas/include/codas/bit.h:7-15 | eight bytes give a signed number back, negative ones included |
| Wire.Bytes64 | libcodas/include/codas/bit.h:12-15 | the i-th byte written is the i-th byte of the number, least byte first |
| Wire.FieldsAt | src/fs/mnt.c:86-155 | the fields of a message and their places: function, fid, sub-message, then length and buffer for each pointer wanted, then the offset |
| Wire.Recv | libyaxfs/serve.c:8-38 | every field of a message of at most 28 bytes is recovered, whatever lies behind it in the buffer |
| Wire.ReplyReturns | libyaxfs/serve.c:40-47 | the fid and the 64-bit result of a reply are read back as they were |
| Wire.EncodeScans | src/fs/mnt.c:86-155 | one read delivers exactly the next fields of the message that fit, and cuts none |
| Wire.StaysInsideIff | src/fs/mnt.c:94-110 | a read stays inside its buffer iff it does not meet the third field with one to three bytes left |
| Wire.Delivers | src/fs/mnt.c:86-155 | whatever its size, a read delivers the next piece up to a field; it is empty iff the next field does not fit, and the whole rest iff that fits or the read overruns |
| Wire.DeliveredWholeOnce | src/fs/mnt.c:86-155 | for any chunk sizes the pieces are the whole message, once, or a prefix of it if the chunks run out, which enough chunks of 8 or more cannot |
| MountServer.Server.Read | src/fs/mnt.c:94-155 | for any room, the in-place encoder delivers the next piece; the message joins the chain exactly with its last field; the result is the length of the piece iff it is a first and not empty one |
| MountServer.Server.Write | src/fs/mnt.c:157-177 | a reply takes the first message of its fid out of the chain and stores its result; any other length or fid is refused with no change |
| MountServer.Server.DeliverStep | src/fs/mnt.c:86-155 | the read on the linked chain is the delivering step of the protocol, with the same piece and the same chain |
| MountServer.Server.ReplyStep | src/fs/mnt.c:157-177 | the write on the linked chain is the answering step of the protocol: the same client, the same result, the same chain |
| MountProtocol.DoKeepsInv | src/fs/mnt.c:43-49 | every step of any client or of the server keeps the invariant that ties semaphores, slot, chain and processes together |
| MountProtocol.EveryCallOnce | src/fs/mnt.c:43-177 | in every interleaving, with reads of any size, a request reaches the server whole and at most once, and its client resumes after that, at most once, with the result of a reply that carried its own fid |
| MountProtocol.OneOwner | src/fs/mnt.c:43-49 | at most one client owns the message slot, and none while a message is being delivered from it |
| MountProtocol.ReplyMatches | src/fs/mnt.c:157-177 | a reply answers the client of its fid if its message was delivered and changes nothing otherwise |
| MountProtocol.SleepingServerIsNotNeeded | src/fs/mnt.c:43-93 | if the server sleeps and no client can move, every client is idle or waits for the answer to a message that was delivered, or lost by a short first read |
| MountProtocol.LostIff | src/fs/mnt.c:90-98 | a read loses its message iff it is the first one of it and has room for less than four bytes |
| MountProtocol.NothingLost | src/fs/mnt.c:90-98 | over all runs whose reads have room for four bytes, nothing is lost |
| MountProtocol.LostForever | src/fs/mnt.c:43-98 | over all runs, the client of a lost message never returns |
| PathName.ScanResolves | src/fs/name.c:63-86 | the backward scan over the buffer refines the component stack |
| PathName.AbsoluteIsClean | src/fs/name.c:50-89 | absolute names are cleaned as the stack specification says |
| PathName.CleanTwice | src/fs/name.c:50-89 | a cleaned name has no empty, "." or ".." component, and cleaning it again changes nothing |
| PathName.RelativeResolves | src/fs/name.c:56-86 | behind any working directory without "." and "..", relative names are resolved against its components as they stand, empty ones included |
| PathName.RelativeIff | src/fs/name.c:56-62 | behind any absolute working directory, all relative names resolve as specified iff it is canonical and does not end in a slash |
| PathName.ChdirsGo | src/fs/name.c:220-226 | any run of chdir keeps the working directory free of "." and "..", and if its relative names do not climb it leads to the directory it should |
| PathName.ParentIff | src/fs/name.c:69-79 | ".." leads to the parent iff the working directory does not end in a slash or is the root |
| PathName.FromTheRoot | src/fs/name.c:220-226 | from the root, "x" leaves a working directory that is not canonical although it does not end in a slash |
| PathName.NameClean | src/fs/name.c:50-89 | the in-place loop leaves the cleaned name and its terminator in the bytes reserved |
| Argv.TokensOfQuoted | libc/execve.c:17-43 | taking the quoted string apart gives the arguments back, empty ones and quotes included |
| Argv.TokensOfSpaced | libc/_YALCmain.c:4-37 | quoted arguments come back however they are spaced with blanks, tabs and line ends; such behind the last one give an empty argument more |
| Argv.QuoteAll | libc/execve.c:17-43 | the buffer holds the quoted array and its terminator and has exactly that many bytes |
| Argv.Qlen | libc/execve.c:6-15 | the escaped length and two delimiters |
| Argv.Tokenize | libc/_YALCmain.c:4-37 | the pointer loops fill one array per specified token, which holds it and its terminator within the bytes the heap gives; the write of the final null faults iff the string is empty |
| Argv.PassArguments | libc/_YALCmain.c:4-37 | an argument array goes through both programs unchanged, each argument in an array of its own with its terminator; the second program faults iff it is empty |
| Argv.Exec | libc/execve.c:45-53 | a new program gets its arguments and its environment as they were, and faults before `main` iff one of them is empty |
| Argv.TokenFitsIff | libc/_YALCmain.c:26-33 | for every string, the bytes reserved for the token at its front suffice for the copy and its terminator iff it contains a quote |
| Argv.LetterOverruns | libc/_YALCmain.c:26-33 | such an input: the one-letter argument has one byte reserved and needs two |
| Payloads.OneByteBehind | libc/malloc.c:21-45 | the byte behind the requested ones is still inside the block: alignment never takes the whole slack |
| Strtoll.TakenIs | libc/strtoll.c:45-49 | the two tests take exactly the proper digits, and in bases above 10 also ':' to '@' as far as the base reaches |
| Strtoll.DigitLoop | libc/strtoll.c:40-69 | the loop computes the value of the longest run of characters that pass the tests, without intermediate overflow, or the digit at which LLONG_MAX is passed |
| Strtoll.Strtoll | libc/strtoll.c:6-80 | the signed value saturated, ERANGE iff the magnitude exceeds LLONG_MAX, EINVAL for a bad base, and the end pointer, over the characters that pass the tests |
| Strtoll.ReadsNumeral | libc/strtoll.c:6-80 | a round trip: the numeral of any number in the type, in any base from 2 to 36, in small or capital letters, with blanks, a sign and a prefix in front and other text behind, is read as that number with the end behind it and errno left alone, but for -2^63; the base is the one that the argument and the prefix select |
| Strtoll.ReadsTooLarge | libc/strtoll.c:51-66 | the numeral of a number beyond the type is read as the nearest one in it, with ERANGE |
| Strtoll.NoNumber | libc/strtoll.c:72-79 | where no digit and no sign stands, 0 with the end at the beginning, blanks included |
| Strtoll.LoneSign | libc/strtoll.c:22-77 | such an input: "+" gives 0 with the end behind the sign |
| Strtoll.RunsOn | libc/strtoll.c:41-49 | the run taken begins with the run of proper digits, and goes on iff one of those characters stands behind it |
| Strtoll.AgreesIff | libc/strtoll.c:41-80 | for all strings and bases, the code gives what the same conversion of proper digits gives iff those overflow already or none of those characters stands behind them |
| Strtoll.ColonIsTen | libc/strtoll.c:45-46 | ":" is read as ten in base 16, with the end behind it |
| Strtoll.SmallBasesAgree | libc/strtoll.c:45-49 | in bases up to 10, prefixes included, the code always agrees |

## Left out

- Heap: `calloc`, the debug output, the diagnostics for corrupted magic numbers and double frees, and requests so large
  that a computed size reaches 2^32 (`Liballoc.Small` is the precondition); libc/malloc.c is the same allocator with
  other hooks, and is not modelled a second time. The page source answers null or a block that overlaps nothing held,
  as `src/mem/malloc.h` says; the kernel's own hook reports failure as an error pointer.
- Scheduler: notes, blocking on two semaphores at once, the sleep queue, quantum accounting, the list of processes by
  pid, and what a switch does to stacks, page directories and port permissions. The idle process is taken never to block
  or exit. A walk that never ends is a result of the method (`spins`) and a phase of the machine, not a loop.
- Interleavings of pipes and of the mount RPC: no interrupt signals anybody in the gap between unhooking and switching;
  what happens then is said by `Ring.HungIff`.
- Pipes: hangup (`del`), and several readers or writers of one direction.
- Address spaces: device (PGPHYS) pages are mapped and copied but what is read through them is not modelled, nor what
  unmapping one does to the frame allocator; the extents of the loops over several pages; TLB flushes; the copying of
  page directories themselves; RPC buffers (`src/mem/usrboundary.c`), which the messages carry as opaque words. What a
  demand page is filled with on first use, zeros or file contents, is a field of the Page. Runs neither
  load from nor store to device pages.
- Frame allocator: the parsing and rounding of the boot memory map; regions that end at 2^32. The calls of `Frames` follow
  each other, although nothing in the source keeps two of them apart; `FrameRaces` interleaves two allocations,
  and one with a free by a concrete order; `ppgreserve` only runs at boot.
- Frames.RunCalls: stops before a call whose words are no lists any more; what such a call leaves is said by
  `Frames.FreeIff` and `Frames.ReserveIff`. Pages to reserve are page numbers; the source does not check that.
- CopyOnWrite.Spaces.EnsurePage: takes the frame and the Page that the allocators would return as arguments, because the
  allocators are modelled on their own (`Frames`, `Liballoc`).
- PageMap.Pmap.PmapSet: counts references in a map of its own and does not run the destructor of a Page whose count
  reaches zero.
- PageTables.Tables.Unmap: leaves out the reference to the Page that a page table's own frame may have; `pgemk`, a word
  made of flags, is not modelled.
- Mount RPC: several server processes; fids shared by two clients; what `cdup` and `cdel` do with connections.
- Wire.Recv: needs the message to fit the 28-byte buffer, because it reads it once; 36 bytes, with both pointers and an
  offset, do not.
- Paths: mounts and the walk over them (`src/fs/name.c:97-213`).
- Argv.Tokenize: an array has the bytes the block really offers, one more than are reserved. A failing `malloc` is not
  modelled, as the source does not look for it.
- Drivers, boot, ELF loading, system call stubs, tarfs, stdio and the string functions.
