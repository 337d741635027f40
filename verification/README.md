# A model of the ECE391-TSF teaching kernel

ECE391-TSF is a small 32-bit x86 kernel: six process slots shared by three terminals, one page
directory per process, a read-only file system image loaded by the boot loader, and a text console
with one screen per terminal. This project models its process lifecycle, paging, file system,
console and library loops in Dafny and proves what they keep. `dafny verify dfyconfig.toml` checks
all of it.

## How the model is laid out

| file | what it covers |
|---|---|
| `Bytes.dfy`, `Bits.dfy` | bytes, 32-bit words, C strings; flag bits of a page-table entry |
| `Strings.dfy`, `Copying.dfy` | `strlen`, `strrev`, `itoa`, the `%#x` path, `strncmp`; `memcpy` and `memmove` |
| `FileSystem.dfy` | the raw image, `read_data`, directory entries, sequences of reads and listings |
| `Descriptors.dfy`, `Commands.dfy` | the descriptor table; the command line and `getargs` |
| `Paging.dfy`, `PageTables.dfy` | the two-level walk and its consequences; the loops that fill the tables in place |
| `Stores.dfy` | the tables as bytes of physical memory, and stores through them by user code and by the kernel on its behalf |
| `Processes.dfy`, `ProcessTheory.dfy`, `ProcessRuns.dfy` | the process table as a state machine, its invariant, properties of whole runs |
| `Screens.dfy`, `Console.dfy`, `Terminals.dfy`, `LineBuffer.dfy` | virtual screens, scrolling text output, terminal_write and both together, the line editor |
| `Kernel.dfy` | a class with the kernel's own variables; `execute`, `halt`, `terminal_switch`, `open`, `close`, `read`, `getargs` update them in place and are proved against the functions of the other modules |
| `Isolation.dfy` | load isolation, on the Kernel class |
| `MachineRuns.dfy` | memory isolation over whole runs: the process table and physical memory as one machine |

`Kernel.dfy` keeps the 27 page directories and tables as arrays of words; `Stores.dfy` and
`MachineRuns.dfy` put them into the same physical memory that every store goes to, so that a store can
change them, and walk them there. Their addresses are arbitrary: distinct, 4 KB aligned, below the
PCBs and kernel stacks (0x7F2000 to 8 MB) and not in text memory. The mounted image lies above text
memory and below the stacks, off the tables; keyboard.c's two arrays of lines lie off all of these. All
bytes of the kernel's 8 MB that are neither text memory nor table nor image are the kernel's own; a
step of a run may change them in any way, which covers what every kernel entry writes to PCBs, stacks
and variables.

PCBs lie at fixed addresses and are found by address, as in the source: the PCB memory is a map from
address to record, and parent links are addresses. Physical memory is one byte array that holds text
memory, the mounted image, the six program pages and the three terminal buffers. The page walk
follows the Intel SDM, volume 3A, sections 4.3 and 4.6. Words are integers with explicit 32-bit
bounds; `v | BIT` for a one-bit mask is written as "add the bit unless it is set", `v & 0xFFFFF000`
as clearing the remainder modulo 4096.

A run is a sequence of kernel entries: an execute (with the outcome of its file checks), a halt, a
terminal switch, or a change of the running process's descriptors. When a root program halts, or a
terminal without a program is switched to, no user code runs and only execute can follow; this is
the kernel's relaunch loop.

## What the code does and its comments do not say

* A read that starts after offset 0 and crosses the end of the file returns one byte beyond the
  file, when the block at the end is valid (`FileSystem.ReadPastEnd`, with an image that shows it in
  `FileSystem.ReadPastEndHappens`).
* A command without an argument leaves the bytes behind its terminating NUL as the argument of the
  new process (`Commands.NoArgument`).
* Enter with 128 pending characters writes its newline into the next terminal's buffer, or behind the
  array for the last terminal (`LineBuffer.EnterInBounds`).
* The buffer pointers of read and getargs are not checked, terminal_write fills its 128-byte row
  without a bound, and Enter does not check for a full line. The run theorems of `MachineRuns.dfy` are
  therefore about runs in which callers keep three conditions (`MachineRuns.Careful`): read and getargs
  buffers outside the kernel's memory, written texts and newlines that end inside their array. Each
  condition is exact for its store: `Stores.BufferKeepsKernel`, `Stores.BufferKeepsTables`,
  `MachineRuns.RowStoreStays`. `Stores.DirectoryBufferRedirects` gives an input with which isolation is lost.
* terminal_write returns one more than the number of bytes it wrote (`Terminals.Terminals.TerminalWrite`).
* `memcpy` is right for more overlaps than a byte loop: one aligned double word may overlap its source
  (`Copying.MemcpyExact`).
* A program larger than 0x3B8000 bytes makes execute fault after it has changed the process table
  (`Kernel.Kernel.Execute`, outcome `Faulted`).
* For a file of fewer than four bytes, execute compares uninitialised stack bytes with the magic
  number (`Kernel.Accepts`).

## Model

| member | source | states |
|---|---|---|
| Processes.BootRep | syscall.c:3-6 | the initial variables represent three empty call stacks |
| ProcessTheory.PoolSound | syscall.c:168-179 | never more than six processes; below six the search finds the lowest pid and no live process has it; at six it finds none |
| ProcessTheory.LaunchKeeps | syscall.c:168-268 | a launch keeps the invariant and pushes the lowest free pid on the current terminal's stack |
| ProcessTheory.TerminateKeeps | syscall.c:55-82 | a halt keeps the invariant and pops the current terminal's stack |
| ProcessTheory.SwitchKeeps | keyboard.c:467-499 | a terminal switch keeps the invariant and the three stacks |
| ProcessTheory.StepKeeps | syscall.c:55-303 | every kernel entry keeps the invariant and does to the linked PCBs exactly the push, pop or nothing of the abstract stacks |
| ProcessRuns.ReachableInvariant | syscall.c:55-303 | the invariant holds after every run from boot |
| ProcessRuns.ProcessTable | pcb.c:57-66 | following the parent links from a terminal's current PCB visits as many distinct PCBs as its counter says and ends at a self-linked root; the terminals' chains are disjoint and together exactly the pids marked in use; the counters sum to at most six |
| ProcessRuns.StacksUnique | pcb.c:57-66 | the kernel's data determine the three stacks |
| ProcessRuns.ContextMatches | syscall.c:253-268 | whenever user code runs, in any run from boot, cr3 is the running process's directory and esp0 is 0x800000 - (pid+1)*0x2000 |
| ProcessRuns.RootHaltRelaunches | kernel.c:244-247 | after a root program halts, the relaunch is never refused for lack of room and makes a self-linked root with the lowest free pid |
| ProcessRuns.LaunchedPcb | syscall.c:168-268 | every field of the new PCB: the argument passed, the caller's stack registers and directory, its own directory and kernel stack, the parent link, the terminal, and only the terminal's descriptors open |
| ProcessRuns.ArgsKept | syscall.c:217-231 | the argument stays with the process over any run in which it lives |
| ProcessRuns.HaltedPcb | syscall.c:55-82 | halt frees the pid, stores the int8 status, closes descriptors 2 to 7, loads the parent's context, and changes nothing else in any PCB |
| ProcessRuns.SwitchShows | keyboard.c:467-489 | after any switch the terminal asked for is current, with or without a program |
| ProcessRuns.SwitchLaunches | keyboard.c:473-481 | after a switch to an empty terminal the next execute pushes a self-linked root there and nowhere else |
| ProcessRuns.RunKeepsBottom | syscall.c:181-190 | while a terminal keeps more than d processes, its d oldest keep their places and their PCBs, whatever happens above them and on other terminals |
| ProcessRuns.BalancedRunRestores | syscall.c:55-82 | an execute, any run that keeps the new process alive on the same terminal, and its halt restore the pool, counters, current PCBs, esp0, cr3 and every live PCB with its descriptors, and resume on the stack the execute saved |
| ProcessRuns.SwitchAwayAndBack | keyboard.c:457-499 | leaving a terminal and coming back after any run elsewhere resumes the same process with its directory, kernel stack and saved stack registers |
| Kernel.Kernel.AllocatePid | syscall.c:171-179 | the loop marks and returns the lowest free pid, or leaves 0 and the pool unchanged when there is none |
| Kernel.Kernel.PcbInit | pcb.c:13-46 | a PCB of zeros whose descriptors 0 and 1 are the terminal |
| Kernel.Kernel.FindProgram | syscall.c:114-166 | the checks before any change: accepts every loadable program, gives its inode and the little-endian entry point at byte 24 |
| Kernel.Kernel.Execute | syscall.c:93-268 | at six processes it prints its line on the shown terminal, returns 0 and changes nothing else; otherwise a rejected call changes nothing and returns -1; a started one is the launch step, copies exactly the file into the new process's page and changes no other byte; a file too large for the page faults after filling it |
| Kernel.AcceptsExactly | syscall.c:107-153 | execute goes ahead exactly when fewer than six processes live, the command is not empty, an entry agrees with its first word on 31 bytes, the inode is at most 1023 and the file starts with the four magic bytes; files of fewer than four bytes may pass too |
| Kernel.Kernel.Halt | syscall.c:55-82 | the halt step on the variables, and the parent's execute returns 0 for status 0 to 127 and the negative int8 value otherwise |
| Kernel.Kernel.TerminalSwitch | keyboard.c:411-503 | the switch step on the process variables and the screen exchange in memory; makes the terminal asked for current; tells when a shell has to be started |
| Kernel.Kernel.SwitchAddresses | keyboard.c:108-110 | through the running process's directory the constant buffer and video addresses reach the intended frames |
| Kernel.Kernel.CurrentDirectoryGood | paging.c:93-155 | between calls cr3 always holds the boot directory or a built process directory |
| Kernel.Kernel.Open | syscall.c:369-427 | open is the table change OpenFd on the running process, whatever junk the uninitialised variable holds other than 8 |
| Kernel.Kernel.Close | syscall.c:436-454 | close frees one descriptor of 2 to 7 in use, or returns -1 and changes nothing |
| Kernel.Kernel.Read | syscall.c:314-332 | read is the table change ReadBuf on the running process, null buffers included; the bytes it delivers are stored from the caller's virtual address on, through the directory in cr3, and no other byte changes |
| Kernel.Kernel.GetArgs | syscall.c:463-476 | stores the first nbytes of args from the caller's virtual address on, through cr3, or returns -1 for no request, no argument or a leading percent sign |
| Kernel.StartUp | kernel.c:154-161 | boot establishes the kernel invariant |
| Isolation.LoadedImage | syscall.c:246-248 | byte k of the program is what the new process reads at 0x8048000 + k, which is physical 8 MB + 4 MB * pid + 0x48000 + k; the address after the largest image faults |
| Isolation.LoadIsolated | syscall.c:168-268 | from every valid kernel, the first launch included: after a started execute user code reads the file in order at PROGADDR through the directory in cr3, and the pages and PCBs of all live processes, text memory and the mounted image are unchanged |
| Isolation.ArgumentDelivered | syscall.c:463-476 | after execute has started "name argument", getargs in the new program stores the argument, zero padded, where its user code reads it |
| MachineRuns.LoadMemory | syscall.c:246-248 | with the tables in memory: execute's stores through the new directory build that process's tables and place the file, exactly when the file fits the page |
| MachineRuns.KernelIsSane | paging.c:93-155 | every valid kernel starts such runs: the tables in its memory are those its process table counts on |
| MachineRuns.OwnMemory | pcb.c:57-66 | all PCBs, kernel stacks and line arrays are the kernel's own memory, which runs may change freely |
| MachineRuns.RunKeepsSane | paging.c:93-155 | over any run of kernel entries, careful calls of read, getargs and write, careful Enters, user stores, printing and stores of the kernel to its own memory, no store touches a built table: user code always runs on its own complete directory |
| MachineRuns.StepTouches | paging.c:116-152 | what one event can change: the screens, the kernel's own memory, the running process's page, and for a launch the new process's page and its four tables |
| MachineRuns.ImageUnchanged | filesys.c:23-78 | over any such run the mounted file system image keeps every byte |
| MachineRuns.SuspendedPageUnchanged | paging.c:116-121 | over any such run the 4 MB page of a live process that does not run keeps every byte |
| MachineRuns.BalancedRunKeepsPages | syscall.c:55-82 | an execute, any such run that keeps the new process alive on the same terminal, and its halt restore the process table as BalancedRunRestores says and leave the 4 MB page of every process alive before, the parent's included, byte for byte as it was |
| MachineRuns.RowStoreStays | keyboard.c:374-383 | a text or newline stored in one of the two line arrays changes nothing else for all contents exactly when it ends inside the array |
| Stores.StoreExact | paging.c:93-155 | a store through a process's tables in memory that misses all tables is one plain copy, or a page fault exactly when part of the buffer is not mapped |
| Stores.StoreDelivers | filesys.c:70-71 | the byte-by-byte store through the tables in memory is the delivery that Kernel.Kernel.Read and GetArgs promise |
| Stores.UserMissesTables | paging.c:116-136 | no byte that user code reaches belongs to any page table |
| Stores.BufferKeepsTables | filesys.c:70-71 | the kernel's store of up to n bytes into a caller's mapped buffer leaves all tables intact for all contents exactly when the buffer holds no byte of a table |
| Stores.BufferKeepsKernel | wrapper.S:28-31 | it leaves the kernel's 8 MB but the video page intact for all contents exactly when the buffer holds no other byte of them |
| Stores.DirectoryBufferRedirects | syscall.c:331 | a four-byte read into the caller's directory entry for 128 MB makes its later user stores go to another process's page |
| Stores.InstallReady | paging.c:93-155 | the same building as ProgInit on tables that lie in physical memory: from zeroed or built tables, the process's four become ready and no other changes |
| Paging.ProcessWalkExact | paging.c:93-155 | for every address and kind of access, the walk through a process directory reaches exactly the kernel window, the buffer window, the process's own page and the video page, with the right privilege |
| Paging.BootWalkExact | paging.c:21-79 | the same for the boot directory |
| Paging.UserReach | paging.c:116-136 | user code reaches a physical byte if and only if it lies in its own page or the video page |
| Paging.AddressSpacesIsolated | paging.c:116-136 | user walks of two different processes meet only in the video page |
| Paging.KernelWindowStable | paging.c:108-152 | in every directory cr3 can hold, page 0 is unmapped and 4 KB to 8 MB is the identity for the kernel only; in all process directories the buffer window at 144 MB is the same |
| Paging.MarkedWalk | paging.c:93-155 | the accessed and dirty bits that the processor sets in entries change no translation |
| PageTables.Tables.FillBuffers | paging.c:138-146 | the loop whose value carries flag bits between rounds builds the buffer table |
| PageTables.Tables.PagingInit | paging.c:21-68 | from zeroed tables, builds the boot directory and makes it current |
| PageTables.Tables.ProgInit | paging.c:93-155 | from zeroed or already built tables, builds the process's tables in place and touches no other |
| PageTables.Tables.Install | paging.c:93-155 | keeps every other process's tables built or blank; building again over built tables changes nothing |
| FileSystem.ReadData | filesys.c:23-78 | stores exactly the block-mapped bytes from the offset up to the clamped request or the first position without a block, for every offset and length in 32-bit arithmetic and arbitrary block numbers; -1 for an empty request, no buffer or a bad inode |
| FileSystem.ReadComplete | filesys.c:41-77 | a request inside the file is answered in full exactly when every block it touches exists |
| FileSystem.ReadInside | filesys.c:41-77 | on an undamaged image a request inside the file gets exactly the bytes asked for |
| FileSystem.ReadWhole | filesys.c:41-77 | a request from 0 for at least the length gets exactly the file |
| FileSystem.ReadInBlock | filesys.c:57-72 | a request inside the file and inside one block gets one piece of the image in order: the one that starts pos % 4096 bytes into the data block named by entry pos / 4096 of the block list, on damaged images too |
| FileSystem.FileIsPieces | filesys.c:41-77 | the file is the concatenation of its blocks as they lie in the image, cut at its length |
| FileSystem.ReadPastEnd | filesys.c:41-71 | exactly when a read delivers the byte beyond the file, for every offset and length and for damaged images too, and never more than that byte |
| FileSystem.ReadPastEndHappens | filesys.c:41-71 | a well-formed image on which it does |
| FileSystem.ReadsTile | filesys.c:206-240 | over any sequence of requests on one descriptor the bytes delivered are the contents from the first to the last position, without gap or repetition, on damaged images too |
| FileSystem.ReadDentryByName | filesys.c:88-107 | finds the first entry that agrees with the name on 31 bytes, or returns -1 when there is none |
| FileSystem.ReadDentryByIndex | filesys.c:116-131 | gives the entry unchanged, or -1 past the bound |
| FileSystem.ListingInOrder | filesys.c:284-322 | successive directory reads list the names in order up to the first empty name or the bound, and are empty ever after |
| FileSystem.DirEntryName | filesys.c:306-316 | with room for 32 bytes the whole name is reported, unterminated 32-byte names included |
| FileSystem.DirEntryCut | filesys.c:306-316 | with less room the name is cut to the request; a negative count is read as a large one |
| FileSystem.ListedNameFindsEntry | filesys.c:88-107 | looking up a listed name finds its own entry exactly when no earlier entry has the same first 31 bytes |
| Descriptors.OpenLowestFree | syscall.c:369-427 | open gives the lowest free descriptor and changes no other, or fails without effect; exactly when it fails |
| Descriptors.OpenKinds | syscall.c:404-424 | the entry's type picks clock, directory or file, a file gets the entry's inode, and the position is 0 |
| Descriptors.OpenThenRead | syscall.c:314-427 | open and then read give the first bytes of the file that the name's entry points to |
| Descriptors.ReadRejects | syscall.c:314-329 | which reads fail, and that they change nothing; the clock's read returns 0 |
| Descriptors.FileReadResults | filesys.c:206-240 | a file read returns its byte count and moves the position by it; inside the file it is answered in full |
| Descriptors.DirectoryReads | filesys.c:284-322 | k reads on an open directory list the names in order, one a call, return their lengths, then 0 for ever, and leave the position at the number listed |
| Descriptors.CloseResults | syscall.c:436-454 | close returns 0 exactly on an open descriptor from 2 to 7, frees it and touches no other |
| Descriptors.CallTracks | syscall.c:314-454 | each call keeps 0 and 1 in use, and every regular file's delivered bytes equal to its contents up to its position |
| Descriptors.DescriptorRuns | filesys.c:231-236 | the same over any run of open, close and read |
| Descriptors.HaltFreesDescriptors | syscall.c:59-62 | halt leaves 2 to 7 free and 0 and 1 as they were |
| Commands.ParseName | syscall.c:119-132 | the copied name ends at the first space or NUL, or after 128 bytes |
| Commands.ParseArgs | syscall.c:217-231 | the stored argument runs to the next NUL, zero padded |
| Commands.CommandRoundTrip | syscall.c:217-231 | a command "name argument" is split into that name and that argument, and getargs returns the argument |
| Commands.GetArgsResults | syscall.c:463-476 | getargs fails exactly for an empty request, an empty argument or a leading percent sign |
| Commands.NoArgument | syscall.c:217-231 | for a command without an argument, getargs fails exactly when the byte after the NUL is NUL or a percent sign |
| Screens.SwitchVideo | keyboard.c:422-455 | the two copies and the attribute loop exchange the screens as Switched says |
| Screens.SwitchKeepsScreens | keyboard.c:411-455 | a switch changes no terminal's 2048 characters |
| Screens.SwitchedAttributes | keyboard.c:434-455 | after a switch all shown attributes are LINEATTRIBUTE, the left screen is in its buffer cell by cell, and the other buffers are untouched |
| Screens.ScreensIndependent | keyboard.c:411-455 | over any run of switches and stores to the visible screen, each terminal's characters are those of its own independent screen |
| Screens.BufferWalk | paging.c:138-152 | text memory and the buffers are where the switch expects them, through every process directory |
| Console.Console.Clear | lib.c:21-29 | all 25 rows are blank, the row below is untouched |
| Console.Console.Scroll | lib.c:100-117 | every row moves up by one and the row below the screen appears at the bottom |
| Console.Console.SetCoords | lib.c:80-91 | moves the cursor, or scrolls for a row past the bottom |
| Console.Console.TermPutc | lib.c:145-163 | refines adding the character to an unbounded history of which the screen is the last 25 rows |
| Console.Console.Printk | lib.c:126-136 | prints the characters up to the NUL and returns their number |
| Console.Console.PrintOnClear | kernel.c:154-155 | after clear and cursor home, the screen is the last 25 rows of the text wrapped at 80 columns, and the cursor stays on the screen |
| Console.PrintWraps | lib.c:145-163 | the history of any printed text is the text cut at line breaks and every 80 columns |
| Terminals.Terminals.TerminalWrite | keyboard.c:362-392 | for a text that fits: fills the row, prints every character but line feeds at the start of a line, and returns one more than their number; -1 without effect for a null buffer or a negative count |
| Terminals.WriteInBounds | keyboard.c:374-383 | a written text stays in its row exactly up to 128 characters, and in the array exactly up to 128 * (3 - t) |
| Terminals.WriteWraps | keyboard.c:380-389 | on a cleared screen a written text appears wrapped at 80 columns, without the line feeds that fall on the start of a line |
| Terminals.Terminals.Run | keyboard.c:411-455 | over any run of term_putc, terminal_write and terminal switches, every terminal's characters and cursor, on the screen or in its buffer, are the last 25 rows of its own print history |
| LineBuffer.Keyboard.Key | keyboard.c:248-257 | appends to the line, unless it has 128 characters |
| LineBuffer.Keyboard.Backspace | keyboard.c:111-116 | drops the last character and keeps zeros after the line |
| LineBuffer.Keyboard.Enter | keyboard.c:153-168 | ends the line for a waiting reader, or drops it |
| LineBuffer.Keyboard.FinishRead | keyboard.c:333-351 | returns min(nbytes, length + 1) bytes of the line and its newline, zeros after them, and empties the buffer |
| LineBuffer.Keyboard.RunKeys | keyboard.c:61-352 | over any run of keys, terminal_read calls and terminal changes with at most 127 characters pending at each Enter, every terminal's buffer, read flag and delivered lines are those of the pure editor on its own events |
| LineBuffer.TypedLineDelivered | keyboard.c:312-352 | a waiting reader gets exactly the characters typed and the newline, cut to its request, and the buffer is empty again |
| LineBuffer.BackspacesUndo | keyboard.c:111-116 | as many Backspaces as characters typed take them away again; one more takes the character before, and on an empty line does nothing |
| LineBuffer.EnterInBounds | keyboard.c:153-155 | on every terminal, Enter stays inside its own row exactly when fewer than 128 characters are pending |
| Strings.StrLen | lib.c:413-421 | the index of the first NUL |
| Strings.StrRev | lib.c:388-404 | reverses the string in place and touches nothing else |
| Strings.StrRevTwice | lib.c:388-404 | strrev twice leaves the buffer as it was |
| Strings.Itoa | lib.c:346-379 | leaves the numeral and a NUL at the buffer and touches nothing else |
| Strings.NumeralRoundTrip | lib.c:346-379 | the digits evaluate back to the number, without a leading zero except for 0 |
| Strings.NumeralUnique | lib.c:346-379 | every digit string without a needless leading zero is the numeral of its value |
| Strings.FormatHex8 | lib.c:226-236 | the %#x path leaves exactly eight digits |
| Strings.Hex8RoundTrip | lib.c:226-236 | the eight digits are hexadecimal and evaluate back to the number |
| Strings.StrNCmp | lib.c:622-640 | zero exactly when the strings agree on n bytes, otherwise the signed difference of the first pair that differs |
| Copying.Memcpy | lib.c:533-573 | alignment loop, double words and tail together, for every length, alignment and overlap; they copy n bytes whenever MemcpySafe holds |
| Copying.MemcpyExact | lib.c:533-573 | memcpy copies every memory right exactly when the destination does not start strictly inside the source, or the copy is one aligned double word |
| Copying.Memmove | lib.c:585-606 | copies the original source bytes for every overlap |
| Copying.ForwardCopySafe | lib.c:592-598 | memmove's forward byte path is right for all memories exactly when the destination does not start strictly inside the source |

## Left out

- Interrupts in the middle of a system call: execute, halt and terminal_switch are single steps.
- Stack contents, `iret` and register saving; only the saved `esp` and `ebp` values are kept.
- The switch to an empty terminal with six programs alive (keyboard.c:483-488), which the code itself calls unrecoverable: no run contains it.
- The loops around `execute("shell")` (kernel.c:244-247, keyboard.c:477-481) are steps of a run, not methods.
- sched.c, whose scheduler is switched off, and the device drivers, descriptor tables and boot code, which have no loops or state of this kind.
- The keyboard's redraw code, modifier keys and scancode tables: a key event is already a character, Backspace or Enter.
- `putc`, the other `printf` conversions, `write` on descriptors other than the terminal, and `vidmap`.
- Kernel.Kernel.Enter: the file is copied to the physical address that PROGADDR has in the new page; MachineRuns.LoadMemory does the same byte by byte through the tables.
- Kernel.Kernel.Read: descriptor 0 (terminal_read, modelled in LineBuffer) is not covered; nor is a buffer that is not wholly mapped, on which the code page-faults and the machine halts, or one in the kernel's 8 MB outside the video page, with which the code overwrites the kernel (Stores.BufferKeepsKernel); a read of the real-time clock returns 0 without modelling the wait.
- Kernel.Kernel.GetArgs: requests of more than 128 bytes, which copy past the args field of the PCB, and the buffers excluded from Kernel.Kernel.Read are not covered.
- LineBuffer.Keyboard.Enter: requires room for the newline; LineBuffer.EnterInBounds says what happens without.
- FileSystem.ReadData: the image is as large as its header says, inode numbers are in range and no file is longer than its block list; the code checks none of these. Block numbers are arbitrary.
- Kernel.Kernel.Execute: the mounted image is undamaged (block numbers in range, a NUL byte somewhere in every entry, inode numbers in range), as the boot loader's module is expected to be; so are the results on descriptors and listings.
- Kernel.Kernel.Open: the uninitialised variable `empty` is any value but 8; with 8 the code would write past the descriptor table.
- MachineRuns.SuspendedPageUnchanged: a store that page-faults halts the machine and ends the run; PCBs and kernel variables are records beside the byte memory, whose bytes are the kernel's own and change freely; stores see the tables as they are in memory, without a translation cache and without the accessed and dirty bits (Paging.MarkedWalk); runs contain no write, Enter, read or getargs that breaks MachineRuns.Careful.
- Terminals.Terminals.TerminalWrite: a text that runs past the end of the array is not covered; Terminals.WriteInBounds says which do.
- LineBuffer.Keyboard.RunKeys: a waiting reader takes its line before the next event, and a terminal has one reader at a time.
- Console.Console.TermPutc: `current_terminal` is a parameter of the console methods.
