# Verified models of xv6 kernel and user code

This project models parts of xv6 (x86) and of its course extensions in Dafny 4.11 and proves what they promise. Each
part has the source's own shape: objects and buffers that change are classes and arrays with loops and invariants, each
method proved against functions of the old state; protocols of several processes are state machines over their
lock-protected steps; what they compute is proved about in lemmas.

- **Redo log and buffer cache** (`Blocks`, `LogLayout`, `LogMachine`, `LogProofs`, `LogTheorems`, `LogValues`,
  `LogProgress`, `LogLimits`, `BufferCache`, `CacheView`, `LogWrites`, `LogCode`, `LogAgreement`). Any number of
  processes, a crash after any disk write, recovery interrupted any number of times: on a log with room for what
  operations can list, every run refines a list of atomic group commits, and each commit holds the values that processes
  last stored before they logged the blocks, read off the events alone; on a smaller one the list outgrows the log, and
  `LogLimits` says exactly when. The code of log.c and bio.c is then proved over one shared cache, and its disk writes
  shown to be those of the machine.
- **User-space allocator** of umalloc.c (`FreeList`, `HeapState`, `Umalloc`).
- **Shell parser** of sh.c (`ShellSyntax`, `ShellRoundTrip`, `ShellTokens`, `ShellGrammar`, `ShellNodes`,
  `ShellParser`): a line is read as a tree exactly if it lays out, with any blanks, tokens from which the grammar
  derives the tree, and panics exactly if there is none.
- **Blocks, inodes and files** of fs.c (`FsLayout`, `FsOwner`, `FsCode`), the bitmap and inodes mkfs writes
  (`MkfsImage`), and **link counts** of sysfile.c (`LinkCounts`, `LinkCode`).
- **Processes**: fork, exit, wait, kill and scheduling of proc.c (`ProcTable`, `ProcMachine`, `ProcProofs`,
  `ProcWakes`), and pipes (`Pipe`).
- **Page tables and frames** of vm.c (`VmPages`, `VmCounts`, `VmCode`), with the exact number of frames each call needs.
- **Lazy mmap** (`PageKeys`, `LazyTable`, `LazyCalls`, `LazyMachine`, `LazyCode`, `LazyAnswers`): runs of mmap, sbrk,
  fork, page faults, stores and exits refine eager growth, exactly as long as sizes are whole pages at an mmap, nothing
  lazy is given up and every fault finds its frame.
- **Copy-on-write fork** (`CowTable`, `CowMachine`, `CowCode`): whole runs refine eager copying while calls and faults
  are whole steps. On several CPUs (`CowRace`, `CowHazards`) the handler's accesses interleave with each other and with
  fork, exit, growth and shrinking elsewhere; the exact condition under which that does no harm is proved, and what goes
  wrong without it. The reference-counted frame allocator under it is `RefPages`.
- **First-fit allocator** of malloc-code (`FirstFit`) and the **pattern matcher** of grep.c (`Grep`).

`dafny verify dfyconfig.toml` checks everything.

## How the source is read

- Code between acquire and release of a spinlock is one step; sleep giving up its lock and going to sleep is one step.
- The disk is a block map written one block at a time (memide.c). Only device 1 exists.
- In `LogMachine` a bread takes its buffer and fills it in one step, under the buffer's sleep lock, and any clean
  unlocked buffer may be evicted at any time; the exact least-recently-used choice is proved in `BufferCache`.
  log_write's guards, which the source evaluates before taking log.lock, are a step of their own (`LogGuard`), and the
  append under the lock is the next one (`LogAppend`); anything may happen in between.
- The methods of `LogCode` and `FsCode` are the code as one process executes it while it holds what it needs.
- What operations of the file system do with the log is what fs.c does: change only buffers they hold, log a changed
  buffer before brelse, hold none at end_op, log at most a quota of different blocks. The quota is a parameter of the
  layout, at most MAXOPBLOCKS; the longest list is then 10 + 2 * quota (`Longest`), and the log has room (`Roomy`) when
  log.size is larger: at the full quota that means log.size > LOGSIZE, and mkfs's 30 blocks have it at a quota of 9.
- In `CowRace` one page of copyuvm, deallocuvm and allocuvm is one step, and the handler is four: the check of the page
  with the count read, the reference dropped, kalloc, and the copy with the entry stored.
- sbrk grants or refuses freely in `Umalloc`; what malloc asks of it is recorded, request by request.
- A panic is a result value, or is shown unreachable from the invariant.
- `int` and `nat` are unbounded; 32-bit wrap-around is written out where the source relies on it or suffers from it
  (umalloc's size, pipe counters, offsets in readi and writei).

## Where the code does not do what one would expect

- log_write tests its guards before it takes log.lock, and the list can then grow before the append. mkfs.c:25 makes the
  log region LOGSIZE blocks long, header included; with one data block left two processes can both pass the guard and
  both append, and write_log overwrites the block after the log, which is the first inode block
  (`LogLimits.OverrunHits`). That can happen exactly when log.size <= 10 + 2 * quota, so at the full quota exactly when
  log.size <= LOGSIZE (`LogLimits.OverrunExactly`).
- It also tests them before it looks for absorption, so relogging a listed block within the quota can meet the panic
  "too big a transaction" too. At the full quota the panic can be reached at every log.size; at 9 blocks per operation
  exactly when log.size < LOGSIZE (`LogLimits.PanicExactly`). With a block that is not listed yet it can be
  reached, at the full quota, exactly when log.size <= LOGSIZE (`LogLimits.NewBlockPanicExactly`).
- ">>" truncates like ">": both build the same redirection (`ShellGrammar.ParseExactly`).
- NBUF equals LOGSIZE: a commit of as many blocks as there are buffers finds no buffer for the log block
  (`LogCode.Log.Commit`).
- malloc of more than 2^32-8 bytes returns a block without room for any (`Umalloc.PayloadSuffices`).
- mkfs rounds the root directory's size up even when it is a whole number of blocks, which leaves a hole
  (`FsCode.RoundedRoot`); the first read of it would allocate.
- A failed fork leaves its pid in the unused entry and kill does not look at the state (`ProcProofs.BornKilled`): kill
  marks a free entry exactly when the pid is 0 or one a failed fork gave up (`ProcProofs.KillTarget`), and whoever is
  made there next starts killed (`ProcProofs.StartsKilled`).
- The copy-on-write fault handler takes no lock between reading a frame's count and having its copy. Two processes that
  fault on one shared frame at once can see each other's stores (`CowHazards.IsolationLost`) or lose the frame
  (`CowHazards.FrameLost`). A lock around the handler alone is not enough: if the other process exits meanwhile, the
  handler can be handed the very frame it is copying from, filled with junk by kfree (`CowHazards.FreedUnderCopy`), or
  the frame is lost (`CowHazards.LostToExit`). Nothing goes wrong exactly as long as every frame being copied is also
  mapped by some page that stays out of the handler (`CowHazards.StayingExactly`, `CowRace.StayingSuffices`); one lock
  around the handler and around every change of pages elsewhere ensures it (`CowRace.OneLockSuffices`).
- It drops the reference before it asks for a frame, so with memory out the counts are wrong from then on; on an address
  without a page table it goes through a null pointer (`CowCode.Vm.Fault`); and it maps its copy for the user even where
  the page was kept from the user, such as the stack guard (`CowTable.FaultView`).
- A fault on a lazy page when memory is out, or on the last page below KERNBASE, which mmap reserves but allocuvm
  refuses, clears the lazy bit all the same, so the page is neither lazy nor present and the process that touches it
  again is killed (`LazyCode.Vm.Fault`, `LazyCalls.FaultExactly`).
- sys_mmap goes page by page from the old size even where that is no whole number of pages: the page holding the end of
  the process becomes lazy and what it held reads as zeroes (`LazyCalls.MmapHides`). It checks neither the result of
  walkpgdir nor KERNBASE (`LazyCode.Vm.Mmap`); nor does copyuvm look at walkpgdir's result for a lazy page
  (`LazyCode.Vm.CopyUvm`).
- deallocuvm leaves lazy entries alone, so after sbrk(-n) a page above the size can still be touched and becomes present
  (`LazyCalls.StaleFault`). Giving everything up by sbrk frees the pages, but deallocuvm's result 0 is taken for a
  failure and the size stays (`LazyCalls.ShrinkExactly`).
- In the copy-on-write allocator a second kfree of a free page makes the list circular (`RefPages.DoubleFreeCycles`).

## Model

| member | source | states |
|---|---|---|
| `LogTheorems.RefinesGroupCommit` | xv6-public-master/log.c:74-265 | On a log with room (log.size > 10 + 2 * quota) every run of begin_op, bread, log_write's guard and its append, end_op, commit steps, evictions, crashes and recoveries by any number of processes is a run of the specification in which groups of whole operations become durable at once |
| `LogTheorems.RecoveryRestoresLastCommit` | xv6-public-master/log.c:126-133 | On a log with room: at every moment of every run the disk alone determines the newest commit; when recovery has ended, and whenever no transaction is open, the home blocks hold exactly that commit |
| `LogTheorems.CommitsOnlyGrow` | xv6-public-master/log.c:108-124 | On a log with room: no later event, crash or repeated recovery removes or alters a commit, and there is one commit for each write_head of a non-empty log |
| `LogTheorems.GroupContents` | xv6-public-master/log.c:228-265 | On a log with room: what the next commit will contain is the last commit overwritten, in order, by the blocks logged since |
| `LogValues.WritesAreStores` | xv6-public-master/log.c:228-265 | On a log with room, in every run: each write of the specification is a log_write of the block its process passed the guard with, and its value is that process's own last store to the block since it read it, or without one what it read, all read off the events alone |
| `LogValues.CommitHoldsLogged` | xv6-public-master/log.c:199-226 | On a log with room: the commit made by a header write holds for every block exactly what had last been logged for it, by the events alone, crashes included |
| `LogValues.ReadsFromEvents` | xv6-public-master/bio.c:101-113 | On a log with room: bread of an unheld block gives what was last logged for it by the events so far; what a holder has in hand is its own last store, or what it read |
| `LogValues.DiskFromEvents` | xv6-public-master/log.c:126-133 | On a log with room: after recovery, and whenever no transaction is open, each home block on disk holds what the events committed for it last |
| `LogProgress.CommitFinishes` | xv6-public-master/log.c:199-226 | On a log with room: a commit under way, whatever its phase, can run to its end once no buffer is held, and the home blocks on disk then hold what was logged |
| `LogProgress.WriteReachesDisk` | xv6-public-master/log.c:228-265 | On a log with room: from every reachable quiet state any process can store any value in any home block in one operation, and after its commit that block of the disk holds it and every other home block what it held |
| `LogTheorems.OperationsAreWhole` | xv6-public-master/log.c:163-197 | On a log with room: a commit happens only while no operation is between begin_op and end_op, so no operation is split over two commits |
| `LogTheorems.ReadsSeeLatest` | xv6-public-master/bio.c:101-113 | On a log with room: in every reachable state bread of an unlocked home block gives the contents last logged for it, also while a commit is being installed |
| `LogTheorems.CommitIsolated` | xv6-public-master/log.c:166-197 | On a log with room: committing implies nothing outstanding (end_op's panic cannot happen); inside an operation outstanding is at least 1; with nothing outstanding and no commit the log is empty |
| `LogTheorems.NoStrandedSleeper` | xv6-public-master/log.c:137-161 | On a log with room: a process asleep in begin_op has a commit in progress or, for lack of room, another running operation to wait for |
| `LogLimits.RoomForNewBlock` | xv6-public-master/log.c:150-159 | On a log with room an operation within its quota that logs a new block meets neither guard, in every interleaving |
| `LogLimits.OverrunExactly` | xv6-public-master/log.c:243-260 | Two processes between guard and append can make the list longer than the log's data blocks if and only if log.size <= 10 + 2 * quota; at the full quota that is log.size <= LOGSIZE, which mkfs makes |
| `LogLimits.OverrunHits` | xv6-public-master/log.c:200-213 | write_log then overwrites the block after the log region with the contents of the last listed block |
| `LogLimits.PanicExactly` | xv6-public-master/log.c:242-244 | The panic "too big a transaction" can meet an operation within its quota, on a listed block or a new one, if and only if the smaller of log.size - 1 and LOGSIZE is at most 10 + 2 * quota; so at the full quota always, and at a quota of 9 exactly when log.size < LOGSIZE |
| `LogLimits.NewBlockPanicExactly` | xv6-public-master/log.c:242-244 | On a block that is not listed yet it can be met if and only if the smaller of log.size - 1 and LOGSIZE is below 10 + 2 * quota |
| `LogProofs.Step` | xv6-public-master/log.c:135-265 | On a log with room each single step, crashes included and with the guard of log_write apart from its append, keeps the whole invariant (log entries distinct, dirty buffers pinned, disk recoverable, room reserved also for those past the guard, sleepers awaited) and matches one specification step |
| `LogLayout.HeaderRoundTrip` | xv6-public-master/log.c:93-124 | read_head gives back the list write_head stored, through the 32-bit words of the header block |
| `LogLayout.InstallInvisible` | xv6-public-master/log.c:79-86 | Copying one log block home changes nothing about what a crash would recover, from whatever point the copying is repeated |
| `LogLayout.HeadWriteCommits` | xv6-public-master/log.c:108-124 | The header write switches what the disk stands for from the old contents to the logged ones |
| `LogWrites.CommitCrashSafe` | xv6-public-master/log.c:215-226 | After each of the 2n+2 disk writes of commit the disk stands for the old contents up to the header write and for the new ones from it on |
| `LogWrites.RecoveryCrashSafe` | xv6-public-master/log.c:126-133 | After each disk write of recover_from_log the disk still stands for the same contents, so recovery may be interrupted and repeated; completed, they are in the home blocks and the log is empty |
| `LogAgreement.CommitStarts` | xv6-public-master/log.c:163-197 | On a log with room: the end_op of the last operation puts the disk at the start of the sequential commit of the listed blocks |
| `LogAgreement.StaysOnTrack` | xv6-public-master/log.c:199-226 | In the concurrent machine, on a log with room and under any interleaving, the disk passes through exactly the states of the sequential commit code |
| `LogCode.Log.WriteLog` | xv6-public-master/log.c:200-213 | write_log copies the cached contents of every listed block to the log blocks in order, and fails (bget: no buffers) exactly when every buffer is pinned |
| `LogCode.Log.InstallTrans` | xv6-public-master/log.c:74-91 | install_trans writes every log block to its home block and leaves no buffer pinned |
| `LogCode.Log.ReadHead` | xv6-public-master/log.c:94-106 | read_head loads the list on disk and changes neither disk nor contents |
| `LogCode.Log.WriteHead` | xv6-public-master/log.c:111-124 | write_head writes one disk block, the header with the list in memory |
| `LogCode.Log.Commit` | xv6-public-master/log.c:215-226 | commit succeeds exactly when the list is empty or shorter than the buffer cache; every disk it leaves on the way recovers to the old or the new contents; at the end disk, cache and contents agree |
| `LogCode.Log.Recover` | xv6-public-master/log.c:127-133 | recover_from_log on any recoverable disk leaves the home blocks holding what the disk stood for, and every disk on the way stands for it too |
| `LogCode.Log.BeginOp` | xv6-public-master/log.c:137-161 | One turn of begin_op admits exactly when no commit runs and ten more blocks fit for every operation |
| `LogCode.Log.LogWrite` | xv6-public-master/log.c:237-265 | log_write panics exactly as the two guards say, absorbs a listed block, pins the buffer and changes no contents |
| `LogCode.Log.EndOp` | xv6-public-master/log.c:165-197 | end_op commits exactly when it was the last operation, atomically with respect to a crash at any disk write; otherwise it only counts itself out, whatever buffers others hold |
| `BufferCache.Cache.constructor` | xv6-public-master/bio.c:39-60 | binit links all buffers into a circle whose next and prev are inverse |
| `BufferCache.Cache.FindCached` | xv6-public-master/bio.c:72-80 | The first loop of bget finds the block's buffer if and only if it is cached |
| `BufferCache.Cache.FindVictim` | xv6-public-master/bio.c:82-95 | The second loop finds the least recently used buffer that is neither referenced nor dirty, or none exactly when there is none |
| `BufferCache.Cache.Bget` | xv6-public-master/bio.c:65-99 | bget locks the cached buffer or recycles a free one: the least recent in the list, which no other free buffer was given up before, over all calls so far; a dirty or referenced buffer is never recycled; it panics exactly when none is free |
| `BufferCache.Cache.Bread` | xv6-public-master/bio.c:101-113 | bread returns the locked buffer with the cached contents, or else those on disk, in the free buffer given up longest ago, and writes nothing |
| `BufferCache.Cache.Iderw` | xv6-public-master/memide.c:39-60 | iderw writes a dirty buffer or fills an invalid one, and nothing else |
| `BufferCache.Cache.Bwrite` | xv6-public-master/bio.c:115-123 | bwrite puts the buffer on disk and cleans it |
| `BufferCache.Cache.Brelse` | xv6-public-master/bio.c:125-149 | brelse unlocks; at the last reference the buffer comes first in the list and any two others keep their order, otherwise the list stays |
| `BufferCache.AgesAfter` | xv6-public-master/bio.c:136-146 | If the list runs from the buffer given up last to the one given up longest ago, so does the list with a buffer given up now moved to the front |
| `BufferCache.OldestVictim` | xv6-public-master/bio.c:82-95 | Then the recyclable buffer nearest the tail is the recyclable one whose last release, over every bread and brelse so far, is oldest |
| `BufferCache.PushKeepsLinked` | xv6-public-master/bio.c:142-145 | The four pointer stores insert a buffer at the front of the circle |
| `BufferCache.UnlinkKeepsLinked` | xv6-public-master/bio.c:140-141 | The two pointer stores take a buffer out of the circle |
| `CacheView.AcquireKeepsView` | xv6-public-master/bio.c:65-113 | bread changes no block's contents, even when it recycles a buffer, and gives the contents seen through the cache |
| `CacheView.FreeBuffer` | xv6-public-master/bio.c:82-98 | With nothing held, a buffer is free exactly when fewer blocks are pinned than there are buffers |
| `FreeList.PutKeepsGood` | xv6-public-master/umalloc.c:33-42 | Inserting a block at its gap, merged with either, both or no neighbour, keeps the list address-ordered with no two blocks touching |
| `FreeList.PutFrees` | xv6-public-master/umalloc.c:33-42 | It makes exactly the units of the block free |
| `FreeList.TakeUses` | xv6-public-master/umalloc.c:75-84 | Allocation takes exactly the last nunits units of the chosen block out of the free ones |
| `HeapState.PutLinks` | xv6-public-master/umalloc.c:33-42 | The header stores of free leave one circular list through the static header that runs through exactly the merged blocks |
| `HeapState.FreeKeeps` | xv6-public-master/umalloc.c:24-44 | After free the units got from sbrk are still exactly the free and the live ones, disjoint, and no other live block's memory changed |
| `Umalloc.StopsAtGap` | xv6-public-master/umalloc.c:30-32 | The two tests of free's loop stop it at a block exactly when the freed block belongs after it |
| `Umalloc.PayloadSuffices` | xv6-public-master/umalloc.c:69 | The rounded size holds the bytes asked for if and only if nbytes <= 2^32-8; above that the 32-bit sum wraps |
| `Umalloc.Heap.Free` | xv6-public-master/umalloc.c:24-44 | free terminates, puts the block at its gap merged with its neighbours, sets freep there, and leaves every other live block untouched |
| `Umalloc.Heap.Morecore` | xv6-public-master/umalloc.c:46-61 | morecore asks sbrk once, for units or 4096 if that is more; granted, exactly the new units join the list and a block with room is in it; refused, it returns 0 and changes nothing |
| `Umalloc.Heap.FindFit` | xv6-public-master/umalloc.c:74-89 | malloc's loop terminates at the first block after freep with room; sbrk is asked exactly when no block had room, once, and the loop gives up exactly if it refuses |
| `Umalloc.Heap.Malloc` | xv6-public-master/umalloc.c:63-90 | malloc returns a block apart from every live one, next fit from freep; it asks sbrk exactly when no block fits, once, for at least 4096 units, and returns 0 exactly when that one request is refused; live memory untouched |
| `ShellRoundTrip.ParsePrint` | xv6-public-master/sh.c:328-447 | For every tree with fewer than 10 words per command and the two redirection kinds, parsing its printed form (parentheses only where the grammar needs them) gives the tree back with nothing left over |
| `ShellRoundTrip.ParserImage` | xv6-public-master/sh.c:328-447 | The trees the parser can return, over all inputs, are exactly those |
| `ShellRoundTrip.PrintInjective` | xv6-public-master/sh.c:328-447 | Two such trees with the same printed form are equal |
| `ShellRoundTrip.LineRead` | xv6-public-master/sh.c:345-360 | Inside any text, a printed line followed by ')' or the end is read as its tree and the cursor stops right after it |
| `ShellRoundTrip.BackRead` | xv6-public-master/sh.c:351-354 | Any number of '&' wraps the pipeline before it, one Back each |
| `ShellRoundTrip.PipeRead` | xv6-public-master/sh.c:362-373 | A printed pipeline is read as its right-nested tree |
| `ShellRoundTrip.ExecRead` | xv6-public-master/sh.c:400-447 | A printed command or parenthesised block with its redirections is read as its tree |
| `ShellRoundTrip.LineGood` | xv6-public-master/sh.c:345-360 | Every tree parseline returns, at any cursor of any text, obeys the limits on words and redirections |
| `ShellTokens.LaidLexes` | xv6-public-master/sh.c:263-309 | Tokens written with any run of the five blanks before, between and after them (none needed unless two words, or '>' before '>', would run together) are read back by gettoken, call after call |
| `ShellTokens.ToksExactly` | xv6-public-master/sh.c:263-309 | What gettoken reads from a text is exactly what the text lays out so, the words and symbols between its blanks |
| `ShellGrammar.ParseExactly` | xv6-public-master/sh.c:328-447 | parsecmd returns a tree if and only if the grammar derives it from the tokens of the whole line: words and redirections in any order with the last redirection outermost, '>>' opening as '>' does, blocks in parentheses, pipes and ';' to the right, any number of '&' |
| `ShellGrammar.PanicsExactly` | xv6-public-master/sh.c:328-447 | It panics if and only if the grammar derives no tree at all: leftovers, a missing ')' or file name, or ten words |
| `ShellGrammar.LinesOf` | xv6-public-master/sh.c:263-343 | In characters: the lines read as a tree are exactly the derivations of the tree laid out with any blanks |
| `ShellGrammar.SpacedPrint` | xv6-public-master/sh.c:263-343 | The printed form of every good tree, with any run of blanks before, between and after its tokens, is read as the tree with nothing left over |
| `ShellSyntax.GetToken` | xv6-public-master/sh.c:266-309 | gettoken's cursor never moves back, and moves on for every token but the end, which makes the mutual recursion end |
| `ShellParser.Parser.GetToken` | xv6-public-master/sh.c:266-309 | The loops of gettoken compute the token and cursor of the specification |
| `ShellParser.Parser.Peek` | xv6-public-master/sh.c:311-321 | peek skips blanks and tells whether one of the characters follows |
| `ShellParser.Parser.ParseRedirs` | xv6-public-master/sh.c:375-398 | parseredirs wraps the node in redirections as specified, or panics as specified |
| `ShellParser.Parser.AddWord` | xv6-public-master/sh.c:437-439 | Storing into the Exec node is seen through every redirection already wrapped around it |
| `ShellParser.Parser.ParseExec` | xv6-public-master/sh.c:416-447 | parseexec allocates the tree of the specification, or panics as it says |
| `ShellParser.Parser.ParseBlock` | xv6-public-master/sh.c:400-414 | parseblock likewise |
| `ShellParser.Parser.ParsePipe` | xv6-public-master/sh.c:362-373 | parsepipe likewise |
| `ShellParser.Parser.ParseLine` | xv6-public-master/sh.c:345-360 | parseline likewise |
| `ShellParser.Parser.NulTerminate` | xv6-public-master/sh.c:449-494 | nulterminate writes NULs only over characters of no word and ends every counted string of the tree |
| `ShellParser.Parser.ParseCmd` | xv6-public-master/sh.c:328-343 | After parsecmd the NUL-terminated strings in the buffer, read through the nodes, are exactly the parsed command; or it panics as specified |
| `ShellNodes.CutTree` | xv6-public-master/sh.c:449-494 | Once every string ends at a NUL and no word lost a character, the nodes mean the same read as C strings as they did read by their spans |
| `FsLayout.PutBitReads` | xv6-public-master/fs.c:69-72 | Setting or clearing one bit of a byte changes that bit only |
| `FsLayout.MarkReads` | xv6-public-master/fs.c:84-98 | Changing a block's bit in the bitmap changes what the bitmap says of that block only |
| `FsLayout.PutInodeReads` | xv6-public-master/fs.c:226-243 | iupdate's stores give the same inode back on loading and leave its neighbours in the block alone |
| `FsOwner.PlacedOwned` | xv6-public-master/fs.c:380-408 | A new block in an empty slot keeps the ownership: set bits are the metadata plus a disjoint union over inodes of direct blocks, indirect block and listed blocks |
| `FsOwner.AddrPlaced` | xv6-public-master/fs.c:386-396 | A zeroed block as indirect block names nothing, so only the one slot changed |
| `FsOwner.EntryKept` | xv6-public-master/fs.c:399-402 | Filling an entry of the indirect block keeps ownership, every file byte and every other slot |
| `FsOwner.DataWritten` | xv6-public-master/fs.c:509-515 | Overwriting a file's block changes that file's bytes in that block and no byte of any other file |
| `FsOwner.EntryFreed` | xv6-public-master/fs.c:432-435 | Freeing one listed block keeps the ownership of everything not yet freed |
| `FsCode.Fs.Balloc` | xv6-public-master/fs.c:56-82 | balloc returns the lowest free block, marked and zeroed, and fails exactly when every block is in use |
| `FsCode.Fs.Bfree` | xv6-public-master/fs.c:84-99 | bfree clears the bit, and panics exactly on a block already free |
| `FsCode.Fs.Bmap` | xv6-public-master/fs.c:380-408 | bmap returns the block of the slot, allocating only what is missing; it fails exactly beyond the largest file or with fewer free blocks than it lacks (none, one, or an indirect block and one); no byte of any file changes, no slot but the ones filled, and ownership holds afterwards, also when space runs out half way |
| `FsCode.Fs.Iupdate` | xv6-public-master/fs.c:226-243 | iupdate makes disk and memory agree on this inode and touches no other |
| `FsCode.Fs.Readi` | xv6-public-master/fs.c:461-486 | readi returns exactly the stored bytes clamped to the size, -1 exactly for offsets past the end or wrapping, and on a file without holes allocates nothing |
| `FsCode.Fs.Writei` | xv6-public-master/fs.c:492-523 | writei replaces or extends exactly [off, off+n), keeps the file free of holes, every other file as it was, and memory and disk agreeing on the inode although iupdate runs only on growth; it runs out of blocks exactly if it is not refused with -1 and the blocks the range lacks, the indirect block counted once, are more than the free ones, so never within the file's size |
| `FsCode.NoneLacking` | xv6-public-master/fs.c:509-515 | Within the size of a file without holes a write lacks no block |
| `FsCode.LacksLess` | xv6-public-master/fs.c:380-408 | Filling one slot takes off what the range lacks exactly what bmap had to allocate for it, the indirect block once |
| `FsCode.Fs.Itrunc` | xv6-public-master/fs.c:415-443 | itrunc frees exactly the inode's blocks, never meets a free one, and leaves an empty inode on disk |
| `FsCode.PatchedReads` | xv6-public-master/fs.c:492-523 | Reading the range just written gives what was written, and the rest is as before |
| `FsCode.RoundedRoot` | xv6-public-master/mkfs.c:158-163 | mkfs's rounding of the root directory's size leaves a hole if and only if the size was a multiple of the block size |
| `MkfsImage.Balloc` | xv6-public-master/mkfs.c:237-251 | mkfs's bitmap loop sets the low bits byte by byte, and the kernel reads the block as exactly the first `used` blocks being in use |
| `MkfsImage.WinodeReads` | xv6-public-master/mkfs.c:183-195 | An inode stored by mkfs field by field, in the byte order of xshort and xint, is loaded by the kernel as that inode, and its neighbours are untouched |
| `MkfsImage.IupdateBytes` | xv6-public-master/fs.c:226-243 | iupdate stores byte for byte what mkfs would |
| `MkfsImage.NewInodeReads` | xv6-public-master/mkfs.c:223-235 | A new inode of mkfs has its type in bytes 0 and 1 and one link in byte 6, and the kernel finds that type, one link, size 0 and no blocks |
| `LinkCounts.LinksMoved` | xv6-public-master/sysfile.c:140-161 | Raising a file's count before its entry exists, and the undo, keep counts equal to entries plus links in progress |
| `LinkCounts.LinkMade` | xv6-public-master/sysfile.c:147-151 | The entry made for a link in progress restores exact counts |
| `LinkCounts.DirMade` | xv6-public-master/sysfile.c:263-279 | A new directory: its own count, its parent's count for ".." and every other count are exact |
| `LinkCounts.DirCounts` | xv6-public-master/sysfile.c:211-216 | An empty named directory has one link and its parent at least two |
| `LinkCounts.DirUnlinked` | xv6-public-master/sysfile.c:218-229 | Removing an empty directory keeps every count exact, its own at 0 and its parent's one less |
| `LinkCounts.FileUnlinked` | xv6-public-master/sysfile.c:218-229 | Removing a file's entry keeps every count exact |
| `LinkCounts.Freed` | xv6-public-master/fs.c:347-353 | An inode whose count is 0 is named by no linked directory and can be freed |
| `LinkCounts.BareExactly` | xv6-public-master/sysfile.c:167-181 | A directory counts as empty exactly if no name but the dots is found in it, however many cleared entries it holds |
| `LinkCounts.RemovableExactly` | xv6-public-master/sysfile.c:201-216 | A name can be unlinked exactly if it is no dot, is there, and is not a directory in which other names are found |
| `LinkCounts.EntryNamed` | xv6-public-master/fs.c:564-591 | After dirlink the name stands for the inode and every other name for what it stood for |
| `LinkCounts.EntryUnnamed` | xv6-public-master/sysfile.c:218-223 | After unlink the name stands for nothing and every other name for what it stood for |
| `LinkCounts.DirNamed` | xv6-public-master/sysfile.c:263-279 | After mkdir the name stands for the new directory, in which the dots stand for itself and its parent and nothing else is found |
| `LinkCode.Namespace.DirLookup` | xv6-public-master/fs.c:538-561 | dirlookup finds the first live entry with the name, or none |
| `LinkCode.Namespace.DirLink` | xv6-public-master/fs.c:564-591 | dirlink refuses a name in use and otherwise fills the first free entry or the end |
| `LinkCode.Namespace.IsDirEmpty` | xv6-public-master/sysfile.c:167-181 | isdirempty tells whether only the dots are left |
| `LinkCode.Namespace.LinkBegin` | xv6-public-master/sysfile.c:133-142 | sys_link's first part refuses directories and counts the link |
| `LinkCode.Namespace.LinkEnd` | xv6-public-master/sysfile.c:144-165 | sys_link's second part makes the entry or undoes the count; nlink equals the entries either way |
| `LinkCode.Namespace.Unlink` | xv6-public-master/sysfile.c:184-239 | sys_unlink removes exactly what may be removed, never meets its nlink panic, and keeps every count exact |
| `LinkCode.Namespace.Create` | xv6-public-master/sysfile.c:241-284 | create reuses an existing file or makes a new inode, directories with dots, with every count exact |
| `ProcTable.Table.Wakeup1` | xv6-public-master/proc.c:477-488 | wakeup1 makes exactly the sleepers on the channel runnable |
| `ProcTable.Table.AllocProc` | xv6-public-master/proc.c:85-99 | allocproc takes the first unused entry and the next pid |
| `ProcTable.Table.Exit` | xv6-public-master/proc.c:260-275 | The locked part of exit wakes the parent, hands every child to init, wakes init for a zombie among them, and leaves a zombie |
| `ProcTable.Table.WaitScan` | xv6-public-master/proc.c:291-317 | One scan of wait finds the first zombie child, or no reason to wait, or sleeps |
| `ProcTable.Table.Wait` | xv6-public-master/proc.c:289-321 | wait frees exactly the reaped entry and returns its pid, or gives up, or sleeps |
| `ProcTable.Table.Kill` | xv6-public-master/proc.c:502-520 | kill marks the first entry with the pid and makes a sleeper runnable |
| `ProcProofs.Step` | xv6-public-master/proc.c:187-520 | Every step of fork, exit, wait, kill, sleep, wakeup and scheduling keeps the process invariant |
| `ProcProofs.NoLostChild` | xv6-public-master/proc.c:262-321 | In every reachable state a process asleep in wait has no zombie child and has a living one whose exit will wake it |
| `ProcProofs.ParentsAlive` | xv6-public-master/proc.c:265-275 | No child points to a dead or unused parent, and every living process but init and every zombie has one |
| `ProcProofs.ReapedOnce` | xv6-public-master/proc.c:293-309 | Each pid is returned by wait at most once and only after its exit, and every started process is either in the table or was returned |
| `ProcProofs.WaitAnswers` | xv6-public-master/proc.c:293-320 | wait reaps the first zombie child exactly if there is one; without one it gives up exactly if there are no children or it was killed, and sleeps exactly if there are and it was not |
| `ProcWakes.ExitEach` | xv6-public-master/proc.c:260-275 | What exit makes of each entry: children of the process go to init, sleepers waiting for this exit become runnable, the process a zombie, and nothing else changes |
| `ProcWakes.WakesExactly` | xv6-public-master/proc.c:477-520 | In every reachable state a sleeper is made runnable exactly by a wakeup on its channel, by kill finding its entry, or, in wait, by the exit of a child or of one whose zombies init inherits; every other event leaves it asleep on the same channel |
| `ProcWakes.SleepsOn` | xv6-public-master/proc.c:437-488 | Through every run without a kill of its pid and, by its channel, without a wakeup or an exit that could concern it, it sleeps on |
| `ProcWakes.KilledLeavesWait` | xv6-public-master/proc.c:313-320 | A killed process woken in wait reaps a child or gives up; it does not sleep again |
| `ProcProofs.BornKilled` | xv6-public-master/proc.c:202-207 | From every reachable state: a failed fork leaves its pid in the entry, so kill of that pid marks an unused entry and the next process made there starts killed |
| `ProcProofs.KillTarget` | xv6-public-master/proc.c:502-520 | In every run, when kill finds an entry with the pid, that entry is a free one if and only if the pid is 0 or one that a failed fork gave up |
| `ProcProofs.StartsKilled` | xv6-public-master/proc.c:187-227 | In every run, a process starts killed if and only if kill hit its entry since the entry was last reaped |
| `ProcProofs.KillZero` | xv6-public-master/proc.c:502-520 | After kill(0) the next process made starts killed if and only if its entry is the one kill marked or was marked before |
| `VmPages.NewTable` | xv6-public-master/vm.c:35-55 | A page table made by walkpgdir changes no mapping of any address space |
| `VmPages.PteWritten` | xv6-public-master/vm.c:69-73 | Storing an entry changes the mapping of that page in that address space only |
| `VmPages.SameFree` | xv6-public-master/kalloc.c:59-105 | Two moments with the same frames in use have the same frames free |
| `VmCode.Vm.Walk` | xv6-public-master/vm.c:35-55 | walkpgdir finds the table or makes one whose entry is present, writable and for the user, and fails exactly when it is missing and not wanted or memory is out |
| `VmCode.Vm.MapPages` | xv6-public-master/vm.c:60-80 | mappages maps exactly the pages asked for, or fails with the user mapping as it was; it fails exactly if the page tables missing for the run are more than the free frames |
| `VmCode.Vm.AllocUvm` | xv6-public-master/vm.c:228-258 | allocuvm maps exactly the pages up to the new size to fresh zeroed frames, writable and for the user, or on failure restores every mapping and frees every user frame it took; it succeeds exactly if a frame for each page and for each missing page table is free |
| `VmCode.Vm.DeallocUvm` | xv6-public-master/vm.c:264-289 | deallocuvm, skipping missing page tables, unmaps and frees exactly what a scan page by page would |
| `VmCode.Vm.FreeVm` | xv6-public-master/vm.c:291-314 | freevm gives back every frame of the address space and leaves every other one alone |
| `VmCode.Vm.SetupKvm` | xv6-public-master/vm.c:117-144 | setupkvm maps every kernel region as listed and no user page, or gives every frame back; it succeeds exactly if the directory and the tables the regions need fit the free frames |
| `VmCode.Vm.CopyUvm` | xv6-public-master/vm.c:329-361 | copyuvm gives equal bytes and flags in frames of its own, or gives every frame back, leaving owner and free frames as before; it succeeds exactly if the directory, the kernel's tables, a frame for each page and a table for each 1024 of them are free |
| `VmCode.FreshCost` | xv6-public-master/vm.c:329-361 | The n pages of a new address space take n frames and one more for every 1024 of them |
| `VmCounts.NextTab` | xv6-public-master/vm.c:35-55 | The tables a run of pages takes are that of its first page, if missing, and those the rest takes once it is there |
| `Pipe.WrapFaithful` | xv6-public-master/pipe.c:78-121 | 32-bit wrapping counters give the same full and empty tests and ring positions as unbounded ones |
| `Pipe.Pipe.WriteTurn` | xv6-public-master/pipe.c:78-98 | One locked turn of pipewrite appends exactly the bytes it consumed, and stops only when the ring is full |
| `Pipe.Pipe.ReadTurn` | xv6-public-master/pipe.c:100-121 | One locked turn of piperead delivers the next bytes accepted, in order, as many as there are up to n; it waits or fails only on an empty open pipe |
| `Pipe.Pipe.Close` | xv6-public-master/pipe.c:59-75 | pipeclose shuts one end and frees the pipe exactly when both are shut |
| `Grep.Match` | xv6-public-master/grep.c:72-82 | match answers whether some substring, or with '^' some prefix, is denoted by the pattern |
| `Grep.MatchHere` | xv6-public-master/grep.c:84-96 | matchhere answers whether some prefix of the text is denoted, for every pattern, a leading '*' and '$*' included |
| `Grep.MatchStar` | xv6-public-master/grep.c:98-106 | matchstar answers whether dropping some characters that fit leaves a match |
| `Grep.StarMatch` | xv6-public-master/grep.c:98-106 | c*re matches a prefix exactly when re does after dropping some characters that fit c |
| `Grep.OneMatch` | xv6-public-master/grep.c:93-94 | A single character matches a prefix exactly when it fits the first character and the rest matches |
| `FirstFit.EntryLeft` | Lab-Memory Management/malloc-code/alloc.c:69-80 | While a byte is free some table entry is unused, because 512 live entries would fill the page |
| `FirstFit.Page.Alloc` | Lab-Memory Management/malloc-code/alloc.c:50-86 | alloc returns the lowest run of free bytes, marks it and enters it in the table; NULL exactly when there is no run or the size is no multiple of 8 |
| `FirstFit.Page.Dealloc` | Lab-Memory Management/malloc-code/alloc.c:88-102 | dealloc of a live address frees exactly its range; any other address changes nothing |
| `FirstFit.Page.constructor` | Lab-Memory Management/malloc-code/alloc.c:18-32 | init_alloc leaves every byte free and map and table agreeing |
| `FirstFit.SameStart` | Lab-Memory Management/malloc-code/alloc.c:88-102 | The first table entry with the address is the live one, and the only one |
| `LazyMachine.RefinesEagerGrowth` | Lab-Memory Management in xv6/Activity B/xv6-public-master/sysproc.c:103-116 | Over every run of mmap, sbrk both ways, fork, page faults, user stores, exits, and of the calls that fail for lack of memory, pages, sizes and frames stay in step if and only if every step goes smoothly (size a whole number of pages at an mmap, nothing lazy given up, a frame for every fault); every process then sees at the end what it would if each page had been allocated when asked for, no frame is mapped twice, and none is lost |
| `LazyMachine.Step` | Lab-Memory Management in xv6/Activity B/xv6-public-master/trap.c:49-61 | Each smooth step keeps every frame free, held or mapped by one page, and matches one step of eager growth |
| `LazyMachine.StepExactly` | Lab-Memory Management in xv6/Activity B/xv6-public-master/vm.c:264-289 | A step that is not smooth takes pages and sizes out of step |
| `LazyCalls.MmapExactly` | Lab-Memory Management in xv6/Activity B/xv6-public-master/sysproc.c:103-116 | sys_mmap shows what eager growth would if the size is a whole number of pages or nothing is asked for, and otherwise leaves pages and size out of step |
| `LazyCalls.MmapHides` | Lab-Memory Management in xv6/Activity B/xv6-public-master/vm.c:428-435 | In the other case the page that holds the end of the process becomes lazy |
| `LazyTable.MarkLoses` | Lab-Memory Management in xv6/Activity B/xv6-public-master/vm.c:428-435 | A present page made lazy loses its frame: it is on no list and mapped nowhere |
| `LazyCalls.ShrinkExactly` | Lab-Memory Management in xv6/Activity B/xv6-public-master/vm.c:264-289 | sbrk(-n) keeps pages and size in step if and only if no page given up is lazy, or all are to go and none is present |
| `LazyCalls.StaleFault` | Lab-Memory Management in xv6/Activity B/xv6-public-master/trap.c:49-61 | A lazy page that was given up still becomes present when touched, above the size |
| `LazyCalls.FaultExactly` | Lab-Memory Management in xv6/Activity B/xv6-public-master/trap.c:49-61 | A fault on a lazy page keeps pages and size in step if and only if there is a frame and the page does not end at KERNBASE; it then takes a frame nobody maps, changes no other entry and nothing anybody sees |
| `LazyCalls.ForkOk` | Lab-Memory Management in xv6/Activity B/xv6-public-master/vm.c:331-370 | fork shows the child what the parent sees, present pages copied to frames of its own, lazy ones staying lazy |
| `LazyCalls.ForkFailedOk` | Lab-Memory Management in xv6/Activity B/xv6-public-master/vm.c:331-370 | A fork that fails at any page leaves what everybody sees as before, and no frame lost |
| `LazyCode.Vm.Mmap` | Lab-Memory Management in xv6/Activity B/xv6-public-master/sysproc.c:103-116 | sys_mmap refuses bad sizes, reserves exactly the new pages, or, as the page numbers decide, writes through a null pointer or marks the kernel's first page absent |
| `LazyCode.Vm.AllocUvm` | Lab-Memory Management in xv6/Activity B/xv6-public-master/vm.c:228-258 | allocuvm fills the pages up to the new size with zeroed frames, or takes every one back, exactly as frames and page tables suffice |
| `LazyCode.Vm.DeallocUvm` | Lab-Memory Management in xv6/Activity B/xv6-public-master/vm.c:264-289 | deallocuvm, skipping missing page tables, frees exactly the present pages a scan page by page would and leaves lazy ones |
| `LazyCode.Vm.Growproc` | Lab-Memory Management in xv6/Activity B/xv6-public-master/proc.c:164-184 | growproc grows, shrinks or fails as specified, a wrapped size and a size of 0 included; pages and size stay in step exactly when the shrink does |
| `LazyCode.GrowprocExactly` | Lab-Memory Management in xv6/Activity B/xv6-public-master/proc.c:164-184 | The same for what growproc leaves, in all its cases |
| `LazyAnswers.MmapAnswers` | Lab-Memory Management in xv6/Activity B/xv6-public-master/sysproc.c:103-116 | sys_mmap refuses exactly negative amounts and parts of pages; every mmap that stays below KERNBASE with page tables to be had is granted and the size grows by the amount, and from a size of whole pages no other is |
| `LazyAnswers.GrowAnswers` | Lab-Memory Management in xv6/Activity B/xv6-public-master/proc.c:164-184 | growproc with a positive amount succeeds exactly if frames, page tables and addresses suffice for all of it; the size is then larger by the amount, and otherwise as it was |
| `LazyAnswers.ShrinkAnswers` | Lab-Memory Management in xv6/Activity B/xv6-public-master/proc.c:164-184 | With a negative one within the size it succeeds exactly if something is left, and the size follows; beyond the size it wraps, answers yes unless the size is 0, and changes nothing |
| `LazyAnswers.FaultAnswers` | Lab-Memory Management in xv6/Activity B/xv6-public-master/trap.c:49-61 | A fault is taken for one on a lazy page exactly if the page is lazy, and makes it present exactly as a frame is to be had |
| `LazyAnswers.StoreAnswers` | Lab-Memory Management in xv6/Activity B/xv6-public-master/trap.c:49-61 | A store eager growth would take either goes through, exactly where no fault is due, or faults and then goes through, if a frame is to be had; otherwise the page is gone |
| `LazyCode.Vm.Fault` | Lab-Memory Management in xv6/Activity B/xv6-public-master/trap.c:49-61 | The fault branch fills a lazy page, or leaves it neither lazy nor present, exactly as a frame is to be had; it kills on any other page |
| `LazyCode.Vm.CopyUvm` | Lab-Memory Management in xv6/Activity B/xv6-public-master/vm.c:331-370 | copyuvm succeeds exactly when frames and page tables suffice, goes through a null pointer exactly when the table missing is one for a lazy page, and otherwise takes everything back |
| `LazyCode.Vm.FreeVm` | Lab-Memory Management in xv6/Activity B/xv6-public-master/vm.c:291-314 | freevm gives back every frame of the address space and changes nobody else's page |
| `LazyCode.Vm.Store` | Lab-Memory Management in xv6/Activity B/xv6-public-master/vm.c:331-370 | A user store reaches one page of one process |
| `LazyCode.Vm.NumPp` | Lab-Memory Management in xv6/Activity B/xv6-public-master/proc.c:718-728 | sys_numpp counts the pages that have a frame |
| `LazyCode.PresentLess` | Lab-Memory Management in xv6/Activity B/xv6-public-master/proc.c:718-728 | That number and the number of lazy pages add up to the pages of the process |
| `LazyCode.PresentNeeded` | Lab-Memory Management in xv6/Activity B/xv6-public-master/vm.c:331-370 | A fork takes exactly as many frames as sys_numpp counts |
| `CowMachine.RefinesEagerCopy` | Lab-Memory Management in xv6/CoW Implement/xv6-public-master/vm.c:331-364 | In every run of forks, user stores, write faults, growth, shrinking and exits, whatever is shared, every process sees at the end what it would if each fork had copied every page; and every frame is free exactly when no page maps it and the kernel does not hold it |
| `CowMachine.Isolated` | Lab-Memory Management in xv6/CoW Implement/xv6-public-master/vm.c:331-364 | Nothing others do with the frames they share with a process, no fork, store, fault or exit of theirs, changes what a page of it holds |
| `CowMachine.Step` | Lab-Memory Management in xv6/CoW Implement/xv6-public-master/vm.c:331-433 | Each call, successful or failing, keeps every count equal to the number of pages that map the frame, the write bit only on frames of one page, and what everybody sees as eager copying has it |
| `CowTable.FaultView` | Lab-Memory Management in xv6/CoW Implement/xv6-public-master/vm.c:420-433 | A write fault leaves the page writable and changes what its process sees if and only if the page was kept from the user and its frame shared; nobody else sees anything |
| `CowTable.StoreInv` | Lab-Memory Management in xv6/CoW Implement/xv6-public-master/vm.c:347-351 | A user store reaches one page of one process, however many had shared its frame |
| `CowTable.FailedFork` | Lab-Memory Management in xv6/CoW Implement/xv6-public-master/vm.c:355-364 | A copyuvm that fails at any page leaves every frame's count, and what everybody sees, as before |
| `CowTable.ForkShares` | Lab-Memory Management in xv6/CoW Implement/xv6-public-master/vm.c:347-358 | After a fork a page the parent could write is mapped by exactly the two, copy-on-write in both and writable in neither |
| `CowTable.NothingLeaks` | Lab-Memory Management in xv6/CoW Implement/xv6-public-master/kalloc.c:61-95 | A frame is on the free list exactly when no page maps it and the kernel does not hold it |
| `CowCode.Vm.Kfree` | Lab-Memory Management in xv6/CoW Implement/xv6-public-master/kalloc.c:61-95 | kfree drops one reference and frees the frame with the last one; it panics exactly on a negative count |
| `CowCode.Vm.Kalloc` | Lab-Memory Management in xv6/CoW Implement/xv6-public-master/kalloc.c:100-125 | kalloc hands out the first free frame with count 1; its panic over the count of a free frame cannot happen |
| `CowCode.Vm.CopyUvm` | Lab-Memory Management in xv6/CoW Implement/xv6-public-master/vm.c:331-364 | copyuvm shares every page, or fails where a page table cannot be made and takes everything back |
| `CowCode.Vm.DeallocUvm` | Lab-Memory Management in xv6/CoW Implement/xv6-public-master/vm.c:264-289 | deallocuvm, skipping missing page tables, drops exactly the references a scan page by page would |
| `CowCode.Vm.FreeVm` | Lab-Memory Management in xv6/CoW Implement/xv6-public-master/vm.c:293-314 | freevm drops every reference of the address space and no other |
| `CowCode.Vm.Fault` | Lab-Memory Management in xv6/CoW Implement/xv6-public-master/trap.c:49-67 | The fault branch reclaims or copies a copy-on-write page, exactly on such a page with a frame to be had if its own is shared; it kills on any other mapped or missing page, and breaks exactly without a page table or, for a shared frame, without memory; the counts hold afterwards unless memory was missing |
| `CowCode.FixedExactly` | Lab-Memory Management in xv6/CoW Implement/xv6-public-master/trap.c:49-67 | The page is fixed exactly when the machine lets the fault run, and the process killed exactly on a page that has a table and is not copy-on-write |
| `CowMachine.StoreGoesThrough` | Lab-Memory Management in xv6/CoW Implement/xv6-public-master/vm.c:420-433 | The handler mends a page its process could write under eager copying exactly if the hardware forbids the store and, where others share the frame, one is free; after it the store goes through |
| `CowRace.StepRight` | Lab-Memory Management in xv6/CoW Implement/xv6-public-master/vm.c:420-433 | On several CPUs, while every frame being copied has a page that stays out of the handler, each access of the handler, each store, and each page forked, unmapped, grown or hidden elsewhere keeps the counts and shows what eager copying would |
| `CowRace.StayingSuffices` | Lab-Memory Management in xv6/CoW Implement/xv6-public-master/vm.c:420-433 | Any run in which that holds throughout amounts to whole faults and calls, one after the other |
| `CowRace.OneLockSuffices` | Lab-Memory Management in xv6/CoW Implement/xv6-public-master/vm.c:264-289 | One lock around the handler and around every change of pages elsewhere ensures it: then any interleaving with user stores is right |
| `CowHazards.StayingExactly` | Lab-Memory Management in xv6/CoW Implement/xv6-public-master/vm.c:420-433 | The condition is exact: it survives a step if and only if, however the faults under way then finish, no frame is lost, free though mapped, or writable though shared |
| `CowHazards.IsolationLost` | Lab-Memory Management in xv6/CoW Implement/xv6-public-master/vm.c:420-433 | From every state with a frame shared by two and two faults on it at once: one process drops its reference, the other keeps the frame and stores to it, and the first copies that store into its own page |
| `CowHazards.FreedUnderCopy` | Lab-Memory Management in xv6/CoW Implement/xv6-public-master/kalloc.c:61-95 | From every such state, with only one CPU in the handler: the other process goes away after the reference was dropped, the frame is freed, the handler's kalloc returns that very frame, and the page ends up full of kfree's junk |
| `CowHazards.LostToExit` | Lab-Memory Management in xv6/CoW Implement/xv6-public-master/kalloc.c:61-95 | If it goes away after the count was read, the frame ends up mapped nowhere and on no list |
| `CowHazards.FrameLost` | Lab-Memory Management in xv6/CoW Implement/xv6-public-master/vm.c:420-433 | From every such state the two can both drop their references, and the frame is mapped nowhere and on no list |
| `CowHazards.ForkLeadsThere` | Lab-Memory Management in xv6/CoW Implement/xv6-public-master/vm.c:347-358 | Every fork of a process with a writable page leads to such a state |
| `RefPages.PushConsistent` | Lab-Memory Management in xv6/CoW Implement/xv6-public-master/correct_kalloc.c:85-92 | The last reference dropped puts the page on the list once, and the cached count follows |
| `RefPages.DoubleFreeCycles` | Lab-Memory Management in xv6/CoW Implement/xv6-public-master/correct_kalloc.c:68-96 | kfree of a page whose count is already 0 closes the list into a cycle |
| `RefPages.CountConsistent` | Lab-Memory Management in xv6/CoW Implement/xv6-public-master/correct_kalloc.c:127-163 | Changing a count by hand keeps list and counts consistent if and only if the page had and keeps a positive count |
| `RefPages.Kmem.FreeRange` | Lab-Memory Management in xv6/CoW Implement/xv6-public-master/correct_kalloc.c:51-61 | freerange manages exactly the pages of the range, all free |
| `RefPages.Kmem.Kfree` | Lab-Memory Management in xv6/CoW Implement/xv6-public-master/correct_kalloc.c:67-96 | kfree drops one reference and frees the page with the last one |
| `RefPages.Kmem.Kalloc` | Lab-Memory Management in xv6/CoW Implement/xv6-public-master/correct_kalloc.c:101-125 | kalloc hands out a page of count 0 with count 1, and 0 only when every page has references |
| `RefPages.Kmem.Increment` | Lab-Memory Management in xv6/CoW Implement/xv6-public-master/correct_kalloc.c:127-138 | Raising the count of a page in use changes that count only and keeps list and counts consistent |
| `RefPages.Kmem.Decrement` | Lab-Memory Management in xv6/CoW Implement/xv6-public-master/correct_kalloc.c:152-163 | Lowering a count that stays positive likewise |
| `RefPages.Kmem.CountFree` | Lab-Memory Management in xv6/CoW Implement/xv6-public-master/correct_kalloc.c:181-196 | Walking the list gives the cached number of free pages |

## Left out

- Hardware and boot, device drivers, the console, spinlock internals, swtch and trap entry; user programs other than
  sh's parser, malloc and grep's matcher.
- LogCode.Log.Commit: nobody holds a buffer while it runs, as when all readers are inside operations; other processes'
  steps during a commit, reads included, are in `LogMachine` and `LogAgreement`.
- LogCode.Log.WriteLog: likewise, no other buffer is held.
- LogCode.Log.WriteHead: likewise.
- LogCode.Log.InstallTrans: likewise.
- LogCode.Log.EndOp: likewise, for the last operation only.
- LogTheorems.RefinesGroupCommit: for a log without room the run leaves the specification, as `LogLimits.OverrunExactly`
  shows; what the file system holds after that is not modelled.
- BufferCache.Cache.Bget: waiting for a buffer another process has locked is not modelled; the buffer must be unlocked.
- BufferCache.Cache.Bread: likewise.
- initlog's read of the superblock; the layout is a parameter. A header count above LOGSIZE on disk is excluded, as the
  source does not check it either.
- Umalloc.Heap.Malloc: requests of 2^31 bytes or more once rounded are excluded, because sbrk takes a signed amount and
  would shrink the process; the heap lies above the static header, as in the process layout of exec.
- Umalloc: addresses are counted in headers of 8 bytes, so sbrk results are taken as aligned.
- sh.c's runcmd, getcmd and the printing of leftovers; parseblock's own panic cannot happen, as its only caller peeks
  first.
- FsCode.Fs.Readi: device inodes (devsw) are excluded, and a file with holes, where the read would allocate.
- FsCode.Fs.Writei: device inodes are excluded; when space runs out half way (a panic in the source; exactly when that
  happens is stated) ownership is still proved but not what the file then holds.
- iget, idup, ilock, iput's reference counts, ialloc's scan, stati, namex and path parsing.
- LinkCode.Namespace.Create: the parent must still be linked (a removed directory that is somebody's current directory
  is excluded), ialloc's choice and path lookup are parameters, and nlink is unbounded.
- LinkCode.Namespace.LinkEnd: the parent must still be linked, for the same reason.
- LinkCode: directory contents are entry lists rather than file bytes, and names are compared whole, not cut to 14
  characters.
- ProcMachine: pids are unbounded; file closing and memory copying in fork and exit are not part of it; a process is
  taken to sleep on its own table entry only in wait.
- VmCode.Vm.MapPages: the pages must be unmapped (the source panics on a remap); addresses are page numbers; the
  kernel's regions are a list of disjoint page ranges above KERNBASE.
- VmCode.Vm.DeallocUvm: sizes up to KERNBASE, as at every call.
- VmCode.Vm.CopyUvm: pages below the size must be present (the source panics otherwise).
- VmCode: kalloc inside walkpgdir is written out, because a frame of the caller may be in hand at that moment.
- inituvm, loaduvm, clearpteu, uva2ka and copyout, which would add easy members.
- FirstFit.Page.Alloc: sizes of 0 or less are excluded; for those the source hands out an address with no bytes.
- ealloc.c, cleanup, and the grep line loop.
- LazyMachine: calls and faults are whole steps; page tables do not take frames from the list of free ones, their lack
  is a parameter of the methods of `LazyCode`, and a program is loaded by growth and stores.
- LazyCode.Vm.Mmap: what the kernel does after a write through a null pointer or without its first page is not modelled.
- LazyCode.Vm.CopyUvm: nor after a null pointer; pages below the size have an entry (the source panics otherwise).
- RefPages: page numbers stand for addresses, so the alignment and range checks of kfree are not part of it.
- CowCode.Vm.CopyUvm: pages below the size must be present (the source panics otherwise); the frames of page tables
  are not counted one by one, their lack is a parameter.
- CowCode.Vm.Fault: addresses below KERNBASE; the processor is taken to see every change of a page table entry, which
  the reloads of cr3 in fork and trap are for.
- CowCode.Vm.Kfree: the check of the address.
- CowRace: the steps inside kfree, kalloc and one page of copyuvm and deallocuvm, which take kmem.lock; faults that find
  no memory.
- RefPages.Kmem.Increment: the page must be in use; the other cases are in `RefPages.CountConsistent`.
- RefPages.Kmem.Decrement: the count must stay positive, likewise.
- RefPages.Kmem.Kfree: the count must be positive; for a count of 0 see `RefPages.DoubleFreeCycles`.
- Pipe: wakeups of sleeping readers and writers, and pipealloc.
- cvar.c and the user-indexed counts of the other copy-on-write variant (CoW Implement/Himzu).
