# A verified model of a teaching kernel

This project models the hard core of an ECE 391 operating system kernel in Dafny and proves what
its users rely on: three terminals with a screen each, and the exact cases in which one reaches
the screen of another; programs that return to where they were called; a console that shows the
text printed on it; files that keep their bytes; and a grep that does not notice where its buffer
ends.

The code is modelled as it is written. Where it departs from what it is evidently meant to do, the
model keeps the departure, a lemma gives the exact condition under which the code still does what
is meant, and, where one input says it best, a second lemma names that input. One module, `Store`,
is different: it is the block file system as its design intends it, with the allocator and the
delete repaired, and it says so at its top.

## How the project is laid out

| file | part of the kernel |
|---|---|
| `Bytes.dfy`, `Sequences.dfy`, `Limits.dfy` | the 8-bit values, sequences, the sizes several parts share |
| `Console.dfy` | putc, scroll, tab and backspace over one page of video memory, in place |
| `Printing.dfy` | putc behind the page it prints on: the video pages as they follow one another in memory |
| `ConsoleText.dfy` | the same console against the unbounded text that was printed |
| `Machine.dfy` | processes, terminals, page mappings and saved contexts as a state machine |
| `Sessions.dfy` | the three terminals the kernel is meant to be, and what reaches from one to another |
| `Refinement.dfy` | every step and every run of `Machine` is one of `Sessions`, and what follows |
| `Processes.dfy` | what the steps mean for one process: its stack, its turns, where it goes on, its video mapping |
| `Kernel.dfy` | the globals of the kernel and the code that updates them, proved against `Machine` |
| `Support.dfy`, `Grep.dfy` | the string routines and the streaming line search of grep |
| `Directory.dfy` | the directory table as a list of names |
| `Descriptors.dfy` | file descriptors next to the table: open, create, close, delete, execute, halt |
| `Volume.dfy` | blocks and inodes: mount, read, write, and what create and delete do to them, as written |
| `Writes.dfy` | what a write does to the bytes of every file, in every branch, as written |
| `FullDisk.dfy` | what a write does when no block is free: it runs over the last inode |
| `Store.dfy` | the repaired block file system, with its table, as a map from names to bytes |
| `Kmalloc.dfy` | kmalloc with its headers in the arena |
| `Rtc.dfy` | the virtual real-time clock |
| `Memory.dfy`, `Numerals.dfy`, `Command.dfy` | memcpy and memmove, itoa and `%#x`, command lines |

Code that changes things step by step is a class or a method over arrays and fields. Each such
method is proved against a function on values, and the properties are lemmas about those functions.
`dafny verify dfyconfig.toml` checks everything.

## Main results

* **Three terminals.** `Refinement.EveryRun`: from the moment the shells are started, any
  sequence of ticks, terminal switches, executes, halts, interrupts, putcs, echoes and clears whose
  bytes fall in pages that are mapped takes the kernel through exactly the states and exits of the
  terminals of `Sessions`, each a screen and a stack of calls.
* **Whose screen it is.** `Refinement.KernelSparesExactly`: a step that prints nothing for a terminal
  leaves its screen and cursor alone if and only if the step spares it, a condition on the state
  before the step that only a byte behind its page or a clear can violate. `Refinement.KernelPrivateScreen`:
  a terminal that every step of a run spares shows what a console of its own would show after that
  terminal's own characters; runs whose bytes stay in their page and that do not clear spare all
  terminals (`Sessions.ContainedSpares`). `Refinement.PutcLeaksExactly` and `Refinement.EchoLeaksExactly` say
  which cells of which terminal the other bytes change, `Refinement.CharacterLeaks` is such a run.
* **Last in, first out.** `Refinement.HaltMatchesExecute`: whatever runs in between, on this
  terminal or another, a halt returns to the point of its execute.
* **No point of a program is lost.** `Processes.ResumesWhereLeft`: a program that loses the processor goes on
  at the very point where it was, whatever runs meanwhile, unless Ctrl+C was pressed on its terminal and a tick
  brings it back; then its caller gets 6. `Processes.RunTurns` says over any run whose turn it is, and
  `Processes.StacksApart` that every process has the 8 KB behind its control block as its kernel stack.
* **Backspace.** `Console.BackspaceUndoes`: after any history, late tabs and bytes beside the screen
  included (`Console.RunKeepsTidy`), a backspace takes back the character or the whole tab before it.
* **The console shows the text.** `ConsoleText.ConsoleShowsText`: the last 25 rows of any printed
  text, wrapped at 80 columns; `ConsoleText.ConsoleShowsTabs`: with spaces for its tabs.
* **grep and its buffer.** `Grep.DoOneFile`: the chunks never show, and the output is that of a search
  of the whole file if and only if no line longer than the buffer contains the pattern. Cut at their first
  colons, the printed lines are then the name and the lines of the file that contain the pattern.
* **Files, as written.** `Volume.Globals.ReadData` reads the right bytes. Each of the calls that
  change the disk has the exact condition under which every block stays owned once and marked: mounting
  (`Volume.MountOwns`), create (`Volume.CreateRawKeepsOwnership`), write (`Volume.WriteRawKeepsOwnership`)
  and delete (`Volume.DeleteRawKeepsOwnership`). `Writes.AcrossSplices` says exactly when a write that
  spans blocks leaves the right bytes, `Volume.CreateKeepsBytes` when create leaves every file's, and
  `FullDisk.OtherInodesExactly` when a write to a full disk leaves the other files' inodes.
* **Files, repaired.** The operations of `Store.Disk`, from `Mount` on, are operations on a map from names
  to bytes. Used and free blocks are conserved (`Volume.Conserved`).
* **No dangling descriptor.** `Descriptors.RunKeeps` for programs; `Descriptors.DeleteAndShells`
  says when the base shells, which delete does not look at, keep one.
* **kmalloc.** What is given out and the one free block behind it tile the arena without a gap or an
  overlap (`Kmalloc.ArenaTiled`). The code never notices that the arena is exhausted: `Kmalloc.Heap.Kmalloc`
  faults exactly when the requests, their headers and one more header do not fit. The addresses are
  distinct bytes of memory exactly within the first 4 MB (`Kmalloc.InMemoryExactly`).

## Where the code and its intention or documentation disagree

* A tab in the last four columns leaves the screen (`Console.PutStaysInside`, `Console.StaysExactly`), and
  the line that follows runs over the rows below (`Console.BesideSpills`).
* putc does not look whether its byte falls in the page. After a late tab in the bottom row it writes on to
  the page mapped behind it, which is the one on display, and echo to the backup page of terminal 0
  (`Printing.SpillSparesExactly`, `Refinement.PutcLeaksExactly`, `Refinement.EchoLeaksExactly`,
  `Refinement.CharacterLeaks`).
* A backspace at the top left reads the attribute in front of video memory, at 0xB7FFF, before it looks at the
  cursor. `paging_init` maps nothing there, so putc takes a page fault (`Console.TidyFront`,
  `Refinement.FaultsExactly`); echo for a terminal that is not executing reads the end of another page and
  does nothing.
* `execute` and `halt` leave the user's video mapping as it is until the next tick, so that a program inherits the
  mapping of its caller (`Processes.MappingInherited`).
* `clear` blanks the active terminal's page while resetting the shown one's cursor (`Refinement.ClearSpares`,
  `Refinement.ClearClears`, `Refinement.ClearLosesAnA`).
* `vidmap` finds the backup page by process number (`Refinement.VidmapOwnPage`, `Refinement.VidmapWrongPage`).
* grep breaks a line that is longer than its buffer (`Grep.WholeExactly`, `Grep.LongLineBroken`).
* A name of more than 32 bytes can be created twice (`Directory.CreateKeepsDistinct`, `Directory.LongNameTwice`).
* `find_free_inode` looks at the bitmap of data blocks, and nothing marks an inode. A new file gets the inode
  that has the number of the first free block, whoever has it already, and empties it
  (`Volume.CreateKeepsBytes`, `Volume.FirstCreateEmpties`, `Descriptors.CreateKeepsOwnInodes`); files created in
  a row share one (`Descriptors.CreatedTwiceShare`).
* `find_free_datablock` does not mark what it finds, and `write_data` tests for 0 where failure is -1,
  allocates nothing in its one-block branch and replaces blocks that the file has
  (`Volume.WriteRawKeepsOwnership`, `Volume.FirstWriteBreaks`, `Writes.AcrossSplices`).
* On a full disk a write that spans blocks gets the block number 0xFFFFFFFF. Times 4096 that wraps round to the
  block before the first one, which is the last inode: its size and slots are overwritten, so the file there loses
  its bytes (`FullDisk.LastInodeExactly`, `FullDisk.OtherInodesExactly`, `FullDisk.LastSize`,
  `FullDisk.FullDiskEmpties`).
* `delete` clears the bits of the slots' numbers, not of the blocks (`Volume.DeleteRawKeepsOwnership`,
  `Volume.FirstDeleteBreaks`), and does not look at the base shells (`Descriptors.ShellKeepsDeleted`).
* `file_system_init` looks at the first 64 slots of a file (`Volume.MountOwns`, `Volume.LongFileUnmarked`).
* `kmalloc` takes the size of the rest from the field it has just overwritten (`Kmalloc.Heap.Kmalloc`,
  `Kmalloc.ArenaFilled`), does not advance the head of the list on an exact fit (`Kmalloc.Heap.Take`), and its
  arena is mapped four times to the first 4 MB of memory, video pages included (`Kmalloc.InMemoryExactly`,
  `Kmalloc.OffTheScreenExactly`).
* `getargs` puts its terminator behind the bytes asked for unless the argument is shorter (`Command.GetArgs`).
* A comment in `student-distrib/rtc.c` gives 512 Hz as the highest frequency; the code accepts 1024
  (`Rtc.AcceptedFrequencies`). The model follows the code.

## Model

| member | source | states |
|---|---|---|
| `Console.Video.Clear` | student-distrib/lib.c:31-43 | Every cell on the screen is blank, the hidden rest of the page is untouched and the cursor is at the top left. |
| `Console.Video.Scroll` | student-distrib/lib.c:48-59 | Every row moves up one, the bottom row is erased, the cursor follows and the hidden cells stay. |
| `Console.Video.Backspace` | student-distrib/lib.c:212-230 | From any cursor in the page and any cells, tab cells or not, the in-place branch does what the value-level backspace does, and leaves early or faults by what lies in front of the page. |
| `Console.Video.EraseBack` | student-distrib/lib.c:217-230 | The loop erases exactly the run of tab cells before the cursor, crossing row borders and stopping at the top left, and nothing else. |
| `Console.Video.Tabulate` | student-distrib/lib.c:231-239 | The cells up to the next multiple of four become spaces with the attribute of a tab, also past the last column; every other cell stays, and the cursor is behind them. |
| `Console.Video.Putc` | student-distrib/lib.c:204-259 | The in-place code does to page and cursor what `Put` says, for every byte that falls in the page and every page, and ends as `PutExit` says. |
| `Console.EraseCountShape` | student-distrib/lib.c:212-230 | On every console whose page only putc and clear have written to, a backspace takes one cell, or the maximal run of at most four tab cells, which ends an aligned group at the cursor. |
| `Console.NewlineMoves` | student-distrib/lib.c:205-211 | Line feed and return lead to the first column of the next row; below the last one everything moves up and an erased row comes in. |
| `Console.OrdinaryPrints` | student-distrib/lib.c:240-250 | Every byte but 8, 9, 10 and 13 is printed at the cursor with attribute 7, and the 80th of a row is followed by a newline. |
| `Console.TidyFront` | student-distrib/lib.c:212-230 | On such a console a backspace reads the cell in front of the page if and only if the cursor is at the top left. |
| `Console.PutStaysInside` | student-distrib/lib.c:204-253 | The cursor stays on the screen if and only if the byte is not a tab in columns 76 to 79. |
| `Console.PutKeepsTidy` | student-distrib/lib.c:204-253 | Every byte that falls in the page, late tabs included, keeps tab cells a suffix of every aligned group of four, with none before the cursor in its own group. |
| `Console.PutKeepsOk` | student-distrib/lib.c:204-253 | Every byte that leaves the cursor on the screen keeps everything from the cursor on blank. |
| `Console.BackspaceUndoes` | student-distrib/lib.c:212-240 | Wherever in the page the cursor is, backspace after a character or a tab puts the cursor back where it was, up to the scroll the character caused, erases exactly the cells that were written and changes no other. |
| `Console.BackspaceRestoresInk` | student-distrib/lib.c:212-240 | The screen then looks as before if and only if the cells written over were blank. |
| `Console.TabEraseCount` | student-distrib/lib.c:212-239 | A backspace after a tab in any column takes exactly the cells of that tab, even when another tab ends just before it. |
| `Console.StaysExactly` | student-distrib/lib.c:204-253 | Over any history the cursor stays on the screen if and only if no tab is printed in the last four columns. |
| `Console.RunKeepsTidy` | student-distrib/lib.c:204-253 | Any history of bytes that fall in the page, on and beside the screen, keeps the shape of the tab cells. |
| `Console.RunKeepsOk` | student-distrib/lib.c:204-253 | Any history in which the cursor stays on the screen leaves only blanks from the cursor on. |
| `Console.ClearedIsTidy` | student-distrib/lib.c:31-43 | After a clear both hold, as long as the hidden end of the page has its tab cells in shape. |
| `Console.LateTab` | student-distrib/lib.c:231-239 | A tab in column 76 puts the cursor in column 80 of the same row. |
| `Console.StaysBeside` | student-distrib/lib.c:235-250 | From beside the screen only a newline, or a backspace near its edge, leads back. |
| `Console.BesideSpills` | student-distrib/lib.c:240-250 | A line printed there is never wrapped: it replaces the rows below, byte for byte, and stays in the page if and only if it is no longer than what is left of it. |
| `Console.SpilledUnderCursor` | student-distrib/lib.c:205-211 | The newline after it leads to the row that the line has just replaced. |
| `Printing.SpillAt` | student-distrib/lib.c:212-241 | A byte behind the page changes exactly the cells where it lands, in whichever page is mapped there: to the character, a tab's space or an erased cell. |
| `Printing.SpillCells` | student-distrib/lib.c:212-242 | Which cells: one for a character, those up to a multiple of four for a tab, for a backspace one or the run of at most four tab cells before the cursor; the cursor moves by as many columns. |
| `Printing.SpillSparesExactly` | student-distrib/lib.c:212-241 | A video page stays as it is if and only if the byte lands on no cell of it that differs from what is written. |
| `Printing.PageBehind` | student-distrib/sched.c:43-47 | Behind the first page come the one on display and the backup pages of the three terminals, in their order. |
| `Printing.NextPageHarmless` | student-distrib/sched.c:43-47 | A character or a tab up to a page behind lands on the second page of the mapping, on the cells at its offset less 2048, and spares a page if and only if it is another one or has that ink there. |
| `Printing.OutOfReach` | student-distrib/sched.c:43-48 | Behind the last backup page every byte but a newline or a backspace faults, and so does every character that is printed about it. |
| `ConsoleText.TypedIsLayout` | student-distrib/lib.c:204-250 | Typing character by character builds the layout of the whole text: lines split at newlines, each wrapped at 80. |
| `ConsoleText.PutShows` | student-distrib/lib.c:204-250 | If the screen shows the last 25 rows of a log, it still does after one more character or newline, scrolled or not. |
| `ConsoleText.RunShows` | student-distrib/lib.c:204-250 | The same over a text of any length. |
| `ConsoleText.ConsoleShowsText` | student-distrib/lib.c:31-59 | After a clear, any text of characters and newlines leaves the last 25 rows of its layout on the screen and the cursor behind it. |
| `ConsoleText.RunExpanded` | student-distrib/lib.c:231-239 | Printing a text with tabs shows the characters that printing spaces for them shows, as long as no tab is in the last four columns. |
| `ConsoleText.ConsoleShowsTabs` | student-distrib/lib.c:204-250 | After a clear, any text of characters, newlines and tabs, none late, leaves the characters of the last 25 rows of the layout in which every tab is filled up with spaces to a multiple of four. |
| `Machine.FirstFree` | student-distrib/syscall.c:185-188 | execute takes the lowest process that is not present, or finds none. |
| `Machine.StackMask` | student-distrib/lib.c:19-25 | Masking a stack pointer gives a process's control block if and only if the pointer lies in that process's 8 KB stack. |
| `Sessions.IdealExecGood` | student-distrib/syscall.c:184-230 | execute keeps every terminal's calls well nested and every process in one place. |
| `Sessions.IdealHaltGood` | student-distrib/syscall.c:77-136 | halt keeps them too. |
| `Sessions.SparesExactly` | student-distrib/lib.c:204-277 | A step that prints nothing for a terminal leaves its screen and cursor alone if and only if it spares it. |
| `Sessions.PrivateScreen` | student-distrib/lib.c:204-277 | Over any run that spares a terminal, its screen is that of a console given only the characters meant for it. |
| `Sessions.ContainedSpares` | student-distrib/lib.c:204-277 | A run whose bytes stay in their page and that does not clear spares every terminal. |
| `Sessions.OpenCallsStay` | student-distrib/syscall.c:123-136 | A call that is not returned from keeps its return point through any run. |
| `Sessions.IdealHaltMatches` | student-distrib/syscall.c:123-136 | The halt that closes a call returns to the point of that call. |
| `Refinement.ScheduleRefines` | student-distrib/sched.c:148-185 | Saving one process and loading the next is a change of the active terminal and of nothing a terminal can see. |
| `Refinement.SwapRefines` | student-distrib/lib.c:322-325 | Copying the pages out and in changes which terminal is on display but no terminal's view. |
| `Refinement.SwitchRefines` | student-distrib/lib.c:316-366 | A terminal switch is the ideal one: views and cursors stay, and the processor resumes the context the shown terminal waits in. |
| `Refinement.ExecRefines` | student-distrib/syscall.c:184-230 | execute pushes one call on the active terminal's stack, or fails and changes nothing. |
| `Refinement.RespawnSlot` | student-distrib/syscall.c:93-97 | When a base shell halts, the lowest free process is its own, so the shell is started again under its own pid. |
| `Refinement.QuitRefines` | student-distrib/syscall.c:77-136 | halt pops the latest call of the active terminal and returns to it, or restarts the base shell. |
| `Refinement.SeenIffShown` | student-distrib/lib.c:254-258 | putc's comparison of pids holds exactly when the executing terminal is on display. |
| `Refinement.PutcRefines` | student-distrib/lib.c:204-259 | putc changes the screen of the active terminal as a console of its own would, and behind its page the cells it lands on, whichever page is mapped, with the same exit. |
| `Refinement.EchoRefines` | student-distrib/lib.c:261-277 | echo changes the screen of the shown terminal, also while another executes, and behind its page the cells it lands on. |
| `Refinement.InterruptRefines` | student-distrib/keyboard.c:129-133 | Ctrl+C marks the shown terminal and nothing else. |
| `Refinement.TickRefines` | student-distrib/sched.c:148-202 | A tick moves on to the next terminal and kills its program if Ctrl+C was pressed there, in every good state. |
| `Refinement.StepRefines` | student-distrib/sched.c:148-202 | Every step of the kernel whose bytes fall in mapped pages is possible in every good state, and is one step of the three terminals with the same exit. |
| `Refinement.RunRefines` | student-distrib/sched.c:148-202 | So is every run, exit by exit. |
| `Refinement.InitialRefines` | student-distrib/sched.c:35-146 | What initiate_shells leaves is three fresh terminals if and only if no unused process slot looks taken. |
| `Refinement.EveryRun` | student-distrib/sched.c:35-202 | Every run from there on, clears and bytes behind a page included, is a run of the three terminals. |
| `Refinement.KernelPrivateScreen` | student-distrib/lib.c:204-366 | In the kernel itself a terminal that is spared shows its own characters and nothing more after any run. |
| `Refinement.KernelSparesExactly` | student-distrib/lib.c:31-277 | In the kernel itself a step leaves the screen and cursor of a terminal it prints nothing for alone if and only if it spares it, by a condition on the state before. |
| `Refinement.PutcLeaksExactly` | student-distrib/lib.c:231-241 | A character or tab up to a page behind the active terminal's page leaves the other terminals alone if and only if the active one is on display, or the terminal on display shows that very ink there. |
| `Refinement.EchoLeaksExactly` | student-distrib/lib.c:264-276 | The same for echo while another terminal executes: exactly when terminal 0 is on display, or its backup page has that ink there. |
| `Refinement.CharacterLeaks` | student-distrib/lib.c:231-241 | A tick and 149 bytes to a terminal off display, after which its next character changes the top left of the screen of another. |
| `Refinement.FaultsExactly` | student-distrib/lib.c:212-215 | For a terminal whose tab cells are in shape a byte in its page makes putc fault if and only if it is a backspace at the top left. |
| `Refinement.HaltMatchesExecute` | student-distrib/syscall.c:77-252 | However many programs run, switch or halt in between, halt resumes the frame its matching execute saved. |
| `Refinement.ContextCoherent` | student-distrib/sched.c:148-185 | In every reachable state the user page, esp0 and the running process are the active terminal's, and both video mappings lead to the real page if that terminal is shown and to its own backup page if not. |
| `Refinement.VidmapOwnPage` | student-distrib/syscall.c:380-401 | vidmap maps the terminal's own page if and only if it is on display or the caller is its base shell. |
| `Refinement.VidmapWrongPage` | student-distrib/syscall.c:388-392 | A run of two steps after which vidmap maps a page behind the backup pages. |
| `Refinement.ClearSpares` | student-distrib/lib.c:31-43 | clear leaves the terminals off display alone if and only if the active one is on display or already blank. |
| `Refinement.ClearClears` | student-distrib/lib.c:31-43 | The shown terminal is cleared if and only if it is the active one, or held nothing but spaces. |
| `Refinement.ClearLosesAnA` | student-distrib/lib.c:31-43 | A run of two steps after which clear wipes out what another terminal printed. |
| `Refinement.ClearRefines` | student-distrib/lib.c:31-43 | clear, whichever terminals are active and shown, blanks the one's screen and resets the other's cursor, and nothing else. |
| `Processes.StacksApart` | student-distrib/lib.c:19-25 | In every good state the pointers into the 8 KB from a process's control block up to its esp0, and no others, mask to that block; esp0 of the processor is that of the running process. |
| `Processes.ExecExactly` | student-distrib/syscall.c:184-229 | execute fails if and only if the file is no program or six processes run; otherwise the lowest free slot runs it, on its own stack and page, with the caller's frame and process as parent, and nothing else changes. |
| `Processes.HaltExactly` | student-distrib/syscall.c:77-136 | halt of a program gives the processor back to the caller's process, page and stack at the frame it saved; the slot is free without a mapping, and no other process changes. |
| `Processes.ShellAgain` | student-distrib/syscall.c:93-97 | halt of a base shell starts it anew in its own slot, on its own stack and without a mapping. |
| `Processes.ShellsBegin` | student-distrib/sched.c:63-124 | Before anything runs exactly the three shells are there, each on its own stack, and none has the video mapping. |
| `Processes.RunTurns` | student-distrib/sched.c:156-168 | Over any run ticks give the processor to the terminals in turn, and a switch, but nothing else, chooses what is on display and who executes. |
| `Processes.ResumesWhereLeft` | student-distrib/sched.c:148-202 | A program that loses the processor goes on where it was when it gets it back, or, by a tick after Ctrl+C on its terminal and then only, is killed with 6 to its caller. |
| `Processes.StepKeepsMapping` | student-distrib/sched.c:179 | No step leaves a free slot that asks for the video mapping, and a program that goes on has the mapping if and only if its control block asks for it. |
| `Processes.RunKeepsMapping` | student-distrib/syscall.c:84-85 | Nor does any run. |
| `Processes.MappingInherited` | student-distrib/syscall.c:193-229 | A program that has just been started has the mapping its caller had, though its own block does not ask for it. |
| `Processes.VidmapAsks` | student-distrib/syscall.c:380-401 | vidmap asks for the mapping and gets it, and the state stays a good one if and only if the terminal is on display or the caller is its base shell. |
| `Kernel.Globals.InitiateShells` | student-distrib/sched.c:35-146 | The code that starts the shells leaves the initial state, whatever the tables held. |
| `Kernel.Globals.StartShells` | student-distrib/sched.c:63-124 | The loop sets up terminals, control blocks and stacks from the last to the first and leaves the first mapped. |
| `Kernel.Globals.PointConsole` | student-distrib/sched.c:151-166 | Saves one cursor, loads another and maps the page, keeping the mapped page and the table entry together. |
| `Kernel.Globals.Reschedule` | student-distrib/sched.c:168-179 | Saves the running context before the next one is read, also when both are the same process. |
| `Kernel.Globals.PitHandler` | student-distrib/sched.c:148-185 | The timer code takes the step of the state machine. |
| `Kernel.Globals.Tick` | student-distrib/sched.c:148-202 | The timer interrupt, with the kill of a program whose terminal had Ctrl+C, takes the step of the state machine. |
| `Kernel.Globals.SwapPages` | student-distrib/lib.c:322-325 | The displayed page is put away and the next one brought in; the other backup pages stay. |
| `Kernel.Globals.Display` | student-distrib/lib.c:321-331 | Pages, mapping and cursor are those of the next terminal, and the running one's cursor is kept. |
| `Kernel.Globals.SwitchTerminal` | student-distrib/lib.c:316-366 | The switching code takes the step of the state machine. |
| `Kernel.Globals.Execute` | student-distrib/syscall.c:184-229 | The code of execute takes its step, with the loop finding the lowest free process. |
| `Kernel.Globals.Halt` | student-distrib/syscall.c:77-136 | The code of halt takes its step in both branches, and answers the status, or 256 after an exception. |
| `Kernel.Globals.Putc` | student-distrib/lib.c:204-259 | putc with the copy of the cursor, which an early return skips, on whichever page video_mem reaches and behind it, for every byte that falls in a mapped page. |
| `Kernel.Globals.PutcBehind` | student-distrib/lib.c:212-242 | The branches of putc behind the page write the cells that `Spill` says and move the cursor as it says. |
| `Kernel.Globals.TabBehind` | student-distrib/lib.c:231-239 | The loop of a tab there. |
| `Kernel.Globals.BackspaceBehind` | student-distrib/lib.c:217-230 | The loop of a backspace there, across the border of two pages as well. |
| `Kernel.Globals.Echo` | student-distrib/lib.c:261-277 | The code of echo takes its step, for every byte that falls in a mapped page. |
| `Kernel.Globals.EchoAway` | student-distrib/lib.c:264-276 | Borrowing cursor and page for one putc and giving them back leaves the executing terminal as it was. |
| `Kernel.Globals.Clear` | student-distrib/lib.c:31-43 | clear through the mapping blanks the page of the active terminal, resets the cursor of the shown one and touches no other page. |
| `Support.Strlen` | syscalls/ece391support.c:6-12 | The distance to the terminator. |
| `Support.CopyDown` | syscalls/ece391support.c:14-17 | The string arrives intact and terminated although source and destination overlap; the bytes behind it stay. |
| `Support.Strncmp` | syscalls/ece391support.c:35-46 | Zero if and only if the pattern is a prefix of the string. |
| `Grep.PiecesLine` | syscalls/ece391grep.c:29-57 | Searching what fits the buffer of a line and then the text behind it is searching the whole in pieces. |
| `Grep.PiecesSilent` | syscalls/ece391grep.c:29-57 | The pieces of a line without a match print nothing. |
| `Grep.WholeExactly` | syscalls/ece391grep.c:10-66 | The search in pieces is the search of the whole if and only if no line longer than the buffer contains the pattern. |
| `Grep.LongLineBroken` | syscalls/ece391grep.c:33-56 | A line of 1025 bytes that is printed in two. |
| `Grep.LinesJoined` | syscalls/ece391grep.c:29-32 | The lines of a text hold no newline, and with their newlines they are the text. |
| `Grep.GreppedLines` | syscalls/ece391grep.c:41-51 | Behind the colons of a search of a whole file are exactly the lines with the pattern, in order. |
| `Grep.PiecesNamed` | syscalls/ece391grep.c:45-48 | Also in pieces every printed line has the name before its first colon. |
| `Grep.LongMatchInLines` | syscalls/ece391grep.c:33-39 | The condition on long lines, over the lines of the file. |
| `Grep.SearchedLine` | syscalls/ece391grep.c:40-56 | What is printed for one line, or for a full buffer, plus what is left to search is what was left before. |
| `Grep.Read` | student-distrib/filesys.c:183-217 | A read fills the buffer from the file and is short only at its end. |
| `Grep.FindLineEnd` | syscalls/ece391grep.c:30-32 | The first newline or the end of what was read. |
| `Grep.CarryOver` | syscalls/ece391grep.c:33-38 | The unfinished line moves to the front byte for byte. |
| `Grep.SearchLine` | syscalls/ece391grep.c:42-51 | Prints name, colon, line and newline once if and only if the pattern occurs somewhere in the line, and nothing otherwise. |
| `Grep.CutAndSearch` | syscalls/ece391grep.c:40-51 | Ends the line in the buffer and searches it, changing one byte. |
| `Grep.SearchChunk` | syscalls/ece391grep.c:29-57 | The lines of a chunk are reported and the cut line is what remains, so that nothing of the search is lost. |
| `Grep.SearchNext` | syscalls/ece391grep.c:40-56 | One line of a chunk is reported and the rest of the chunk is what remains. |
| `Grep.NextChunk` | syscalls/ece391grep.c:21-60 | One round of reading and searching keeps the output plus the search of the rest. |
| `Grep.SearchFile` | syscalls/ece391grep.c:20-60 | The loop prints what a search in pieces prints. |
| `Grep.DoOneFile` | syscalls/ece391grep.c:10-66 | For every file without NUL bytes the output is that of a search in pieces, wherever the chunk borders fall, and of a search of the whole file if and only if no line longer than 1024 bytes contains the pattern. Every printed line has the name before its first colon, and what is behind these colons are then the lines of the file with the pattern, once each and in order. |
| `Directory.PaddedName` | student-distrib/syscall.c:430-436 | The name read back from a field is the name written, cut after 32 bytes. |
| `Directory.NamedIs` | student-distrib/filesys.c:118 | An entry is in use if and only if the name in its field is not empty. |
| `Directory.Lookup` | student-distrib/filesys.c:135-156 | The lowest index whose entry has the name, or -1 if none has. |
| `Directory.LookupUnique` | student-distrib/filesys.c:135-156 | Among distinct names lookup gives the one entry with the name. |
| `Directory.CreateKeepsDistinct` | student-distrib/syscall.c:420-441 | create keeps the names distinct if and only if the name fits its field or what fits of it is new. |
| `Directory.CreateThenLookup` | student-distrib/syscall.c:420-441 | A created file is found if and only if its name fits its field, and then at the end of the table. |
| `Directory.LongNameTwice` | student-distrib/syscall.c:420-441 | A 33-byte name for which the same file is created twice. |
| `Directory.DeleteRemoves` | student-distrib/syscall.c:484-489 | The name is gone, the names stay distinct and every other name leads to the entry it led to. |
| `Directory.LookupIsDir` | student-distrib/filesys.c:135-156 | A lookup in the table is a lookup in the map of entries of type 2, devices and the directory apart. |
| `Directory.CreateInDir` | student-distrib/syscall.c:430-441 | Appending an entry adds one name to the map. |
| `Directory.DeleteInDir` | student-distrib/syscall.c:484-489 | Taking an entry out takes one name from the map. |
| `Descriptors.FreeSlot` | student-distrib/syscall.c:310-311 | The lowest free descriptor from 2 on, or none. |
| `Descriptors.OpenIs` | student-distrib/syscall.c:306-330 | open answers -1 if and only if no descriptor from 2 on is free or no entry has the name; otherwise the lowest free one is open from position 0 with inode and type of the lowest entry with the name, and all others stay. |
| `Descriptors.CreateIs` | student-distrib/syscall.c:413-452 | create answers -1 if and only if no descriptor or inode is free or the name is there; otherwise a regular entry with the name cut after 32 bytes is at the end of the table, its inode, that of the number of the first free block, has size 0, the lowest free descriptor is open on it, and all else stays. |
| `Descriptors.DeleteIs` | student-distrib/syscall.c:460-492 | delete answers -1 if and only if no entry has the name or a program holds its inode; otherwise the lowest entry with the name goes, the order of the rest stays, and the file's blocks are zeroed. |
| `Descriptors.CreateThenOpen` | student-distrib/syscall.c:426-447 | What the name of a created file opens, in whichever process, is the inode that was created. |
| `Descriptors.CreatedOpens` | student-distrib/syscall.c:306-330 | It opens if and only if the name fits its field and a descriptor is free. |
| `Descriptors.StartAndStop` | student-distrib/syscall.c:204-210 | A program starts with descriptors 0 and 1 alone and ends with none from 2 on; other processes' descriptors stay. |
| `Descriptors.StepKeeps` | student-distrib/syscall.c:306-347 | No call, start or end of a process leaves a program with a descriptor of a file that is gone. |
| `Descriptors.RunKeeps` | student-distrib/syscall.c:413-475 | No run of them does, and processes that do not run hold no descriptor. |
| `Descriptors.DeleteAndShells` | student-distrib/syscall.c:468-475 | With the base shells included, a delete does so if and only if no shell holds the inode or it is listed once more. |
| `Descriptors.ShellKeepsDeleted` | student-distrib/syscall.c:468-475 | A delete that succeeds while the first shell has the file open. |
| `Descriptors.CreateKeepsOwnInodes` | student-distrib/syscall.c:426-441 | create, with the inode it finds, keeps every file on an inode of its own if and only if no listed inode has the number of the first free block. |
| `Descriptors.CreatedTwiceShare` | student-distrib/filesys.c:229-237 | Whatever is written to a new file, the next create finds the same inode again and sets its size to 0. |
| `Descriptors.Globals.SameName` | student-distrib/filesys.c:147-150 | The byte loop decides equality with the name in the field, also for 32-byte names without terminator. |
| `Descriptors.Globals.ReadDentryByName` | student-distrib/filesys.c:135-156 | The lowest index with the name, or -1. |
| `Descriptors.Globals.FindSlot` | student-distrib/syscall.c:310-311 | The loop finds the lowest free descriptor. |
| `Descriptors.Globals.Open` | student-distrib/syscall.c:306-330 | Opens the file of the lowest entry with the name at the lowest free descriptor from position 0, or answers -1 exactly when there is none of either, and changes nothing. |
| `Descriptors.Globals.Create` | student-distrib/syscall.c:413-452 | Finds an inode, empties it, appends one entry with the padded name and opens it, or answers -1 exactly when descriptor, name or inode forbid it, and changes nothing. |
| `Descriptors.Globals.Close` | student-distrib/syscall.c:338-348 | Frees one open descriptor from 2 to 7 and no other, or answers -1 and changes nothing. |
| `Descriptors.Globals.IsHeld` | student-distrib/syscall.c:468-475 | Finds out whether a program, base shells apart, has the inode open. |
| `Descriptors.Globals.Remove` | student-distrib/syscall.c:484-489 | The overlapping move takes out exactly one entry and keeps the order of the rest. |
| `Descriptors.Globals.Delete` | student-distrib/syscall.c:460-489 | Zeroes the blocks, clears the bits of the slots' numbers and takes out exactly one entry; a held or missing file is refused and nothing changes. |
| `Volume.MountOwns` | student-distrib/filesys.c:117-125 | Mounting establishes the ownership of blocks if and only if no named file goes beyond 64 slots. |
| `Volume.LongFileUnmarked` | student-distrib/filesys.c:121-123 | A file of 65 blocks of which mounting leaves one unmarked. |
| `Volume.Conserved` | student-distrib/filesys.c:109-126 | Where every block is owned once and marked, slots in use and free blocks add up to the disk. |
| `Volume.Globals.FileSystemInit` | student-distrib/filesys.c:109-126 | A bit is set exactly for the inodes of named entries, and exactly for the blocks in their first 64 slots. |
| `Volume.Globals.MarkFile` | student-distrib/filesys.c:121-123 | The inner loop marks exactly the blocks of one more file. |
| `Volume.Globals.ReadData` | student-distrib/filesys.c:183-217 | Answers -1 exactly for the arguments refused, else the smaller of the count and what is left of the file from the offset; so many bytes of the file arrive, and the rest of the buffer is unchanged. |
| `Volume.Globals.ReadAcross` | student-distrib/filesys.c:207-215 | The block loop joins the pieces across any number of blocks. |
| `Volume.ReadsCoverFile` | student-distrib/syscall.c:263-275 | Reading with any positive counts until an answer is empty gives the whole file, once and in order. |
| `Volume.EmptyExactly` | student-distrib/syscall.c:263-275 | Of reads of any positive counts, one comes back empty if and only if the counts before it add up to the file. |
| `Volume.FirstEmptyRead` | student-distrib/syscall.c:263-275 | With one count throughout, the first empty answer is the first at which the counts have covered the file. |
| `Volume.FindFreeDatablock` | student-distrib/filesys.c:219-227 | The lowest block from the start on whose bit is clear; every lower bit is set, and so are all when there is none. |
| `Volume.Globals.FindFree` | student-distrib/filesys.c:219-227 | The loop finds that block, or 0xFFFFFFFF. |
| `Volume.LowestInode` | student-distrib/filesys.c:229-237 | The lowest inode number from 1 on whose bit in the bitmap of data blocks is clear, or none when all are set. |
| `Volume.Globals.FindFreeInode` | student-distrib/filesys.c:229-237 | The loop finds it. |
| `Volume.CreateRawKeepsOwnership` | student-distrib/syscall.c:440 | Setting the size of an inode to 0 and naming it keeps the ownership of blocks if and only if it was named before or has no block left over. |
| `Volume.CreateRawContent` | student-distrib/syscall.c:440 | That file is empty afterwards, and every other file keeps its bytes. |
| `Volume.CreateKeepsBytes` | student-distrib/syscall.c:426-440 | create keeps the bytes of every file if and only if no file of some size has the number of the first free block as its inode. |
| `Volume.FirstCreateEmpties` | student-distrib/syscall.c:426-440 | A disk of three blocks on which create empties the one file there is. |
| `Volume.Globals.WriteFirst` | student-distrib/filesys.c:260-266 | While a block is free: the first block of a write that spans blocks, and one free block for it or for the next slot. |
| `Volume.Globals.WriteData` | student-distrib/filesys.c:239-276 | write_data as written, in all its branches: -1 and 0 exactly for the arguments refused, otherwise the count asked for and the disk that the write leaves. |
| `Volume.Globals.WriteAcross` | student-distrib/filesys.c:260-271 | While a block is free, the block loop puts one and the same free block into every later slot and pours all later bytes into it. |
| `Volume.Globals.WriteAcrossFull` | student-distrib/filesys.c:260-271 | When none is, the slots from the next one on get 0xFFFFFFFF and the bytes are poured into the last inode, block after block. |
| `Volume.Globals.CopyTo` | student-distrib/filesys.c:258-271 | A copy to a block of the disk changes that block alone; one to block 0xFFFFFFFF changes the last inode alone, byte for byte. |
| `Volume.DecodedIs` | student-distrib/filesys.h:11-14 | As size and slots are 32-bit words, 4096 bytes are one inode and every inode is its own 4096 bytes. |
| `Volume.WithinBlockContent` | student-distrib/filesys.c:257-258 | Within a block that the file has, a write splices that file's bytes and leaves every other file's. |
| `Volume.WithinBlockOwned` | student-distrib/filesys.c:257-258 | Such a write keeps the ownership of blocks. |
| `Volume.WriteRawBreaks` | student-distrib/filesys.c:257-271 | Every other write that finds the blocks it needs breaks it (on a full disk, `FullDisk.FullBreaks`). |
| `Volume.WriteRawKeepsOwnership` | student-distrib/filesys.c:239-276 | A write that finds the blocks it needs keeps the ownership of blocks if and only if it stays within one block that the file has. |
| `Volume.DeleteRawIs` | student-distrib/syscall.c:477-482 | The blocks in the slots before the first empty one, as many as there are inodes, are zeroed and no others; the bits cleared are those of the slots' own numbers. |
| `Volume.FirstWriteBreaks` | student-distrib/filesys.c:257-258 | The first byte written to a new file breaks it. |
| `Writes.OthersKeep` | student-distrib/filesys.c:239-276 | Within a block, or while a block is free, a write leaves the bytes of every other file. |
| `Writes.SlotsAfter` | student-distrib/filesys.c:239-276 | The size grows to the end of the write; every slot behind the first that the write reaches, also the one behind a last full block, gets the free block, the first one if it was empty, and no other slot, inode or bit changes. |
| `Writes.OneBlockSplices` | student-distrib/filesys.c:257-258 | A write within one block splices the file, also into a slot without a block, where block 0 is written to. |
| `Writes.AcrossAt` | student-distrib/filesys.c:260-271 | Every byte of the file after a write that spans blocks. |
| `Writes.AcrossSplices` | student-distrib/filesys.c:260-271 | Such a write splices the file if and only if what it puts into the shared block repeats every 4096 bytes and the rest of the last block was there before. |
| `FullDisk.SlotsAfterFull` | student-distrib/filesys.c:260-271 | On a full disk these slots get 0xFFFFFFFF, and no inode but the one written and the last changes. |
| `FullDisk.LastInodeBytes` | student-distrib/filesys.c:260-271 | Every byte of the last inode after such a write. |
| `FullDisk.LastInodeExactly` | student-distrib/filesys.c:260-271 | On a full disk a write that spans blocks leaves the last inode as it was if and only if the bytes poured over it are the ones it had. |
| `FullDisk.OtherInodesExactly` | student-distrib/filesys.c:260-271 | It leaves the inodes of all other files if and only if none is on the last inode, or those bytes are the same. |
| `FullDisk.OthersKeepFull` | student-distrib/filesys.c:260-271 | Files on other inodes keep inode and bytes. |
| `FullDisk.LastFileKeeps` | student-distrib/filesys.c:260-271 | So does the file on the last inode if the bytes poured over it are the ones it had. |
| `FullDisk.FullBreaks` | student-distrib/filesys.c:260-271 | The file written always gets a slot with a block that is not on the disk. |
| `FullDisk.LastSize` | student-distrib/filesys.c:260-271 | The first four bytes written beyond the block border become the size of the file on the last inode, if less than a block is. |
| `FullDisk.FullDiskEmpties` | student-distrib/filesys.c:260-271 | A disk of two files on which a write to the first empties the second. |
| `Volume.DeleteRawKeepsOwnership` | student-distrib/syscall.c:477-482 | delete keeps the ownership of blocks if and only if the file has no block. |
| `Volume.FirstDeleteBreaks` | student-distrib/syscall.c:477-482 | A file of one block whose bit stays set when it is gone. |
| `Volume.DeleteRawContent` | student-distrib/syscall.c:477-482 | The bytes of every other file stay all the same. |
| `Volume.Globals.ZeroBlocks` | student-distrib/syscall.c:477-482 | The loop of delete zeroes the file's blocks and clears the bits of the slots' own numbers, while it stays within the slots. |
| `Store.Disk.Mount` | student-distrib/filesys.c:109-126 | From a table of distinct names, with files on separate inodes and separate blocks, mounting establishes everything the other operations keep. |
| `Store.Disk.MarkAll` | student-distrib/filesys.c:117-125 | A bit is set exactly for the inodes of named entries and exactly for their blocks. |
| `Store.Disk.MarkFile` | student-distrib/filesys.c:121-123 | The inner loop marks every block of one more file. |
| `Store.AllocateKeeps` | student-distrib/filesys.c:219-227 | A free block, marked and put into the next slot, keeps ownership and every file's bytes. |
| `Store.SpliceSplice` | student-distrib/filesys.c:265-271 | Two adjacent splices are one. |
| `Store.Disk.FindFreeDatablock` | student-distrib/filesys.c:219-227 | A block whose bit is clear, or 0 only if none is. |
| `Store.Disk.Provide` | student-distrib/filesys.c:261-263 | The slot has a block afterwards, or the disk is full; no file's bytes change. |
| `Store.Disk.CopyIn` | student-distrib/filesys.c:258 | A copy into one block is a splice of that file and of no other. |
| `Store.Disk.WriteChunk` | student-distrib/filesys.c:260-265 | Allocating at need and copying is a splice, or no change when the disk is full. |
| `Store.Disk.WritePiece` | student-distrib/filesys.c:266-271 | One round of the block loop: a piece more is spliced, or nothing changes. |
| `Store.Disk.WriteInode` | student-distrib/filesys.c:266-271 | The block loop splices everything, or exactly the prefix that fitted. |
| `Store.Disk.WriteData` | student-distrib/filesys.c:239-276 | The map from names to bytes changes at one name, by one splice; every block stays owned once and marked. |
| `Store.Disk.Create` | student-distrib/syscall.c:413-452 | The map gains one empty file; a refusal changes nothing and means that the name does not fit or is in use, the table is full, or all inodes are taken. |
| `Store.CreatedOwned` | student-distrib/syscall.c:440-441 | A new empty inode keeps ownership and every file's bytes. |
| `Store.CreatedFiles` | student-distrib/syscall.c:440-441 | The map of files gains exactly the new name. |
| `Store.CreatedDir` | student-distrib/syscall.c:430-441 | Disk and table together stay good when a file is created. |
| `Store.Disk.FreeBlocks` | student-distrib/syscall.c:478-482 | The loop zeroes and frees exactly the blocks of the file. |
| `Store.ReleasedOwned` | student-distrib/syscall.c:478-482 | Without the file and its blocks the ownership holds, and every other file's bytes stay. |
| `Store.ReleasedFiles` | student-distrib/syscall.c:478-489 | The map of files loses exactly the name. |
| `Store.ReleasedDir` | student-distrib/syscall.c:478-489 | Disk and table together stay good when a file is deleted. |
| `Store.WroteFiles` | student-distrib/filesys.c:239-276 | A write to one inode changes one name of the map. |
| `Store.Disk.Delete` | student-distrib/syscall.c:460-492 | The map loses the name and nothing else, and its blocks are free again. |
| `Kmalloc.PayloadsDisjoint` | student-distrib/malloc.c:72-119 | The addresses of payloads are aligned, leave room enough, and end before the next header begins, over any sequence of requests. |
| `Kmalloc.RefusedExactly` | student-distrib/malloc.c:73-75 | Requests for nothing and for more than 4 MB are refused, and no others. |
| `Kmalloc.FirstPayload` | student-distrib/malloc.c:110-118 | The first request that is not refused is answered with 0x3000010. |
| `Kmalloc.Tiling` | student-distrib/malloc.c:72-119 | Every address given out belongs to the header or payload of exactly one request. |
| `Kmalloc.ArenaTiled` | student-distrib/malloc.c:72-119 | While the requests fit, every address of the arena is in exactly one header or payload or in the one free block behind them. |
| `Kmalloc.InsideExactly` | student-distrib/malloc.c:92-118 | Everything kmalloc writes, the free header included, lies inside the arena if and only if the requests and their headers fit with one header to spare. |
| `Kmalloc.ArenaFilled` | student-distrib/malloc.c:92-96 | Four requests that fill the arena exactly, so that the header behind them does not fit. |
| `Kmalloc.InMemoryExactly` | student-distrib/malloc.c:23-44 | All these addresses are different bytes of memory if and only if they are within the first 4 MB of the arena. |
| `Kmalloc.OffTheScreenExactly` | student-distrib/malloc.c:33-38 | They stay off the video pages if and only if they end below them. |
| `Kmalloc.PayloadsMeetExactly` | student-distrib/malloc.c:33-38 | Two payloads share memory if and only if a multiple of 4 MB is among the distances of their bytes. |
| `Kmalloc.UnlinkList` | student-distrib/malloc.c:83-88 | Taking a block out leaves the others doubly linked in their order. |
| `Kmalloc.SplitList` | student-distrib/malloc.c:92-102 | Cutting a block puts its rest in its place in the doubly linked list. |
| `Kmalloc.Heap.FindFit` | student-distrib/malloc.c:80-81 | The first block of the list that is large enough, or NULL only if none is. |
| `Kmalloc.Heap.Take` | student-distrib/malloc.c:81-107 | A whole block leaves the list, to which kmem_blocks then still leads if and only if the block was not the first; the rest of a block that is cut takes its place with a size of 2^32 - 16, or the call faults because the rest is not mapped. |
| `Kmalloc.Heap.Restart` | student-distrib/malloc.c:110-118 | The arena starts anew with one block given out and the rest free. |
| `Kmalloc.Heap.Kmalloc` | student-distrib/malloc.c:72-119 | Every request is answered with the next bytes, or refused for its size alone, or faults if and only if it does not fit with one header to spare; the memory and the list after a fault. |
| `Rtc.AcceptedFrequencies` | student-distrib/rtc.c:120-125 | The frequencies accepted are exactly the powers of two from 2 to 1024. |
| `Rtc.PeriodExact` | student-distrib/rtc.c:135 | Frequency times period is exactly 1024. |
| `Rtc.RateExact` | student-distrib/rtc.c:116-137 | A write is accepted exactly for four bytes that are a power of two from 2 to 1024, on an open clock; the period is then exact and begins anew, and otherwise nothing changes. |
| `Rtc.FiresExactly` | student-distrib/rtc.c:40-56 | After a completed read the clock fires on the rate-th tick and on none before. |
| `Rtc.OpensAtTwoHertz` | student-distrib/rtc.c:64-70 | A clock that was opened fires on the 512th of 1024 ticks a second, and on none before. |
| `Rtc.ClosedStands` | student-distrib/rtc.c:77-82 | A closed clock stands still and holds up no reader. |
| `Rtc.LateReader` | student-distrib/rtc.c:91-103 | A reader that comes late loses the interrupt and waits for one more tick. |
| `Rtc.ReaderKeepsTime` | student-distrib/rtc.c:40-106 | A reader that comes back at once completes k reads in exactly k times rate ticks. |
| `Rtc.RunSane` | student-distrib/rtc.c:40-137 | Over any run the fired flag never exceeds 1 and an open clock has an exact period and a count within it. |
| `Rtc.Globals.Handler` | student-distrib/rtc.c:40-56 | Each of pids 3 to 5 counts for itself. |
| `Rtc.Globals.RtcOpen` | student-distrib/rtc.c:64-70 | The clock starts at 2 Hz; the other processes' clocks stay. |
| `Rtc.Globals.RtcWrite` | student-distrib/rtc.c:116-137 | Sets the caller's period or refuses, and touches no other clock. |
| `Memory.Memcpy` | student-distrib/lib.c:525-562 | Exactly n bytes arrive unchanged for every alignment and length, also onto a destination below an overlapping source. |
| `Memory.Memmove` | student-distrib/lib.c:571-589 | The destination holds the original source bytes for every overlap. |
| `Numerals.ReversedTwice` | student-distrib/lib.c:410-423 | Reversal is its own inverse. |
| `Numerals.Strrev` | student-distrib/lib.c:410-423 | The swapping loop reverses the string and nothing else. |
| `Numerals.NumeralRoundTrip` | student-distrib/lib.c:374-404 | The numeral consists of digits 0 to 9 and A to Z below the radix, denotes the number in every radix, and begins with 0 only for zero. |
| `Numerals.Itoa` | student-distrib/lib.c:374-404 | The buffer holds that numeral, terminated. |
| `Numerals.PrintHex` | student-distrib/lib.c:112-131 | Exactly eight hexadecimal digits that denote the value. |
| `Command.TwoWords` | student-distrib/syscall.c:152-172 | For any spacing the first two words of a line are the name and the argument. |
| `Command.SkipSpaces` | student-distrib/syscall.c:159 | Stops at the first byte that is not a space among the first 128. |
| `Command.CopyWord` | student-distrib/syscall.c:163-165 | The word arrives whole, with zeros behind it. |
| `Command.ParseCommand` | student-distrib/syscall.c:147-202 | File name and stored argument are the first two words of the first 128 bytes, or the line is refused when it is blank. |
| `Command.GetArgs` | student-distrib/syscall.c:358-370 | The argument comes back unchanged up to the capacity, terminated, and nothing behind it is written; the terminator stays within the capacity if and only if the argument is shorter. |

## Left out

* Port I/O, disk transfer (the image in memory is taken for the disk), interrupt controllers, timer and clock registers, descriptor tables and boot: no result to state.
* Inline assembly that saves and restores contexts: a saved context is a token that says whose stack it lies on and when it was taken. What `ret` pops from that stack is not modelled.
* The exceptions themselves: what an exception does is a halt with the value 256 (`Kernel.Globals.Halt`).
* Program loading: whether a file is executable is a parameter of `Exec`, and "shell" is taken to be executable.
* The keyboard's scancode tables and input buffers and the waiting loop of the terminal: key events are the inputs Echo, Switch and Interrupt.
* `set_handler`, `sigreturn`, `read_dentry_by_index`, and the declared but absent `free` and `realloc`: nothing to prove.
* The user programs other than grep and the emulation layers: system-call wrappers or display code.
* What follows a fault: the page-fault handler's message and the halt are ordinary further events, except for bytes behind the last mapped page, at 0xBD000, where the message faults too (`Printing.OutOfReach`) and no run goes on.
* 32-bit wrap-around of offset plus length in the file calls, and the fixed 64 entries of the two bitmaps, which have one entry per block and per inode here.
* Control blocks, terminals, descriptors, inodes and blocks are sequences held in fields, not arrays, so aliasing among them is not captured; video pages, buffers and the directory table are arrays.
* The `write` system call, whose test for failure is on an unsigned value and always passes, and the file position it moves; the position moved by `read` is in `ReadsCoverFile`.
* NULL-pointer and user-page checks of the system calls other than those of read_data and write_data.
* `vidmap` is a step of its own (`Machine.VidmapStep`), not an event of the runs: where it maps the wrong page, only what the user's mapping leads to is wrong, until the next tick maps it anew.
* The loop of rtc_read is a sequence of polls, between which ticks happen.
* A repaired `kmalloc`: with nothing ever freed its list would hold one block, so the repair adds to `Kmalloc.ArenaTiled` only that requests beyond the arena are refused.
- Volume.Globals.WriteData: not for writes that take a file past its 1023 slots, nor, on a full disk, for writes over several blocks to the last inode itself, whose slots then change under the loop; block 0xFFFFFFFF as the first one of such a write is taken from an empty slot only.
- Writes.OthersKeep: for full disks the condition is in `FullDisk.OthersKeepFull`, `FullDisk.LastInodeExactly` and `FullDisk.LastFileKeeps`.
- FullDisk.OtherInodesExactly: speaks of the inodes; a file whose inode changes can by chance still read the same bytes.
- Volume.WriteRawKeepsOwnership: for full disks in `FullDisk.FullBreaks`.
- Console.Video.Putc: bytes behind the page are in `Kernel.Globals.PutcBehind`.
- Console.Video.Backspace: cursors behind the page are in `Kernel.Globals.BackspaceBehind`.
- Console.Video.Tabulate: cursors behind the page are in `Kernel.Globals.TabBehind`.
- Refinement.StepRefines: not for a byte behind the last backup page, where putc faults and the handler's message faults again.
- Refinement.EveryRun: nor for runs with such a byte.
- Refinement.PutcLeaksExactly: for one page behind; further behind, and for a backspace, `Refinement.KernelSparesExactly` has the condition.
- Volume.Globals.ReadData: the slot behind a last full block is looked up by the code even when no byte is left to copy; the model looks it up only when there is one.
- Volume.Globals.ZeroBlocks: for a file with an empty slot, or fewer than 1023 inodes; otherwise the code looks behind the last slot.
- Volume.Globals.FileSystemInit: the bitmaps have an entry per inode and per block of the disk, where the code has 64 of each and writes behind them for larger numbers.
- Kernel.Globals.Execute: the descriptors are in `Descriptors.Start`, the argument in `Command.ParseCommand`.
- Kernel.Globals.Halt: the descriptors are in `Descriptors.Stop`, the clock in `Rtc.Close`.
- Store.Disk.WriteData: when the disk fills up, the repaired design keeps what was copied and answers -1.
- Store.Disk.Create: the descriptor that create opens is in `Descriptors.Globals.Create`; names that are empty or do not fit their field are refused in the repaired design.
- Store.Disk.Delete: the refusal to delete a file in use is in `Descriptors.Globals.Delete`; the repaired design deletes regular files only.
- Kmalloc.Heap.Kmalloc: no owner writes into headers, which beyond 4 MB lie in the memory of earlier payloads, and no request follows one that faulted; lists of more than one free block do not arise without `free`, although `FindFit` and `Take` cover them.
- Grep.DoOneFile: for files without NUL bytes, a buffer byte behind the last that is not a newline to begin with, and calls to open, read and close that succeed.
- Descriptors.Globals.Create: while the table has fewer than 63 entries, which the code does not check.
- Command.ParseCommand: without an argument, the code computes the length of its copy from pointers into two different arrays; the stored argument is then left open.
- Descriptors.Globals.Delete: for files whose slots the loop over the blocks does not leave, as in `Volume.Globals.ZeroBlocks`.
- Command.GetArgs: the check that the buffer lies in the user's page.
