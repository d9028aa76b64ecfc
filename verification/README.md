# A model of the Martian Pendulum kernel and its programs

This project models, in Dafny, the state that a small x86 teaching kernel shares between three
terminals and six processes, its read-only file system, and two of its user programs, and proves what
that shared state is meant to provide.

* **Kernel** (`Kernel.dfy`, `Processes.dfy`, `Keyboard.dfy`). One class holds the kernel's globals:
  `cur_pid`, the PCB table and its bitmap, the TSS stack pointer, one page-directory entry, two
  page-table entries, four physical video pages, one keyboard buffer pointer and position, and
  `term_arr`. Each system call, exception, key and clock tick is a method that changes them as the C
  code does. Saved esp/ebp pairs are tokens that name who saved them.
* **What it implements** (`Terminals.dfy`). The same events on three independent terminals: a console, a
  line editor and a stack of processes each, with no pids, no page tables and no shared buffer.
  `KernelState.Kernel.Step` proves that every event on the globals is that event on the three terminals,
  with the same reply.
* **Whole runs** (`TerminalRuns.dfy`, `LineRuns.dfy`, `FileRuns.dfy`, `WindowRuns.dfy`,
  `ConsoleRuns.dfy`). Theorems about every run of the terminals, and about what each system call and key
  means: non-interference, clock and shells, calls and returns; typed lines; open files; windows onto video
  memory; what is on the screen. `KernelRuns.dfy` carries them over to the kernel's globals and replies.
* **Console** (`Screen.dfy`). Character output with scrolling, proved to be a window on a tape that
  never scrolls.
* **File system** (`FileSystem.dfy`). Reads through the block table, directory listing, lookup, `cat`.
* **grep** (`Grep.dfy`). The streaming search with a 1024-byte carry-over buffer.
* **fish** (`Blink.dfy`, `Frames.dfy`). The linked list of blinking characters in a fixed pool, its
  tick routine, and the reader that turns two text files into blinkers.
* `Bytes.dfy` and `Counting.dfy` hold shared definitions.

`dafny verify dfyconfig.toml` checks everything.

## How the kernel is read

* Interrupt gates keep interrupts off (student-distrib/idt.c:24-32), so every handler and system call
  is one step. `syscall_read` turns them back on; reads are one step here too, which for the keyboard
  means that no key arrives while the line is copied.
* Page-table writes take effect at once.
* `term_arr` is stored as one sequence per field, and a pointer into it as a terminal number.
* Launching "shell" finds the file and finds it to be an ELF file; for any other program the outcome
  of that lookup is part of the event.
* A system call or exception needs a process. Before the first tick there is none, and such an event
  does nothing.
* A clock tick that must launch a terminal's first shell while all six slots are taken makes
  `schedule` go on with pid -1. `KernelState.Kernel.OnTick` proves that this is the only way a tick
  fails, `TerminalRuns.TableCanFillBeforeShells` that it can happen, and `TerminalRuns.ShellsForever`
  that it cannot once every terminal has had its shell.

## Where the code falls short of what one would expect

Each of these is stated with the exact condition under which the code does what one would expect, and with
an input or a run from power-on that fails.

* `read_from_kbd_buf_to_buf` waits for the running terminal's Enter but copies from the viewed
  terminal's buffer (`LineRuns.ReadsItsOwnBufferExactlyWhenViewed`, `LineRuns.ReaderCanGetAnotherLine`).
* Enter puts the typing position back to the start of the buffer, so characters typed before the read go
  over the line that was entered (`LineRuns.EnteredLineSurvivesExactly`, `LineRuns.TypingOnLosesTheLine`).
* A child that maps video memory and halts closes its parent's window too
  (`WindowRuns.WindowAfterTheChild`, `WindowRuns.ParentLosesItsWindow`); a base shell's window stays open
  for the next shell (`WindowRuns.WindowOutlivesShells`, `WindowRuns.ShellInheritsAWindow`).
* `read_data` needs a good table entry after the last byte of a file that ends with a block, and bounds
  block indices by the constant 63 that bounds inode numbers, so files from 258048 bytes on cannot be read
  (`FileSystem.ReadableExactlyWhen`, `FileSystem.FullBlockIsRefused`, `FileSystem.LongFileIsRefused`,
  `FileRuns.OpenedFilesAreRefused`).
* When `offset + length` passes 2^32, `read_data` runs into a page fault if start and end lie in one block.
  If not, it returns the length as a negative number and the file position goes back by as much, except that
  exactly -1 is taken for a failure (`FileSystem.CountExactlyWhenNoWrap`, `FileSystem.WrappedReads`,
  `FileRuns.OneStepOfAFile`, `FileRuns.NegativeReadStepsBack`).
* An empty file name in the directory ends every listing (`FileSystem.ListDirectory`,
  `FileSystem.EmptyNameHidesTheRest`).
* grep cuts lines after 1024 bytes (`Grep.LineSearchExactly`), and a line with a NUL that is carried from one
  buffer to the next is mixed with older text (`Grep.CarriedExactly`, `Grep.NulBringsBackOldText`).
* A blinker at location 0 is accepted, but its slot stays marked free, and when the slot is taken again the list
  becomes a circle (`Blink.AddKeepsListExactlyWhenSlotIsNew`, `Blink.LocationZeroMakesACycle`).
* Blink lengths of 0 or over 2^15 act as 1 (`Blink.PhaseAfter`, `Blink.BlinksAsAsked`).
* `mp1_ioctl_sync` means to draw the character of the copied phase, but its conditional move never fires
  and it draws the off character (`Blink.SyncDrawsExactlyWhenOff`, `Blink.SyncCanDrawTheWrongPhase`).
* Ctrl-L forgets that Ctrl is held (`Keyboard.CtrlFlagExact`, `Keyboard.CtrlLForgetsCtrl`).

## Model

| member | source | states |
|---|---|---|
| KernelState.Kernel.Step | student-distrib/syscall_handler.c:29-688 | every event that is not a stuck tick keeps the invariant, changes the three terminals exactly as the independent-terminal machine does, and gives the same reply |
| KernelState.Kernel.Run | student-distrib/syscall_handler.c:29-688 | the same for any sequence of events, with all replies, up to the first stuck tick |
| KernelRuns.PowerOnAndRun | student-distrib/kernel.c:156-200 | from power-on and for every run: each terminal is the fold of the actions addressed to it, its pending line is the fold of its own keys, at most six processes live, n ticks leave terminal n mod 3 running, and in the kernel's replies every return has its own earlier `execute` and none returns twice |
| KernelRuns.RunWithOpenFile | student-distrib/syscall_handler.c:29-121 | while a process lives and keeps a file or the directory open, the kernel's replies deliver the file's bytes, or the directory's names, in order, whatever else runs |
| KernelState.Kernel.constructor | student-distrib/terminal.c:26-72 | initialisation establishes the invariant and the power-on state, whatever video memory and PCB slots contain |
| KernelState.Kernel.OnTick | student-distrib/pit.c:77-84 | a tick resumes exactly the frame that `schedule` saved two ticks before, or launches a base shell; it runs wild if and only if a first shell is needed and all slots are taken |
| KernelState.Kernel.Reschedule | student-distrib/syscall_handler.c:625-675 | the current process is saved, the next terminal's is resumed from a frame saved by `schedule`, and no process stack changes |
| KernelState.Kernel.LaunchBaseShell | student-distrib/syscall_handler.c:684-688 | the banner goes to the new terminal and the shell starts if and only if fewer than six processes live |
| KernelState.Kernel.OnExecute | student-distrib/syscall_handler.c:208-333 | each failure prints its message and changes no process; success pushes a process on the caller's own stack |
| KernelState.Kernel.Spawn | student-distrib/syscall_handler.c:262-312 | a slot is found if and only if fewer than six processes live; the new process tops the running chain, and the invariant on chains, frames, TSS and paging survives |
| KernelState.Kernel.RecordProcess | student-distrib/syscall_handler.c:463-478 | the lowest free slot is taken, or -1 exactly when none is free |
| KernelState.Kernel.DecordProcess | student-distrib/syscall_handler.c:487-494 | exactly the given slot is freed, -1 if it was free |
| KernelState.Kernel.OnHalt | student-distrib/syscall_handler.c:342-411 | halting pops the caller's process, or replaces a base shell |
| KernelState.Kernel.ReturnToParent | student-distrib/syscall_handler.c:364-408 | the resumed frame is that of the `execute` call that created the halting process |
| KernelState.Kernel.RestartShell | student-distrib/syscall_handler.c:357-362 | a halting base shell always finds a slot for its replacement |
| KernelState.Kernel.OnException | student-distrib/exception_handler.c:119-131 | the message appears on the running console and the process halts with status 255 |
| KernelState.Kernel.OnVidmap | student-distrib/syscall_handler.c:177-198 | bad pointers are refused; otherwise the running terminal's window opens onto its own screen |
| KernelState.Kernel.OnVideoStore | student-distrib/syscall_handler.c:177-198 | a store through the window lands on the running terminal's screen, viewed or not, and faults exactly when the window is closed |
| KernelState.Kernel.OnOpen | student-distrib/syscall_handler.c:54-102 | the lowest free descriptor from 2 to 7 is opened at position 0 on the first entry of that name |
| KernelState.Kernel.OnClose | student-distrib/syscall_handler.c:111-121 | only a used descriptor from 2 to 7 is closed |
| KernelState.Kernel.OnRead | student-distrib/syscall_handler.c:29-45 | reads by file kind, for every 32-bit count: the keyboard line, the next bytes of a file, the next directory name; only that descriptor moves |
| KernelState.Kernel.OnWrite | student-distrib/syscall_handler.c:132-143 | output appears on the running console; files and directories refuse writes |
| KernelState.Kernel.ReadKeyboard | student-distrib/keyboard.c:240-283 | a read waits for the running terminal's Enter and then delivers the viewed buffer up to its newline, cut to the size asked for |
| KernelState.Kernel.CopyLine | student-distrib/keyboard.c:257-274 | the copy loop stops after the newline, at the size asked for, or after 128 bytes |
| KernelState.Kernel.OnKey | student-distrib/keyboard.c:141-228 | a key acts only on the viewed terminal: echo and edit, erase, clear, or switch |
| KernelState.Kernel.Press | student-distrib/keyboard.c:141-228 | what a decoded key does to the viewed terminal, and to no other |
| KernelState.Kernel.EditLine | student-distrib/keyboard.c:194-220 | the viewed terminal's editor takes the key, the other two are unchanged |
| KernelState.Kernel.SwitchTerminal | student-distrib/terminal.c:158-180 | no console and no editor changes when another terminal is viewed |
| KernelState.Kernel.SwapPages | student-distrib/terminal.c:158-180 | the visible page is saved to the old terminal's buffer and the target's buffer becomes visible, the third buffer stays |
| KernelState.Kernel.ChangeVidmemMapping | student-distrib/terminal.c:190-228 | kernel and program writes reach exactly the given terminal's screen, the program's only if it has mapped it |
| KernelState.Kernel.PrintText | student-distrib/terminal.c:134-149 | text changes the mapped terminal's console by one character after another, and no other console |
| KernelState.Kernel.ClearScreen | student-distrib/lib.c:27-40 | only the viewed console is cleared, and the running one is mapped again |
| KernelState.Kernel.SetWindow | student-distrib/paging.c:213-234 | the program's page is the running terminal's screen, present exactly as asked, and no console changes |
| KernelState.Kernel.ChainsPartitionTheTable | student-distrib/syscall_handler.c:463-494 | the marked pids are the disjoint union of three parent chains, each headed by `cur_pid` or the saved pid and ending at -1 |
| KernelState.Kernel.CurrentProcessIsIsolated | student-distrib/syscall_handler.c:548-573 | TSS and page directory are the current process's own, and overlap neither another live process's stack or page nor the kernel page |
| KernelState.Kernel.WindowIsTheRunningScreen | student-distrib/terminal.c:210-228 | from the first tick on the program's video page is the kernel's video page, present exactly when the running terminal has mapped it |
| Processes.MemoryIsDisjoint | student-distrib/syscall_handler.c:450-453 | kernel stacks and program pages of different pids never overlap, and no program page is the kernel's |
| Processes.PushKeepsInv | student-distrib/syscall_handler.c:281-309 | filling a PCB keeps the chains, saves the caller's frame under this call, and adds one process to one stack |
| Processes.PopKeepsInv | student-distrib/syscall_handler.c:357-396 | freeing the last process of a chain keeps the invariant and removes just that process |
| Processes.ParentHoldsTheCall | student-distrib/syscall_handler.c:397-408 | a parent holds the frame of the very call that made its child, for as long as the child lives |
| Processes.BitmapIsUnionOfChains | student-distrib/syscall_handler.c:463-494 | the bitmap is the disjoint union of the chains, and counts them |
| Processes.FullMeansSix | student-distrib/syscall_handler.c:463-478 | the table is full exactly when six processes live |
| Processes.ParentsFollowTheChain | student-distrib/syscall_handler.c:282-284 | parent pointers lead from the last process of a terminal through its whole chain to -1 |
| TerminalRuns.TerminalsAreIndependent | student-distrib/terminal.c:158-228 | after any run a terminal is the fold of the actions addressed to it |
| TerminalRuns.NonInterference | student-distrib/terminal.c:158-228 | changing another terminal's screen and line editor changes nothing else in any run |
| TerminalRuns.SameReplies | student-distrib/keyboard.c:240-283 | nor any reply, but that of a keyboard read in, or copying from, that terminal |
| TerminalRuns.NobodyCalls | student-distrib/syscall_handler.c:684-688 | before a terminal's first shell a system call or exception has nobody to make it and does nothing |
| TerminalRuns.WhoChangesAConsole | student-distrib/keyboard.c:187-190 | only the running terminal's calls, the viewed terminal's keys and a first shell's banner change a console |
| TerminalRuns.ClockRotates | student-distrib/terminal.c:69-71 | the running terminal is the number of ticks modulo 3, whatever else happens |
| TerminalRuns.TickReturnsToItsSave | student-distrib/syscall_handler.c:625-675 | in any run from power-on a tick that resumes a process gives it the frame saved at an earlier tick, and the terminal that lost the processor then is the one that gets it now |
| TerminalRuns.ShellsForever | student-distrib/syscall_handler.c:357-362 | once every terminal has a shell, every terminal always has one and no tick gets stuck |
| TerminalRuns.ThreeTicksBoot | student-distrib/syscall_handler.c:652-657 | three ticks from power-on give every terminal its shell |
| TerminalRuns.TableCanFillBeforeShells | student-distrib/syscall_handler.c:264-268 | one terminal can take all six slots before the next tick, which then gets stuck |
| TerminalRuns.AtMostSix | student-distrib/syscall_handler.c:463-478 | no run ever has more than six processes |
| TerminalRuns.EveryReturnHasItsCall | student-distrib/syscall_handler.c:398-408 | every return from a halt names an `execute` event logged earlier in the same terminal, and carries the halt status, 255 becoming 256 |
| TerminalRuns.NothingToAccountAtBoot | student-distrib/terminal.c:46-56 | power-on meets the starting conditions of the call and return theorems |
| TerminalRuns.NoCallReturnsTwice | student-distrib/syscall_handler.c:299-309 | an `execute` call returns at most once in a run |
| TerminalRuns.CallsAndReturnsMatch | student-distrib/syscall_handler.c:299-408 | both of these of the replies of any run from power-on |
| TerminalRuns.LogIsReplies | student-distrib/syscall_handler.c:208-411 | the log pairs each event with its reply |
| LineRuns.PendingLineIsFold | student-distrib/keyboard.c:194-220 | with any view switches, a pending line is the fold of the keys pressed while its terminal was viewed |
| LineRuns.KeysGoToTheViewedTerminal | student-distrib/keyboard.c:342-358 | only a typed or erased key changes a pending line, and only the viewed one |
| LineRuns.PendingHasNoNewline | student-distrib/keyboard.c:194-220 | a pending line never contains a newline |
| LineRuns.EnteredLineIsRead | student-distrib/keyboard.c:240-283 | after Enter the buffer yields the pending line and its newline, found within 128 bytes |
| LineRuns.EnteredLineSurvivesExactly | student-distrib/keyboard.c:194-283 | Enter while any terminal runs, then any events that do not take the line, then a read in that terminal while it is viewed: it returns the line and its newline, cut to the size asked for, if and only if laying the characters typed there since Enter over it leaves that part unchanged |
| LineRuns.ReaderGetsTheLine | student-distrib/keyboard.c:240-283 | so the read returns the line if nothing was typed in its terminal since Enter, whatever keys went elsewhere and whatever was viewed in between |
| LineRuns.TypingOnLosesTheLine | student-distrib/keyboard.c:194-203 | a run from power-on after which a terminal both running and viewed, in which "a" was entered, reads "b" and a newline |
| LineRuns.TypedLineIsRead | student-distrib/keyboard.c:194-283 | the same from power-on after any events: the reader gets the fold of the keys pressed while its terminal was viewed, if and only if what was typed since Enter leaves it alone |
| LineRuns.ReadyIsFold | student-distrib/keyboard.c:194-220 | after any run a line is ready exactly when Enter was pressed in its terminal and the line not read since |
| LineRuns.KeyboardReadExactly | student-distrib/keyboard.c:240-283 | a read of no bytes or fewer fails, one without a ready line waits, any other takes the line so that the next one waits again, and nothing else changes |
| LineRuns.ActAllStrikes | student-distrib/keyboard.c:194-220 | the front of a line buffer is the overlay of the characters typed into it, and a ready line stays ready until it is taken |
| LineRuns.ScanCodesAlone | student-distrib/keyboard.c:141-228 | after any run modifiers, view and all line buffers are what the key events of the run alone make of them, on any file system |
| LineRuns.StdOpenForever | student-distrib/syscall_handler.c:281-296 | every process always has the keyboard and the screen as descriptors 0 and 1 |
| LineRuns.KeyStep | student-distrib/keyboard.c:141-228 | what a key does to modifiers, view and editors |
| LineRuns.ReadsItsOwnBufferExactlyWhenViewed | student-distrib/keyboard.c:253-265 | a ready read is sure to return what its own terminal's buffer holds exactly when that terminal is viewed |
| LineRuns.ReaderCanGetAnotherLine | student-distrib/keyboard.c:253-265 | a run from power-on after which terminal 1, whose line is "a", reads the "b" typed in terminal 0 |
| FileRuns.PositionCountsOwnReads | student-distrib/fs.c:241-313 | over any run a file's position grows by exactly the bytes its own process has read through it, the directory's by one entry for each own read until the last |
| FileRuns.ProcessReadsTheFile | student-distrib/fs.c:241-250 | the bytes a process gets through a descriptor in any run, reads of all sizes among all other events, are the file in order and without gaps |
| FileRuns.ProcessReadsTheDirectory | student-distrib/fs.c:260-313 | the replies to a process's reads of the directory in any run are the names from its position on, one for each read, and then nothing |
| FileRuns.OpenExactly | student-distrib/syscall_handler.c:54-102 | open fails exactly when no entry has the name or descriptors 2 to 7 are in use, and changes nothing then; otherwise the reply is the lowest free descriptor, which then reads the first entry of the name, by its kind and from its start, and nothing else changes |
| FileRuns.OpenThenRead | student-distrib/syscall_handler.c:29-102 | what a process reads in any run through the descriptor that open returned is the file of that name from its first byte on |
| FileRuns.CloseExactly | student-distrib/syscall_handler.c:111-121 | close frees a used descriptor from 2 to 7 and nothing else, and fails without a trace on any other |
| FileRuns.CloseMakesRoom | student-distrib/syscall_handler.c:54-121 | after a close the next open of an existing name gets that descriptor, or a lower one that was free |
| FileRuns.BadReadsFail | student-distrib/syscall_handler.c:33-37 | reads through descriptor 1, a free descriptor or a number that is none give -1 and change nothing |
| FileRuns.NewProcessStartsFresh | student-distrib/syscall_handler.c:281-312 | whatever starts a process, it is the current one of its terminal, with its own call number, no window, the keyboard and the screen as descriptors 0 and 1 and no other, and the processes below are as before |
| FileRuns.RtcCalls | student-distrib/rtc.c:67-108 | an RTC read returns 0 when it returns, an RTC write is accepted exactly for four bytes that name 2^k with k from 1 to 10, and neither changes anything |
| FileRuns.OneStepOfAFile | student-distrib/syscall_handler.c:29-121 | no other descriptor, process, terminal or tick moves an open file or directory, and its own read moves it by what the reply says, back if the reply is a negative count other than -1 |
| FileRuns.NegativeReadStepsBack | student-distrib/fs.c:241-250 | a run from power-on in which a read of -4096 bytes returns -4096 and moves the position from 4096 to 0 |
| FileRuns.OpenedFilesAreRefused | student-distrib/fs.c:148-166 | runs from power-on in which a program opens a file of one full block, or of 258048 bytes, and its read fails |
| WindowRuns.WindowAfterTheChild | student-distrib/syscall_handler.c:342-411 | over every run from an `execute` to the return into it: the window is as before exactly when it was closed, or when no process above the caller mapped one |
| WindowRuns.VidmapExactly | student-distrib/syscall_handler.c:177-198 | vidmap succeeds exactly for pointers into the program's page with room for four bytes and then opens the window and marks the process; otherwise it returns -1 and at most prints its message |
| WindowRuns.ParentLosesItsWindow | student-distrib/syscall_handler.c:380-388 | a run from power-on after which a shell that mapped its window faults on its next store |
| WindowRuns.WindowOutlivesShells | student-distrib/syscall_handler.c:357-362 | as long as a terminal runs only base shells, its window is open exactly when it was, or when any of them mapped one |
| WindowRuns.ShellInheritsAWindow | student-distrib/syscall_handler.c:357-362 | a run from power-on after which a shell that never mapped anything can store to video memory |
| ConsoleRuns.WriteShowsText | student-distrib/terminal.c:134-149 | writing to descriptor 1 puts every byte, in order, on the running terminal's tape, replies their number, and changes nothing else in the system |
| ConsoleRuns.WriteShowsTextFromBoot | student-distrib/terminal.c:134-149 | the same after any run from power-on |
| ConsoleRuns.WritesShowTexts | student-distrib/terminal.c:134-149 | a sequence of writes puts the concatenation of the texts on the tape |
| ConsoleRuns.ScreenShowsAllItsText | student-distrib/terminal.c:134-228 | in any run in which nothing is erased, cleared or stored on it, a screen shows all that was printed and typed in its terminal, in order, whatever the others printed |
| ConsoleRuns.OtherWritesFail | student-distrib/syscall_handler.c:132-143 | an empty text, descriptor 0, free descriptors, files and the directory give -1 and change nothing |
| ConsoleRuns.ExecuteFailsAloud | student-distrib/syscall_handler.c:241-268 | each failing execute says its message on the running console, replies -1 or, with a full table, 0, and changes nothing else |
| ConsoleRuns.ExceptionSpeaks | student-distrib/exception_handler.c:119-131 | the message appears on the running console |
| ConsoleRuns.BannerNamesTheTerminal | student-distrib/syscall_handler.c:684-688 | a first shell's banner names its terminal on that terminal's screen |
| ConsoleRuns.TypedKeyIsShown | student-distrib/keyboard.c:187-190 | a typed character appears at the viewed cursor and on no other screen |
| ConsoleRuns.EraseUndoesTyping | student-distrib/keyboard.c:342-358 | a character typed and erased leaves the pending line as it was, and the cursor back on a blank cell exactly when typing did not scroll |
| ConsoleRuns.ClearKeyClears | student-distrib/keyboard.c:161-166 | Ctrl-L blanks the viewed screen but for its bar, puts its cursor at the start of row 1, and changes no other terminal |
| ConsoleRuns.StoreChangesOneByte | student-distrib/syscall_handler.c:177-198 | a store through the window changes exactly the byte at its offset to its value; without a window it faults and changes nothing |
| Keyboard.FlagsSayWhatIsHeld | student-distrib/keyboard.c:303-404 | after any scan codes the shift and Alt flags say which keys are down |
| Keyboard.CtrlFlagIs | student-distrib/keyboard.c:161-166 | after any scan codes the Ctrl flag is set exactly when Ctrl is held and no L was struck since its last press |
| Keyboard.CtrlFlagExact | student-distrib/keyboard.c:161-166 | the flag says whether Ctrl is held exactly unless an L was struck since the last press of a Ctrl still down; a key clears the screen exactly when it is the first L of a held Ctrl |
| Keyboard.KeyTypesItsLegend | student-distrib/keyboard.c:158-185 | after any scan codes a key types exactly what is printed on it: a letter in upper case, 32 below, exactly when a held Shift differs from an odd number of Caps Lock strokes, any other key its shifted character exactly when a Shift is held |
| Keyboard.TableIsLegend | student-distrib/keyboard.c:27-105 | the scan code table is the legend of the keys, written out as strings, and covers exactly the ordinary keys |
| Keyboard.ControlKeys | student-distrib/keyboard.c:303-404 | backspace alone erases, and Alt with F1, F2 or F3 alone switches, to terminals 0, 1 and 2 |
| Keyboard.CtrlLForgetsCtrl | student-distrib/keyboard.c:161-166 | Ctrl, L, L: Ctrl is still down, and the second L types a letter |
| Screen.NbPutc | student-distrib/lib.c:217-321 | the in-place routine does what one character does to a console, and leaves the bytes past the screen alone |
| Screen.UpScrollForOneLine | student-distrib/lib.c:327-352 | rows 1 to 23 take the row below, row 24 is blanked, everything else stays |
| Screen.Clear | student-distrib/lib.c:27-40 | everything after the terminal bar is blank and the cursor is in row 1 |
| Screen.ClearedCells | student-distrib/lib.c:27-40 | cells 0 to 29 stay and all others become blank |
| Screen.WindowTheorem | student-distrib/lib.c:274-352 | for every text without backspace, rows 1 to 24 are the last rows of an unbounded tape, row 0 is untouched, and the cursors agree |
| Screen.PlainTextOnTape | student-distrib/lib.c:304-314 | a text without line breaks is on the tape character by character from the cursor on, and nothing before it changes |
| Screen.EveryScreenShowsItsTape | student-distrib/lib.c:274-352 | every screen with its cursor in row 1 or below is the start of such a tape |
| Screen.BackspaceUndoesTyping | student-distrib/lib.c:279-298 | backspace returns to where a character was typed exactly when typing it did not scroll |
| FileSystem.ReadData | student-distrib/fs.c:122-190 | the outcome is that of 32-bit arithmetic, for every position and length: a count, or the fault of a copy of almost 2^32 bytes; unless the end position wraps, the buffer receives exactly the bytes of the flat file between the two positions, and -1 is returned exactly for a bad inode or a bad block number in range; if it wraps, the tail of one block and the head of another |
| FileSystem.CopyRange | student-distrib/fs.c:168-187 | the copies put one slice of the flat file into the buffer, or, when the end lies in an earlier block, the tail of the first block and the head of the last |
| FileSystem.CopyBlocks | student-distrib/fs.c:168-187 | first, middle and last block together copy one slice of the flat file |
| FileSystem.CheckTable | student-distrib/fs.c:160-166 | the scan succeeds exactly when every entry in range is a data block |
| FileSystem.CountExactlyWhenNoWrap | student-distrib/fs.c:153-189 | the count returned is the size of the slice exactly when offset + length stays below 2^32; otherwise the read faults exactly when start and end lie in one block, and if not the length comes back as a negative number |
| FileSystem.WrappedReads | student-distrib/fs.c:153-189 | a readable file in which one read comes back as -4096 and moves back to 0, and another faults |
| FileSystem.ReadableExactlyWhen | student-distrib/fs.c:148-166 | a file that is all there can be read exactly when it is empty, or shorter than 63 blocks and, if it ends with a block, followed by a good table entry |
| FileSystem.FullBlockIsRefused | student-distrib/fs.c:153-166 | a file of one full block, all there and listed in the directory, that cannot be read |
| FileSystem.LongFileIsRefused | student-distrib/fs.c:149-157 | a listed file of 258048 bytes with every table entry good that cannot be read |
| FileSystem.FileRead | student-distrib/fs.c:241-250 | the position moves by the count returned, and not at all on -1 or a fault, for every position and length |
| FileSystem.ReadsDeliverPrefix | student-distrib/fs.c:241-250 | any sequence of non-negative sizes delivers the file in order until it ends |
| FileSystem.EmptyReadExactlyAtTheEnd | student-distrib/fs.c:141-144 | a read of a positive size delivers nothing exactly when everything has been delivered |
| FileSystem.Cat | syscalls/ece391cat.c:6-31 | cat terminates, succeeds exactly when the file is readable, and then outputs the whole file |
| FileSystem.Strncmp | student-distrib/lib.c:622-639 | zero exactly when the two strings agree within the limit |
| FileSystem.Strncpy | student-distrib/lib.c:664-678 | the string is copied and padded with NULs, nothing else changes |
| FileSystem.ReadDentryByIndex | student-distrib/fs.c:69-83 | fails exactly past the last entry, and otherwise returns that entry's name, kind and inode |
| FileSystem.ReadDentryByName | student-distrib/fs.c:92-111 | finds the first entry of that name, 32-byte names included, and fails exactly when there is none |
| FileSystem.DirRead | student-distrib/fs.c:260-313 | one call delivers one name and moves on by one, or delivers nothing at the end |
| FileSystem.ListDirectory | syscalls/ece391ls.c:19-31 | reading to the end lists the names in order up to the first empty one, hence all names exactly when none is empty |
| FileSystem.EmptyNameHidesTheRest | syscalls/ece391ls.c:19-31 | a directory whose listing is empty although it holds a file that can be found by name |
| FileSystem.LookupUndoesListing | student-distrib/fs.c:92-111 | looking up a listed name finds its first entry, the same one exactly when no earlier entry has the name |
| Grep.DoOneFile | syscalls/ece391grep.c:9-66 | for every file in which no carried line holds a NUL the scan terminates; it succeeds exactly when the file opens and is readable, and then the output is exactly the matching pieces in order; a failing read ends a prefix of that output with its message |
| Grep.TextOutput | syscalls/ece391grep.c:40-51 | for a file without NULs the output is the report of its pieces in full |
| Grep.TextIsClean | syscalls/ece391grep.c:33-38 | in a file without NULs no carried line holds one |
| Grep.ScanChunk | syscalls/ece391grep.c:28-57 | one pass over the buffer prints the lines it can finish and keeps the rest, which starts after the last newline, at the front |
| Grep.SearchLine | syscalls/ece391grep.c:40-51 | found exactly when the line contains the pattern, NULs in the line included |
| Grep.StrncmpAt | syscalls/ece391support.c:35-46 | equal exactly when the pattern is a prefix of the rest of the line |
| Grep.StrcpyDown | syscalls/ece391support.c:14-17 | the line moves to the front of the buffer up to its first NUL, and everything behind stays |
| Grep.MoveDown | syscalls/ece391grep.c:34-38 | what the carry leaves at the front of the buffer, for every line |
| Grep.CarriedExactly | syscalls/ece391grep.c:34-38 | the carry keeps a line exactly when it holds no NUL, or when what was behind the NUL is in the buffer already |
| Grep.NulBringsBackOldText | syscalls/ece391grep.c:21-60 | a file of five bytes for which the passes print a line that does not hold the pattern |
| Grep.PrintsMatchingLines | syscalls/ece391grep.c:20-60 | with no line over 1024 bytes the output is exactly the lines that contain the pattern |
| Grep.BadLine | syscalls/ece391grep.c:33-49 | for a line over 1024 bytes with a searchable byte, the search for the first such byte prints something else than the line |
| Grep.LineSearchExactly | syscalls/ece391grep.c:20-60 | every search that the program can be asked for is a line search exactly when every line with a searchable byte has at most 1024 bytes |
| Grep.FirstLineThenRest | syscalls/ece391grep.c:20-60 | the output for a file is that for its first line and then that for the rest |
| Blink.PhaseAfter | fish/blink.S:49-99 | after n ticks a node is on exactly when n mod (on + off) < on, and its countdown is what is left of the phase, for all 16-bit lengths as they really last |
| Blink.BlinksAsAsked | fish/blink.S:49-99 | a node is in the phase asked for at every tick exactly when both lengths are from 1 to 2^15 |
| Blink.LeftAloneItBlinks | fish/blink.S:49-300 | in any run of ticks, adds, removes and syncs at other locations an added node stays listed, in the phase that the number of ticks alone gives |
| Blink.LeftAloneItTicks | fish/blink.S:49-300 | the same of any node already listed: it is ticked once per tasklet and not changed otherwise |
| Blink.Driver.DoAll | fish/blink.S:49-300 | any sequence of operations on the linked list is that sequence on a list of blinkers, if nothing is added while a node at location 0 is listed, and keeps every phase on the screen if adds go to free places and syncs copy the off phase |
| Blink.Driver.Do | fish/blink.S:101-103 | the same for one operation |
| Blink.Driver.Tasklet | fish/blink.S:49-99 | every node is ticked once, in place, and with different locations the screen keeps showing every node's phase |
| Blink.Driver.Add | fish/blink.S:105-184 | adding prepends a fresh node if no node at location 0 is listed; it fails exactly for a location off the screen or with 2000 nodes, none at location 0 |
| Blink.Driver.Remove | fish/blink.S:187-237 | the first node at the location is unlinked and freed, or nothing changes |
| Blink.Driver.Sync | fish/blink.S:240-300 | the timing of one node is copied to another, and the other's off character is drawn |
| Blink.SyncedNodesBlinkTogether | fish/blink.S:264-275 | after a sync, for as long as no operation names them, the two nodes are on at the same times, and the second keeps its place and characters |
| Blink.SyncDrawsExactlyWhenOff | fish/blink.S:277-285 | after a sync the screen shows every phase exactly when the copied phase is off, or the node has one character for both |
| Blink.SyncCanDrawTheWrongPhase | fish/blink.S:277-285 | two adds and one sync on a new driver that leave the off character under a node that is on |
| Blink.Driver.Find | fish/blink.S:351-379 | the first node at the location, or none |
| Blink.Driver.Malloc | fish/fish.c:160-170 | the first slot with location 0, or none exactly when every slot is in use |
| Blink.FullExactlyWhenNoSlotIsFree | fish/fish.c:160-175 | no slot is free exactly when the list has 2000 nodes, none of them at location 0, and it never has more |
| Blink.Driver.AddThenRemove | fish/blink.S:105-223 | adding and removing at one location gives the list back |
| Blink.AddKeepsListExactlyWhenSlotIsNew | fish/blink.S:131-162 | an added node leaves an acyclic list that holds every used slot exactly when its slot was not listed already |
| Blink.FreeSlotIsNew | fish/fish.c:160-170 | a free slot is listed only if a node at location 0 is |
| Blink.LocationZeroMakesACycle | fish/blink.S:159-162 | after an add at location 0 the next add takes the same slot and the node points at itself |
| Frames.AddFrames | fish/fish.c:78-148 | the loop terminates and issues one add for each visible cell of the two pictures, row by row, with the first picture's character as on, the second's as off, a space past the end of a line, and 15 ticks each |
| Frames.AddRow | fish/fish.c:99-130 | one row's adds, with both inputs left after their lines |
| Frames.EveryVisibleCellOnce | fish/fish.c:98-147 | for pictures of all shapes the adds are the cells of a rising list of places, and a place is in it exactly when one of the pictures shows something there |
| Frames.ShowFrames | fish/fish.c:78-148 | on a new driver, for pictures within 80 columns and 16-bit locations: every place of the screen has a blinker exactly when something is seen there, on with the first picture's character and off with the second's, and the screen shows the first picture |
| Frames.PlayFrames | fish/fish.c:55-71 | after n tasklets the screen shows the first picture when n mod 30 is below 15, and the second otherwise |
| Frames.FittingCellsRise | fish/fish.c:125-126 | such pictures ask for rising locations from 40 on, so never for location 0 and never for one twice |

## Left out

- Port I/O, interrupt controller, RTC and PIT programming, the hardware cursor: device plumbing.
- Interrupts in the middle of `syscall_read`: a read is one step, so a key or a switch during the copy loop is not modelled.
- TLB contents: page-table writes take effect at once.
- IDT, GDT, TSS descriptor and exception entry code, boot and multiboot parsing: straight-line setup.
- Register contents, `iret` and ELF loading: replaced by frame tokens and the outcome of the program lookup.
- `parse_args` and `syscall_getargs`: their contracts are mostly about caller buffer sizes.
- `printf` conversions, `itoa`, `strrev`: messages are given as their bytes.
- Directory entries of a kind other than RTC, directory and regular file: the code opens them with a stale operations pointer.
- Keyboard.Decode: its own contract only bounds the terminal asked for and says which flags can change; the scan code table is data, and what the flags mean is stated by `Keyboard.FlagsSayWhatIsHeld` and `Keyboard.CtrlFlagExact`.
- Grep.DoOneFile: does not describe the output for files in which a carried line holds a NUL, since it then depends on what the buffer held before; the byte after the buffer must not start out as a newline, since the code reads it uninitialised; `close` cannot fail on an open descriptor.
- FileSystem.ReadData: the caller's buffer must have room for the length asked for, as the code trusts it to; what a wrapped read copies from block numbers that do not exist, which the table scan then skips, is not described.
- FileSystem.CopyRange: copies from blocks that do not exist leave some bytes or other.
- KernelState.Kernel.OnRead: the reply to a read that wraps around is the count alone, since the bytes go to the caller's memory unseen (`FileSystem.ReadData` says which they are); a fault is answered `Faulted`, and the exception is a later event.
- Frames.AddFrames: does not model a failing read, on which the code loops for ever, nor the repeated `close` of a finished file.
- Blink.Driver.Do: says nothing of an add while a node at location 0 is listed, for the reason given under the next line.
- Blink.Driver.DoAll: says nothing of adds while a node at location 0 is listed, after which the list may be a circle on which the tick routine does not end (`Blink.AddKeepsListExactlyWhenSlotIsNew`).
- KernelRuns.PowerOnAndRun: speaks of runs up to the first stuck tick; what the hardware does after the kernel runs wild is not modelled.
- Spinlocks and atomic helpers, host emulation, the syscall error tests, pingpong, counter, hello, sigtest: unused here, tests or simple loops.
