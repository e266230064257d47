# 391OS in Dafny

A model of the logic of a small teaching kernel and of three of its user programs, with proofs. Where the kernel keeps state in
globals and buffers and changes it step by step, the model is a class or an array that its methods change in place, each method
proved against a function on values; what the kernel is for is then proved about those functions, over all inputs and all runs.

| files | subject |
|---|---|
| Console, ConsolePage, VideoMemory | `putc`, `scroll`, `clear`: the 25 by 80 screen as the end of an unbounded page |
| LineDiscipline, LineEcho | line editing as a stack of typed tokens; the echo agrees with the buffer |
| TerminalModel, TerminalRuns, TerminalLaws, Keyboard | three terminals on one console behave as three private ones; what each key and each write does to them |
| ProcessModel, ProcessRuns, ProcessLaws, ProcessDensity, ProcessKernel | `execute`, `halt` and the timer as three call stacks that take turns |
| CStrings, FileSystem, Descriptors | block-indexed reads as slices of a file, under any interleaving of descriptors; `cat` |
| UserCalls, TextLines, GrepSpec, Grep | the chunked scanner of `grep` equals a line filter of the whole file |
| BlinkSpec, BlinkScreen, BlinkPool, FrameFiles | the blink list threaded through its slot pool, its timing and display in closed form, and the two-file merge |
| Numbers, Memory | number printing round trips; word-at-a-time copies against byte copies |

Terms used below. A run of the process table is *dense* if each process in it starts with the live pids forming a prefix
0..n-1; `get_pcb` finds a PCB by the number of processes, so only then is it the new process's own. A base shell that halts is
restarted through `execute`, and that restart is dense in a single configuration: shell 2, with the three shells the only
processes. A text is *safe* for a console if it never issues a backspace at column 0 of a lower row, where `putc` leaves the
cursor in column 80. A terminal's *share* of a run is what concerns it: keys pressed while it is displayed, and writes and reads
made while it is scheduled.

Promises that the code does not keep everywhere are stated with the exact condition under which it does:

- parent chains, context and descriptors of every process: along the dense runs and no others (`ProcessDensity.RunSoundExactly`,
  with `LaunchMatchesExactly` and `RestartMatchesExactly` for the chains alone; `RestartFailsFromBoot` reaches a failure);
- a system call's descriptors: its caller's own when its pid is the number of processes less one (`ProcessDensity.OwnTableExactly`);
- the cursor on the screen: for the texts that never back over the left edge of the page they lay out (`ConsolePage.SafeExactly`,
  `TerminalRuns.RunsExactly`);
- an uncleared page: `ConsolePage.UnclearedShows`;
- a tab taken back by one backspace: `LineDiscipline.TabTakenBack`;
- blinking by the lengths as written: lengths in 1..32768 (`BlinkSpec.OnByLengthsExactly`);
- the blinking screen: no add at a taken cell, and no sync of an entry that is on, for sync always draws the off character because
  its conditional move tests the sign of a result that is 0 or 1 (`BlinkScreen.DrawAgrees`, `RunAgreesExactly`);
- the blink pool: no add at location 0 (`BlinkPool.Blinker.Add`; `AddAtZeroLoops` shows the loop one makes);
- a read of a file: no block of it is missing (`FileSystem.ReadData`).

An empty pattern, and one that starts outside ASCII, is never found by grep, because its first character is compared as a signed
char; `GrepSpec.Reported` says so.

`dafny verify dfyconfig.toml` checks the whole project.

## Model

| member | source | states |
|---|---|---|
| TerminalRuns.RunIsolated | student-distrib/keyboard.c:94-475 | Terminal isolation over every run: however writes, keys, reads, Alt-Fn switches, ticks and remappings interleave, each terminal's screen, cursor and edited line are those of a private terminal that got only its own share, and the hardware cursor is the displayed terminal's |
| TerminalRuns.TerminalShowsItsPage | student-distrib/keyboard.c:270-288 | The same down to the page: each terminal's cursor stays on its screen and it shows the last 25 rows of what its own echoes and output alone lay out, all of them if its page was clear and from any row on that it showed at the start |
| TerminalRuns.RunsExactly | student-distrib/keyboard.c:94-475 | Which runs these are: exactly those whose steps are orderly and whose output, on the page of its own terminal, never backs over the left edge of a lower row |
| TerminalRuns.EnabledExactly | student-distrib/keyboard.c:94-475 | The same for one step, from the pages alone |
| TerminalRuns.StepShowing | student-distrib/keyboard.c:94-475 | One step feeds each terminal's page with what it prints on that terminal, and every terminal still shows its page |
| Keyboard.Boot | student-distrib/kernel.c:148-171 | After the boot sequence terminal 0 is displayed and scheduled, no modifier is down and no notice is due; terminal 0 shows the empty page; the backing pages were not cleared, so terminals 1 and 2 show theirs from the 26th row on |
| TerminalRuns.SharedReadDelivers | student-distrib/keyboard.c:238-264 | Whatever the other terminals did meanwhile, after Enter the reader is awake and gets the first min(nbytes, length + 1) bytes of the line typed on its own terminal, full lines included |
| TerminalRuns.StepIsolated | student-distrib/keyboard.c:94-475 | One step of the shared machine is, on every terminal, that terminal's share of it on a private console and line; the machine stays well formed |
| TerminalRuns.KeyboardIsolated | student-distrib/keyboard.c:147-195 | A keyboard interrupt touches the displayed terminal only, whichever program is running |
| TerminalRuns.WriteIsolated | student-distrib/keyboard.c:270-288 | terminal_write changes the scheduled terminal only, displayed or not; what it prints there is `TerminalLaws.WritePrints` |
| TerminalLaws.WritePrints | student-distrib/keyboard.c:270-288 | A write shows exactly its text on the scheduled terminal's own screen, displayed or not, after the 22 bytes of the process-limit notice if that is due, and leaves none due |
| TerminalLaws.NoticeShownOnce | student-distrib/keyboard.c:276-279 | When the limit has been met the next write shows the notice before its text, and the one after it does not |
| TerminalLaws.RunPanel | student-distrib/keyboard.c:94-201 | Over every run caps lock, shift, ctrl, alt, the terminal displayed, the terminal scheduled and whether a notice is due are what the scancodes, ticks and writes alone make them |
| TerminalLaws.AltShows | student-distrib/keyboard.c:165-175 | With Alt down scancodes 0x3B, 0x3C and 0x3D display terminals 0, 1 and 2, on a full line too; no other event changes which one is displayed |
| TerminalLaws.FlagKeys | student-distrib/keyboard.c:105-139 | Which of the ten modifier codes sets, clears or toggles which flag; they change nothing else |
| TerminalLaws.CharacterTyped | student-distrib/keyboard.c:5-70 | Every character key, by its scancode: stores at nchars and echoes its capital if caps lock differs from shift for the 26 letters, its upper character if shift is down for the others; nothing else changes |
| TerminalLaws.EnterPressed | student-distrib/keyboard.c:148-150 | 0x1C with any flags puts a newline at nchars, empties the line, wakes the reader and echoes a newline |
| TerminalLaws.BackspacePressed | student-distrib/keyboard.c:151-153 | 0x0E takes back one character, or four cells that end in a tab, and echoes as many backspaces; none on an empty line |
| TerminalLaws.TabPressed | student-distrib/keyboard.c:154-156 | 0x0F stores up to four tab-marked spaces, stops at character 127 with a newline in the last cell if it runs out of room, and echoes one tab |
| TerminalLaws.FullLineDrops | student-distrib/keyboard.c:140-143 | With 127 characters and Alt up, every key but Enter and Backspace is dropped |
| TerminalLaws.DroppedExactly | student-distrib/keyboard.c:140-143 | The same as an equivalence on nchars, alt, ctrl and the scancode |
| TerminalLaws.KeyIgnored | student-distrib/keyboard.c:145-176 | With Alt down a key that types, and a release code at any time, changes no terminal's screen or line |
| TerminalLaws.KeyCodes | student-distrib/keyboard.c:5-70 | The key table: both characters of every key by its place in its row, and which codes are letters |
| TerminalLaws.MappedAfter | student-distrib/keyboard.c:284-285 | After a tick or a remapping the video address shows the scheduled terminal's own screen; after a write, the displayed one's |
| TerminalLaws.MappedAfterKey | student-distrib/keyboard.c:194-195 | After a handled key it shows the scheduled terminal's own screen |
| TerminalRuns.ReadIsolated | student-distrib/keyboard.c:249-261 | A read changes nothing but the scheduled terminal's line |
| TerminalRuns.SwitchIsolated | student-distrib/keyboard.c:428-448 | Switching swaps pages and cursors and changes no terminal's own screen, line or cursor |
| TerminalRuns.MapChangesNothing | student-distrib/keyboard.c:455-475 | Remapping the video address changes no terminal's screen |
| TerminalRuns.PutOn | student-distrib/keyboard.c:274-284 | Text put through the mapping of a terminal, displayed or not, lands on that terminal's screen and on no other |
| TerminalRuns.PrivateScreen | student-distrib/lib.c:174-224 | A private terminal's screen is its console fed with the echoes and texts in order |
| TerminalRuns.LineOfRun | student-distrib/keyboard.c:324-421 | A private terminal's edited line depends on the keys alone, whatever its program prints between them |
| TerminalModel.SeenIsLogical | student-distrib/keyboard.c:455-475 | After mapping terminal t, what putc sees and writes is terminal t's own screen: the display page if it is displayed, else its backing page |
| Keyboard.Keyboard.Run | student-distrib/keyboard.c:94-475 | The kernel's globals, changed in place by any sequence of interrupts, writes, reads and ticks, go through exactly the states of the isolation theorem |
| Keyboard.Keyboard.Do | student-distrib/keyboard.c:94-475 | One event changes the globals as one step of the shared machine, and keeps them well formed |
| Keyboard.Keyboard.Handle | student-distrib/keyboard.c:94-201 | keyboard_handler: modifiers, the full-line test, dispatch, and both remappings; the terminal displayed and the flags afterwards by scancode |
| Keyboard.Keyboard.Dispatch | student-distrib/keyboard.c:149-194 | The branch taken for each scancode with shift, caps lock and alt, and what it does to the shared state; the terminal displayed afterwards by scancode |
| Keyboard.Keyboard.ModifierKey | student-distrib/keyboard.c:106-136 | Which scancodes only change a flag, and that they change nothing else |
| Keyboard.Keyboard.TerminalPutc | student-distrib/keyboard.c:372-392 | Stores and echoes a character, then saves both copies of the cursor |
| Keyboard.Keyboard.TerminalTab | student-distrib/keyboard.c:398-421 | Stores up to four marked spaces and echoes one tab |
| Keyboard.Keyboard.TerminalBackspace | student-distrib/keyboard.c:346-366 | Takes back a character or a tab and echoes as many backspaces |
| Keyboard.Keyboard.TerminalNewLine | student-distrib/keyboard.c:324-339 | Ends the line, wakes the reader and echoes a newline |
| Keyboard.Keyboard.SwitchTerminal | student-distrib/keyboard.c:428-448 | Saves the cursor and page of the terminal left and brings in those of the next |
| Keyboard.Keyboard.SwitchVmemPaging | student-distrib/keyboard.c:455-475 | Loads the terminal's cursor and maps the display page or its backing page |
| Keyboard.Keyboard.TerminalWrite | student-distrib/keyboard.c:270-288 | Maps, prints the notice that is due and the text, and saves the cursor; latches the hardware cursor only when displayed. The scheduled terminal's screen is fed with the text, or with the notice's bytes and the text |
| Keyboard.Keyboard.PrintOutput | student-distrib/keyboard.c:276-283 | The mapped screen is fed with the text, or with the notice's bytes and then the text if the flag was set, and the flag is reset |
| Keyboard.Keyboard.TerminalRead | student-distrib/keyboard.c:249-263 | Returns the line's bytes and count and leaves the buffers as ReadLine says |
| Keyboard.Keyboard.constructor | student-distrib/keyboard.c:295-318 | The three terminals start empty, at the origin and sharing no memory |
| Keyboard.Terminal.TakeLine | student-distrib/keyboard.c:249-263 | The copy loop of terminal_read stops at a newline, the request or 128 bytes, blanking what it took |
| Keyboard.Terminal.StoreTab | student-distrib/keyboard.c:398-416 | The tab loop equals four turns of the storing step, stopping early on a full line |
| LineDiscipline.KeysHold | student-distrib/keyboard.c:324-421 | For every sequence of ordinary characters, tabs that are full or find the line full, backspaces and Enter, line_buffer up to nchars spells a stack of tokens, a tab being four spaces, and tab_buffer marks exactly the tab cells |
| LineDiscipline.PressHolds | student-distrib/keyboard.c:140-143 | The same for a key as keyboard_handler treats it, dropping it on a full line |
| LineDiscipline.KeyHolds | student-distrib/keyboard.c:324-421 | Each handler pushes or pops one token or ends the line; the branches for a line beyond 127 and for a tab with fewer than four cells before it are not reached |
| LineDiscipline.HandledHold | student-distrib/keyboard.c:324-421 | Any sequence of handled keys spells its token stack, full lines included |
| LineDiscipline.TabKeepsFront | student-distrib/keyboard.c:398-416 | A tab leaves the text and marks before it alone, and does not move on a full line |
| LineDiscipline.TabStores | student-distrib/keyboard.c:398-416 | What any number of turns of the tab loop stores, cell by cell, with room or without |
| LineDiscipline.ReadDelivers | student-distrib/keyboard.c:238-264 | terminal_read returns the first min(nbytes, length + 1) bytes of the edited line and its newline, whatever stale bytes the buffers held |
| LineDiscipline.ReadEnded | student-distrib/keyboard.c:249-263 | The same for any buffer that holds a newline-ended text at its front; the line is left empty and its flag clear |
| LineDiscipline.TakeEnds | student-distrib/keyboard.c:251-260 | The copy loop ends at the first newline, or with the request or the buffer used up, and what it has taken by then |
| LineDiscipline.TabTakenBack | student-distrib/keyboard.c:346-421 | One backspace takes a stored tab back if and only if the tab had room for all four cells; otherwise it leaves 123 characters; the text and marks before the tab are untouched either way |
| LineEcho.EchoAgrees | student-distrib/keyboard.c:346-421 | After every key on a line that stays on one screen row, the cursor column is the start column plus nchars and the row shows exactly the buffer and then blanks |
| LineEcho.EditingShows | student-distrib/keyboard.c:346-421 | The same over any sequence of characters, tabs and backspaces |
| ConsolePage.ConsoleRefinesPage | student-distrib/lib.c:174-239 | For every byte stream that, by its text alone, never backs over the left edge of the page it lays out, the cursor stays in range, and the 25 by 80 buffer is the last 25 rows of that page with every attribute byte ATTRIB |
| ConsolePage.SafeExactly | student-distrib/lib.c:186-197 | A text keeps the cursor on the screen all the way if and only if no backspace of it comes at the very start of a lower row of the page it lays out |
| ConsolePage.UnclearedShows | student-distrib/keyboard.c:313 | A page nobody cleared shows the empty page if and only if it is blank already; from the 26th row on it shows what is laid out, whatever it held |
| ConsolePage.ScrolledClean | student-distrib/lib.c:226-239 | Once 25 rows have scrolled off, an uncleared screen shows its page like any other |
| ConsolePage.PutShows | student-distrib/lib.c:174-224 | The same for one byte, with wrapping, scrolling, tab, backspace and both line ends |
| ConsolePage.ClearShows | student-distrib/lib.c:19-28 | A cleared screen shows the empty page |
| ConsolePage.OrdinaryTextWraps | student-distrib/lib.c:209-222 | Ordinary characters are laid out at row k / 80 and column k mod 80 |
| ConsolePage.NewLineLaysOutApart | student-distrib/lib.c:175-185 | A newline closes the rows of what came before and what follows is laid out as on an empty page below them |
| Console.CursorStaysInRange | student-distrib/lib.c:186-197 | One byte keeps the cursor on the screen if and only if it is not a backspace at column 0 of a lower row |
| Console.FeedAppend | student-distrib/lib.c:161-168 | Printing two texts one after the other is printing their concatenation |
| Console.CellScrolled | student-distrib/lib.c:226-239 | After a scroll each row shows the row below it, the bottom row is blank and every attribute is ATTRIB |
| VideoMemory.Video.Putc | student-distrib/lib.c:174-224 | putc in place through the mapped page does what the value-level step does, and no other page changes |
| VideoMemory.Video.Scroll | student-distrib/lib.c:226-239 | The in-place, column-by-column shift moves the whole page up one row and leaves the other pages alone |
| VideoMemory.Video.MoveUp | student-distrib/lib.c:230-236 | One turn of the inner loop keeps the half-shifted picture: finished columns and rows moved, the rest untouched |
| VideoMemory.Video.Puts | student-distrib/lib.c:161-168 | puts writes the bytes in order |
| VideoMemory.Video.Clear | student-distrib/lib.c:19-28 | clear blanks every cell of the mapped page and puts both cursors at the origin |
| VideoMemory.Video.UpdateCursor | student-distrib/lib.c:542-548 | The two bytes sent to the controller make up the cell index of the cursor |
| VideoMemory.Video.CopyFrame | student-distrib/keyboard.c:438-439 | A page copied with memcpy is the other page, and nothing else changes |
| ProcessRuns.RunMatches | student-distrib/syscalls.c:57-199 | Every dense run resumes exactly what three call stacks, one per terminal, resume; the parent chains are those stacks, disjoint and covering the live pids; processes_running counts them; esp0 and the user page are the running program's (in numbers: `ProcessLaws.RunContext`) |
| ProcessLaws.RunContext | student-distrib/syscalls.c:274-290 | At the end of every dense run esp0 is 0x800000 - 0x2000 * pid - 4 for the active pid of the scheduled terminal, and the user page takes address 0x8000000 + x to 0x800000 + 0x400000 * pid + x |
| ProcessLaws.LimitRaised | student-distrib/syscalls.c:158-161 | The process-limit flag is raised by an execute of a loadable program while all six pids are live, and by nothing else |
| ProcessLaws.HaltFrees | student-distrib/syscalls.c:63-69 | A program that halts to its caller leaves its pid free and its eight descriptors closed, and no other record changes |
| ProcessRuns.StepMatches | student-distrib/syscalls.c:57-199 | The same for one execute, halt or tick, which is always enabled |
| ProcessRuns.Boot | student-distrib/syscalls.c:534-568 | Three ticks from power-on start the three base shells on their terminals and reach the state runs are taken from |
| ProcessRuns.ExecuteMatches | student-distrib/syscalls.c:153-196 | A dense execute pushes one frame on the scheduled terminal's stack and enters it |
| ProcessRuns.ReturnMatches | student-distrib/syscalls.c:57-92 | A halt above the base shell pops one frame and returns to the caller it saved, with its status |
| ProcessRuns.RestartMatches | student-distrib/syscalls.c:70-76 | The single dense restart, that of shell 2 with three processes live, starts it again under the same pid |
| ProcessRuns.TickMatches | student-distrib/syscalls.c:534-568 | A tick parks the running terminal and goes on with the next one |
| ProcessLaws.HaltReturnsToExecute | student-distrib/syscalls.c:57-92 | execute and halt are well bracketed: the halt that takes a terminal back to the depth of an execute returns to the stack that execute saved, whatever ran in between |
| ProcessLaws.StoppedTerminalGoesOn | student-distrib/syscalls.c:534-568 | A terminal stopped by a tick goes on two ticks later from the very stack it was stopped with |
| ProcessLaws.RoundRobin | student-distrib/pit.c:35-42 | In every run, dense or not, only ticks change the scheduled terminal, and they go round the three in order |
| ProcessLaws.ThreeTicksScheduleAll | student-distrib/pit.c:35-42 | Any three consecutive ticks of any run schedule each terminal once |
| ProcessLaws.RestartOutOfOrder | student-distrib/syscalls.c:70-76 | What a restart out of order does: with three shells live shell 0's restart writes over shell 2's PCB, and terminal 2 has no chain left |
| ProcessDensity.RunSoundExactly | student-distrib/syscalls.c:57-199 | From a sound state a run keeps the promise at every moment, parent chains, context and each process's own terminal descriptors, if and only if it is dense |
| ProcessDensity.StepSoundExactly | student-distrib/syscalls.c:57-199 | The same for one step: every step is enabled, and it keeps the promise if and only if it is dense |
| ProcessDensity.LaunchMatchesExactly | student-distrib/syscalls.c:153-194 | A new process fits its terminal's call stack if and only if the live pids form a prefix, or its record goes to a free slot while its own slot happens to hold the same record from before |
| ProcessDensity.LaunchSoundExactly | student-distrib/syscalls.c:153-194 | With its descriptors, it fits if and only if the live pids form a prefix |
| ProcessDensity.RestartDenseExactly | student-distrib/syscalls.c:70-76 | A base shell's restart is dense in one configuration only: shell 2, with the three shells the only processes |
| ProcessDensity.RestartMatchesExactly | student-distrib/syscalls.c:70-76 | A base shell that halts comes back with every chain as it was if and only if it is in that configuration, or its record goes to a free slot while its own slot happens to hold the same record |
| ProcessDensity.RestartSoundExactly | student-distrib/syscalls.c:70-76 | With its descriptors, if and only if it is shell 2 and the three shells are the only processes |
| ProcessDensity.BootSound | student-distrib/syscalls.c:534-568 | Three ticks from power-on reach a sound state |
| ProcessDensity.RestartFailsFromBoot | student-distrib/syscalls.c:70-76 | The failure is reachable: four ticks from power-on, shell 0 exits, and terminal 2 has no chain left while shell 2 lives on |
| ProcessDensity.OwnTableExactly | student-distrib/syscalls.c:39-50 | open, read and close reach the caller's own descriptors if and only if its pid is one less than the number of processes; with the live pids a prefix, if no process has a larger pid |
| ProcessDensity.ShellsShareATable | student-distrib/syscalls.c:39-41 | With only the three shells running, only terminal 2's reaches its own table |
| ProcessModel.PcbAddressing | student-distrib/syscalls.c:39-50 | Just after allocation get_pcb() is get_pcb_by_pid(pid) if and only if the live pids formed a prefix, and then they do again |
| ProcessModel.HaltKeepsPrefix | student-distrib/syscalls.c:57-69 | A halt that restarts nothing keeps a prefix if and only if the halted pid is the largest |
| ProcessModel.FirstFreeIsCount | student-distrib/syscalls.c:154-165 | First-free allocation: where the first free pid stands relative to the number of live pids, exactly when they form a prefix |
| ProcessModel.FramesDisjoint | student-distrib/syscalls.c:224-235 | The 8 KB stack slots and the 4 MB user frames of distinct pids never overlap, nor does a frame meet a stack; where in its frame each linear address goes |
| ProcessModel.KernelStackTop | student-distrib/syscalls.c:282 | The kernel stack pointer of a pid is 0x800000 - 0x2000 * pid - 4, four bytes below the top of its slot |
| ProcessModel.PushesStayInSlot | student-distrib/syscalls.c:282 | A word pushed below it lies in the pid's own slot if and only if at most 0x1FFC bytes are pushed, and then in no other pid's |
| ProcessModel.UserPageIsFrame | student-distrib/syscalls.c:216-239 | The directory entry written for a pid is its own 4 MB frame |
| ProcessKernel.Kernel.Run | student-distrib/syscalls.c:57-199 | The globals, changed in place by any sequence of execute, halt and ticks, go through the states and resumptions of the value-level run |
| ProcessKernel.Kernel.Execute | student-distrib/syscalls.c:153-196 | The in-place execute takes the value-level step: pid scan, PCB, descriptors, paging, esp0; a program entered gets the esp0 and user page of its pid, in numbers |
| ProcessKernel.Kernel.Halt | student-distrib/syscalls.c:57-96 | The in-place halt takes the value-level step, restart included; a caller returned to gets the esp0 and user page of its pid, in numbers |
| ProcessKernel.Kernel.Schedule | student-distrib/syscalls.c:534-568 | The in-place schedule takes the value-level step |
| ProcessKernel.Kernel.PitHandler | student-distrib/pit.c:35-42 | The timer handler schedules the next terminal in order |
| ProcessKernel.Kernel.ScanPids | student-distrib/syscalls.c:154-157 | The scan finds the first free pid, or the table size |
| ProcessKernel.Kernel.FillPcb | student-distrib/syscalls.c:177-194 | The record of a new process: pid, parent, terminal, descriptors, saved caller |
| ProcessKernel.Kernel.InitFdArray | student-distrib/syscalls.c:246-267 | Descriptors 0 and 1 are the terminal's, all others closed |
| Grep.DoOneFile | syscalls/ece391grep.c:9-66 | Streaming grep is batch grep: a file that cannot be opened is reported; otherwise, however 1024-byte reads cut the lines, it terminates and prints exactly the reports of the lines that contain the pattern, once each and in file order, and closes the file again |
| Grep.Scan | syscalls/ece391grep.c:20-60 | The loop prints what is due for the rest of the file and touches no other descriptor |
| Grep.ScanBuffer | syscalls/ece391grep.c:27-57 | One buffer: what it prints and what the carried-over line and the unread file still have to print add up to what was due |
| Grep.ScanLine | syscalls/ece391grep.c:40-52 | Cutting one line off the buffer prints its report and leaves the rest due |
| Grep.TestAt | syscalls/ece391grep.c:43-44 | The test at one position: true if and only if the pattern, non-empty and ASCII in its first byte, stands there |
| Grep.Refill | syscalls/ece391grep.c:22-27 | A read behind the carried-over line loses nothing of the file, and comes back short only at its end |
| UserCalls.OpenFile.Read | student-distrib/file_system.c:163-182 | What a user program sees of read on the kernel's table: the next min(n, remaining) bytes of the file placed in its buffer, 0 at the end, and no other descriptor changed |
| UserCalls.OpenByName | student-distrib/syscalls.c:373-431 | Opening a regular file gives a descriptor that was free and stands at the start of the named file, or changes nothing |
| UserCalls.OpenFile.Close | student-distrib/syscalls.c:441-460 | Closing leaves the place in the file and every other descriptor alone |
| Grep.SearchLine | syscalls/ece391grep.c:42-51 | Prints the line once if and only if the pattern occurs in it |
| Grep.CarryOver | syscalls/ece391grep.c:33-39 | The unfinished line slides down to the front unharmed |
| Grep.FindLineEnd | syscalls/ece391grep.c:30-32 | The end of the line in the buffer |
| Grep.Strncmp | syscalls/ece391support.c:35-46 | Zero if and only if the string stands at that place |
| Grep.Strcpy | syscalls/ece391support.c:14-17 | An overlapping downward copy moves the string and its NUL and nothing else |
| Grep.Strlen | syscalls/ece391support.c:6-12 | The distance to the NUL |
| GrepSpec.GrepFirstLine | syscalls/ece391grep.c:27-57 | Batch grep reports a text's first line and then the rest |
| GrepSpec.GrepOutput | syscalls/ece391grep.c:27-57 | For a file name without newline: what grep prints, read as lines again, is name, colon and line for exactly the lines that contain the pattern, once each and in file order |
| TextLines.LinesJoin | syscalls/ece391grep.c:30-32 | The lines of a text are newline-free and join to the text again |
| FileSystem.ReadData | student-distrib/file_system.c:74-134 | A read is a slice: it returns min(length, data_len - offset) and fills the buffer with exactly that slice, touching nothing else; it fails if and only if the inode is bad or it enters a block that does not exist |
| FileSystem.ContentsAreBlocks | student-distrib/file_system.c:74-134 | A file is its blocks, concatenated in inode order and cut at data_len |
| FileSystem.BlocksIndex | student-distrib/file_system.c:78-79 | Byte i of the concatenated blocks is byte i mod 4096 of block i / 4096 |
| FileSystem.ReadDentryByName | student-distrib/file_system.c:20-43 | Finds the first entry with the name, or fails if there is none |
| FileSystem.LookupIsFirst | student-distrib/file_system.c:20-43 | A lookup succeeds if and only if some entry agrees on 32 characters, and takes the first |
| CStrings.Strncmp | student-distrib/lib.c:474-488 | Zero if and only if the strings agree on their first n characters |
| CStrings.Strlen | student-distrib/lib.c:301-306 | The length of the string up to its NUL |
| Descriptors.RunDelivers | student-distrib/syscalls.c:323-460 | Descriptor independence: after any interleaving of opens, reads and closes, the bytes returned on each open descriptor are, joined, the start of the file it was opened on, up to its position |
| Descriptors.CallDelivers | student-distrib/syscalls.c:323-460 | The same for one call |
| Descriptors.OpenExactly | student-distrib/syscalls.c:373-431 | open gives the lowest free descriptor the clock's, the directory's or the file's operations by the type of the first entry that agrees with the name, position 0, and the inode for a file |
| Descriptors.OpenRefusesExactly | student-distrib/syscalls.c:379-429 | open fails, and changes nothing, if and only if the name is empty, no entry agrees with it, or all descriptors are in use |
| Descriptors.CloseExactly | student-distrib/syscalls.c:441-460 | close frees an open descriptor from 2 on, changes nothing else and refuses everything else; a second close fails |
| Descriptors.NeverEntersBadBlock | student-distrib/file_system.c:112-120 | In a well-formed image no read of a file leaves its own blocks |
| Descriptors.Table.Open | student-distrib/syscalls.c:373-431 | open takes the lowest free index and fills it for the entry's type, or fails and changes nothing |
| Descriptors.Table.Read | student-distrib/syscalls.c:323-338 | read checks its arguments, delivers the next slice and advances that descriptor alone |
| Descriptors.Table.FileRead | student-distrib/file_system.c:163-182 | f_read returns the slice at the position and moves the position past it |
| Descriptors.Table.Close | student-distrib/syscalls.c:441-460 | close frees an open user descriptor and refuses any other |
| Descriptors.Cat | syscalls/ece391cat.c:6-31 | cat terminates and writes exactly the file, or reports that it is not there |
| Descriptors.CopyOut | syscalls/ece391cat.c:21-28 | The read loop writes the whole file from the descriptor's position 0 |
| BlinkPool.Blinker.Run | fish/blink.S:49-300 | The linked list in the slot pool and the video page go through exactly the states of a plain list and its drawing under any sequence of adds, removes, syncs and ticks; what each does to the list by index is `BlinkSpec.AddExactly`, `RemoveExactly`, `SyncExactly` |
| BlinkScreen.AddedShows | fish/blink.S:49-184 | What the user sees: from its add on an entry's cell shows its first character if and only if the ticks since then, modulo its period, lie in the on part, and its second character otherwise |
| BlinkScreen.DrawAgrees | fish/blink.S:49-300 | After an operation every entry has a cell of its own showing the character its state calls for, if and only if the operation is neither an add at a taken cell nor a sync that leaves its entry on with two different characters |
| BlinkScreen.RunAgreesExactly | fish/blink.S:49-300 | The screen agrees with the list at every moment of a run if and only if no operation of it is an add at a taken cell or a sync that draws wrongly |
| BlinkScreen.DrawsOwned | fish/blink.S:43-47 | No operation writes an attribute byte, or a cell that has no entry and is not getting one |
| BlinkScreen.RemovedStaysDark | fish/blink.S:187-237 | What has been removed stops blinking: neither the remove nor any later add elsewhere, remove, sync or tick writes its cell again |
| BlinkScreen.UpdateAgrees | fish/blink.S:277-285 | Sync leaves its cell right if and only if the off character it always draws is the one its entry's state calls for |
| BlinkPool.Blinker.Add | fish/blink.S:105-184 | Adds in front, in a slot that was not linked, and draws the entry, exactly when the location is below 2000 and fewer than 2000 entries are linked, else refuses; the pool stays sound if and only if nothing was added at location 0 |
| BlinkPool.AddAtZeroLoops | fish/blink.S:159-162 | What an add at location 0 costs: the next add is handed the same slot and sets its NEXT to itself, and no list is linked from there any more |
| BlinkPool.Blinker.Remove | fish/blink.S:187-237 | Deletes exactly the first match and keeps the order of the rest; the slot taken out held the location, looks free afterwards and leaves room in the pool; fails if and only if no linked slot holds the location |
| BlinkPool.Blinker.SyncTwo | fish/blink.S:240-300 | Copies the four timing fields from the first match of one location to that of the other, and draws the latter's off character whatever its state |
| BlinkPool.Blinker.Tasklet | fish/blink.S:49-99 | Ticks every entry once, draws exactly those that change, and relinks nothing |
| BlinkPool.Blinker.Unlink | fish/blink.S:214-222 | Pointing past a slot and clearing it takes exactly that entry out of the list |
| BlinkPool.Blinker.FindHelper | fish/blink.S:351-379 | Finds the first entry at the location |
| BlinkPool.Blinker.FindPrev | fish/blink.S:206-212 | Walks to the pointer that holds the slot |
| BlinkPool.Blinker.Malloc | fish/fish.c:160-170 | Never hands out a linked slot, and fails if and only if all 2000 are linked |
| BlinkPool.Blinker.Free | fish/fish.c:172-175 | Clears one slot |
| BlinkPool.FullChain | fish/fish.c:160-170 | The list never exceeds the pool, and fills it if and only if no slot looks free |
| BlinkPool.RemoveLinked | fish/blink.S:206-217 | Bypassing and clearing a slot leaves an acyclic list of the others in order |
| BlinkPool.AddLinks | fish/blink.S:159-162 | Linking a free slot in front keeps the list acyclic; its slots are still those in use if and only if the location is not 0 |
| BlinkSpec.OnExactly | fish/blink.S:58-90 | Closed form for all 16-bit lengths: n ticks after its add an entry is on if and only if n modulo the real period is below the real on length |
| BlinkSpec.OnByLengthsExactly | fish/blink.S:64-66 | The lengths as written give the blinking if and only if both are 1..32768 |
| BlinkSpec.AddedBlinks | fish/blink.S:105-184 | The closed form among other entries, whatever is added, removed or synced elsewhere |
| BlinkSpec.EntryKeepsTime | fish/blink.S:49-99 | Operations on other locations do not disturb an entry's timing |
| BlinkSpec.SyncedBlinkAlike | fish/blink.S:267-275 | After a sync the two entries have equal countdown and status at every later tick |
| BlinkSpec.RemoveExactly | fish/blink.S:187-237 | remove leaves the list without its element k, the first at the location, and fails if and only if there is none; the location is free afterwards if and only if it had no second entry |
| BlinkSpec.RemoveMakesRoom | fish/fish.c:160-175 | After a remove from any list, a full one included, an add at a cell of the screen succeeds |
| BlinkSpec.AddExactly | fish/blink.S:105-184 | add succeeds if and only if the cell is on the screen and fewer than 2000 are linked; the new entry comes in front, on, with its whole on length to go |
| BlinkSpec.SyncExactly | fish/blink.S:240-300 | sync replaces the lengths, countdown and status of element l by those of element k, the first ones at the two locations, and fails if and only if one is missing |
| FrameFiles.AddFrames | fish/fish.c:78-148 | If a file cannot be opened the program halts and issues no add; otherwise the merge terminates and closes both files, and there is a strictly increasing list of exactly the places where either text shows something, whose i-th place is that of the i-th add: location (80 row + col + 40) mod 65536, both characters, lengths 15 |
| FrameFiles.ZipOncePerPlace | fish/fish.c:98-130 | The ragged zip has exactly one add for each place where either text shows something, in order of row and column |
| FrameFiles.OpenBoth | fish/fish.c:91-96 | The second file is tried only when the first is there, and gets a descriptor of its own |
| FrameFiles.AddRow | fish/fish.c:98-147 | One turn of the outer loop issues one row, closes what has ended, and starts the next row |
| FrameFiles.AddsExactly | fish/fish.c:118-129 | The zip has an add for a place if and only if either text shows something other than a space there |
| FrameFiles.RowExactly | fish/fish.c:100-130 | The same for one row, the shorter line padded with spaces |
| FrameFiles.ReadRow | fish/fish.c:100-130 | The inner loop issues exactly one row and leaves both readers at the next |
| FrameFiles.NextChar | fish/fish.c:102-108 | A reader that has met its line's end stays there; another takes one byte or meets the end of its file |
| FrameFiles.ReaderAdvances | fish/fish.c:102-108 | Where one read leaves a reader, in terms of the lines of its text |
| Numbers.ParseDigits | student-distrib/lib.c:246-276 | Printing then reading gives the value back, with no leading zero except for 0, in every radix 2..36 |
| Numbers.DigitsParse | student-distrib/lib.c:246-276 | Reading then printing a canonical numeral gives the text back |
| Numbers.Itoa | student-distrib/lib.c:246-276 | For every 32-bit value the buffer holds its numeral and a NUL, and nothing else changes |
| Numbers.WriteLowFirst | student-distrib/lib.c:259-272 | The digit loop leaves the numeral lowest place first |
| Numbers.Strrev | student-distrib/lib.c:282-295 | The in-place reversal reverses the string and touches nothing else |
| Numbers.LengthAt | student-distrib/lib.c:301-306 | strlen gives the length of the string that stands in the buffer |
| Numbers.DigitsLength | student-distrib/lib.c:246-276 | A 32-bit value has at most 32 digits, so the buffer suffices |
| Numbers.PrintHexAligned | student-distrib/lib.c:89-98 | %#x prints exactly eight hexadecimal digits, and they read back as the value |
| Memory.Memset | student-distrib/lib.c:314-348 | For every alignment and length the head, word and tail loops fill exactly n bytes with the low byte |
| Memory.Memcpy | student-distrib/lib.c:397-434 | For every alignment and length the head, word and tail loops copy the original source bytes |
| Memory.Memmove | student-distrib/lib.c:443-461 | For every overlap the destination receives the original source bytes |
| Memory.CopyWords | student-distrib/lib.c:414-417 | Word moves copy as bytes do when no byte is overwritten before it is read |
| Memory.WordBytes | student-distrib/lib.c:414-417 | A word read from four bytes and stored again is the same four bytes |

## Left out

- Port I/O, device setup, interrupt and segment descriptors and boot assembly: plumbing with no algorithm.
- Real stack switching: a saved context is an opaque pair of esp and ebp, stored and reloaded in one step.
- Interrupts inside a handler: each handler, `terminal_write`, and system call body is one step; `terminal_read` is enabled once its line has been entered.
- TerminalRuns.RunIsolated: takes the runs that `TerminalRuns.RunsExactly` describes; Ctrl-L is not a step, because it clears the screen without saving the cursor to the terminal, and the exception path does the same. User programs' writes through `vidmap` are not events.
- Keyboard.Keyboard.Handle: so Ctrl-L and echoes that back over the left edge are excluded, as they are from the methods it calls. Scancodes past the table act as unused ones.
- Keyboard.Keyboard.Tick: maps the next terminal's page always, where the three boot ticks enter `execute` before they come to the mapping; no terminal has printed by then.
- LineDiscipline.KeysHold: takes tabs that have room for all four cells or find the line full; `LineDiscipline.TabTakenBack` shows what happens to the others. Function keys without Alt type control bytes and are outside it too.
- LineDiscipline.ReadDelivers: takes the same keys.
- The `writeable` flag of a terminal, which is set once and never cleared.
- ProcessRuns.RunMatches: covers dense runs; `ProcessDensity.RunSoundExactly` shows that the promise is broken in all others.
- ProcessKernel.Kernel.Execute: argument parsing and the checks of the executable are one flag, and a load that fails after a pid was taken is not modelled; PCBs are records in an array indexed by their 8 KB slot; the caller's stack saved for a base shell is the one its starter names.
- ProcessKernel.Kernel.FillPcb: the argument string is not part of the record.
- ProcessKernel.Kernel.Halt: the remapping of the video page at its end is the terminals' event `Remap`.
- ProcessKernel.Kernel.Schedule: likewise, part of the terminals' event `Tick`.
- ProcessKernel.Kernel.ScanPids: tests the bound before it reads the table, where the code reads one entry past it on a full table.
- FileSystem.ReadData: checks the inode before it looks at it, where the code looks first; the image is a value, and each byte copied with memcpy is one assignment.
- FileSystem.ReadDentryByName: searches the 63 entries a directory block has room for; the code's loop looks at one more. Name fields without a NUL count as full.
- Descriptors.Table.Read: only descriptors of regular files; reads of the terminal, the directory and the clock are not part of it. One process's table is modelled; whose table a call finds is `ProcessDensity.OwnTableExactly`.
- Descriptors.Table.Close: descriptor 8, which the code's bound lets through, is excluded.
- Descriptors.Cat: like grep and the frame merge, names of regular files or of none, not of directories or the clock.
- `read_dentry_by_index`, `dir_read`, `strncpy`: a bounds test and plain copies.
- Grep.DoOneFile: lines of at most 1023 bytes, no NUL, and a last buffer byte that does not start as a newline; a read or a close that fails cannot happen on this table, and grep's walk over the directory is not modelled.
- BlinkPool.Blinker.Run: no add at location 0. `mp1_ioctl_find` and the copies of its argument are not modelled.
- FrameFiles.AddFrames: the row and column counters are unbounded, and a location is cut to 16 bits.
- Memory.Memcpy: overlapping ranges with the destination above the source, for which it makes no promise.
- The other conversions of `printf`, the other user programs, the signal stubs and the self-tests.
