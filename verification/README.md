# A verified model of painOS

painOS is a small x86 teaching kernel with a handful of user programs. This project models the parts of it that
are algorithms over state and proves what they keep over every run:

- `Grep.dfy`, `GrepFiles.dfy`: the streaming line search. One 1025-byte buffer is filled, scanned, NUL-terminated in
  place, and its unfinished tail is slid to the front before the next read.
- `Console.dfy`, `Layout.dfy`: video memory with wrap, scroll and backspace, and the endless page it is a window on.
- `Memory.dfy`, `Terminals.dfy`: the block operations, and three virtual screens on one video memory.
- `ScanCodes.dfy`, `LineEditor.dfy`, `Echo.dfy`: the keyboard line editor, its echo, and what a reader is handed.
- `Blink.dfy`, `BlinkList.dfy`, `BlinkLaws.dfy`, `BlinkTiming.dfy`, `Frames.dfy`: the blink driver's list threaded through a pool, the
  periodic meaning of its countdowns, and the client that turns two pictures into blinkers.
- `FileSystem.dfy`: lookup by name and index, block-resolved reads, directory enumeration.
- `Processes.dfy`, `ProcessRuns.dfy`, `Descriptors.dfy`: the process and descriptor tables.
- `Arguments.dfy`, `Commands.dfy`: the two ways a command line is taken apart.
- `Numbers.dfy`: numbers to text.

The source updates arrays, globals and structure fields in place, and so does the model: classes and methods over
arrays, each proved against a function of the old state. What the source promises is then proved about those
functions, and what each function means is stated without its own terms. Video memory, the pool, the process table and the buffers keep their sizes and constants.

Some results say that the code does something other than what one would expect. In each case the model follows the
code and a lemma says exactly when the expected behaviour holds:

- `do_one_file` cuts a line after each 1024 bytes, so it prints the right lines exactly when no line that contains
  the pattern is longer than that; it also looks at the one byte behind its uninitialised buffer, and when that is a
  newline a line may be cut sooner (`GrepExact`, `StaleExact`).
- `read_data` admits the offset `len`, so a read that crosses the end of a file returns one byte too many
  (`ReadWithinFile`). When that byte is a NUL the search does not show it, except for an empty pattern
  (`NulBehindText`).
- `reset_buffer` never clears the last cell. After Enter on a line of 127 characters Ctrl+L redraws any line but a
  blank one in the wrong place, and only then (`RedrawAfterRun`); what a reader is handed does not suffer.
- A blinker at location 0 is on the list but its slot looks free; the next one added is linked to itself
  (`InsertKeepsListExactly`). `add_frames` requests location 0 exactly for a picture that shows something in a cell
  whose number is a multiple of 65536 (`ZeroRequestExact`).
- The closing loop of `halt` and of a failed `execute` runs after the pid has been given back, so the process that is
  returned to keeps its descriptors exactly when it had none open (`ExecuteKeepsCaller`, `HaltKeepsParent`).
- The kernel's `parse_command` hands on the whole argument text exactly when there is at most one argument
  (`WholeArgumentExactly`).

## Model

| member | source | states |
|---|---|---|
| Grep.FileStream.Read | student-distrib/syscall.c:439-458 | a read zeroes the request and fills it until the end of what the file hands out; bytes outside the request are kept |
| Grep.ComparesEqual | syscalls/ece391support.c:35-46 | the bounded compare is equal exactly when the pattern occurs at that place of the terminated line |
| Grep.SearchLine | syscalls/ece391grep.c:42-51 | a line, NULs in it or not, is reported exactly when it contains the pattern; an empty pattern is found where a NUL is |
| Grep.SlideTail | syscalls/ece391grep.c:34-37 | the tail up to its first NUL is at the front, terminated, nothing else changes, and no newline is left before its end |
| Grep.ScanBuffer | syscalls/ece391grep.c:28-57 | one pass prints exactly what is complete: output plus what is still to come from tail and file is unchanged, for text in which a NUL only ends a line |
| Grep.FillBuffer | syscalls/ece391grep.c:22-27 | the unfinished tail followed by what is still in the file is the same text before and after a read; a read that does not fill the buffer ends the file |
| Grep.DoOneFile | syscalls/ece391grep.c:9-66 | for any buffer contents and any file the search terminates in bounds; a file in which a NUL only ends a line prints its matching pieces, and a NUL-free text prints the same with and without a NUL behind it |
| Grep.GrepExact | syscalls/ece391grep.c:20-60 | the printed lines are the lines containing the pattern, once each in file order, if and only if none of those is longer than 1024 bytes and the pattern is not empty |
| Grep.GrepOutputExact | syscalls/ece391grep.c:40-51 | the same equivalence for the rendered lines, for a file name without newline |
| Grep.LinesRejoin | syscalls/ece391grep.c:30-32 | the lines of a file, each with a newline behind it, are the file again, up to a newline missing at its end |
| Grep.ContainsExact | syscalls/ece391grep.c:42-44 | a line contains the pattern exactly when it is some bytes, the pattern and some more bytes |
| Grep.WantedExact | syscalls/ece391grep.c:40-51 | a line that contains the pattern is kept once, between what is kept before it and behind it, and any other is dropped |
| Grep.RenderedLines | syscalls/ece391grep.c:45-48 | the lines of the output are the printed lines, each behind the file name and a colon |
| Grep.RenderInjective | syscalls/ece391grep.c:45-48 | different lists of printed lines are different outputs |
| Grep.StaleExact | syscalls/ece391grep.c:13-38 | with a newline behind the buffer the printed lines are the right ones if and only if those containing the pattern fit the buffer and the line that runs on from the first block without a final newline is either complete there or does not contain the pattern |
| Grep.StaleNewlineSplitsALine | syscalls/ece391grep.c:13-38 | an input on which the two differ: its lines all fit, and one is printed as two |
| Grep.OutputExact | syscalls/ece391grep.c:9-66 | the bytes written for a NUL-free text are those of the lines that contain the pattern under exactly these conditions, for both values of the byte behind the buffer |
| Grep.NulBehindText | student-distrib/filesys.c:251-274 | a NUL behind a text changes no byte of the output for a non-empty pattern; for an empty one exactly one line is printed, the unfinished piece the NUL ends |
| GrepFiles.StreamIsFile | student-distrib/filesys.c:251-274 | the reads of the search are the file system's reads, byte for byte |
| GrepFiles.FileSearched | syscalls/ece391grep.c:9-66 | on a text file of the kernel's image the bytes written are the right ones exactly when every line found fits the buffer and a stale newline cuts none |
| Console.Console.Clear | student-distrib/lib.c:20-30 | every cell blank in the one attribute, cursor at the origin, memory behind the screen kept |
| Console.Console.ClearRow | student-distrib/lib.c:36-42 | one row blank, all other cells, the cursor and the memory behind kept |
| Console.Console.ScrollUp | student-distrib/lib.c:225-231 | each row but the last shows the row below it |
| Console.Console.Putc | student-distrib/lib.c:237-264 | the screen afterwards, with wrap as soon as column 80 is filled and scroll below row 25 |
| Console.Console.Delete | student-distrib/lib.c:188-204 | the cell before the cursor is blank and the cursor stands on it; nothing happens at the origin |
| Console.Console.Write | student-distrib/terminal.c:122-130 | the non-NUL bytes are printed in order |
| Layout.RowsSnoc | student-distrib/lib.c:237-264 | splitting a text into rows from the front agrees with printing it byte by byte |
| Layout.PutShows | student-distrib/lib.c:237-264 | a screen showing the end of a layout shows the end of the extended layout after one more byte |
| Layout.ConsoleShowsLayout | student-distrib/lib.c:20-264 | after a clear and any bytes the screen shows exactly the last 25 rows of their layout, blank-padded, in one attribute, with the cursor at its end |
| Layout.ShowsDetermines | student-distrib/lib.c:20-264 | showing a layout fixes every cell, attribute and the cursor |
| Layout.BlankFromCursor | student-distrib/lib.c:20-264 | everything from the cursor on is blank |
| Layout.RowsOfText | student-distrib/lib.c:237-264 | a short text is one row, a newline or carriage return ends a row below 80 characters, and 80 characters fill one |
| Layout.BlankRowCells | student-distrib/lib.c:36-42 | clearing a row changes its 80 cells and no others |
| Layout.ScrolledCells | student-distrib/lib.c:225-231 | scrolling moves every row up by one and keeps the last |
| Layout.BackspaceShows | student-distrib/lib.c:188-204 | backspace takes the last character off a row that has one |
| Layout.BackspaceUndoesPut | student-distrib/lib.c:188-264 | backspace undoes the printing of a character, over the end of a row too, unless that has scrolled the screen |
| Memory.Memcpy | student-distrib/lib.c:446-483 | for every alignment and length the destination holds the old source, unless it starts inside the source; nothing else changes |
| Memory.Memset | student-distrib/lib.c:363-397 | for every alignment and length exactly the n bytes hold the low byte of the value |
| Memory.CopiedAt | student-distrib/lib.c:446-483 | a copied block byte by byte: the old source inside the destination, unchanged outside |
| Memory.FilledAt | student-distrib/lib.c:363-397 | a filled block byte by byte |
| Memory.ForwardSafeExactly | student-distrib/lib.c:446-483 | a forward copy is right unless it starts above the source and below its end |
| Memory.Memmove | student-distrib/lib.c:492-510 | the destination holds the old source for every overlap and nothing else changes |
| Terminals.TerminalSet.constructor | student-distrib/terminal.c:18-42 | terminals start with their index as base pid, cursors at the origin, and number 1 displayed |
| Terminals.RegionCopied | student-distrib/lib.c:280-285 | the save regions and the live screen are disjoint and inside the mapped pages: copying one over another changes no third |
| Terminals.TerminalSet.SwitchScreen | student-distrib/lib.c:272-287 | the live screen and cursor are saved for one terminal and replaced by those of the other; no other region changes |
| Terminals.TerminalSet.DisplaySwitch | student-distrib/terminal.c:160-175 | a switch changes the displayed terminal and the screen and cursor of none |
| Terminals.TerminalSet.Perform | student-distrib/terminal.c:122-175 | each action changes the displayed terminal's virtual screen only |
| Terminals.Isolation | student-distrib/terminal.c:160-175 | over any interleaving each terminal ends as if its own actions had run on a private screen |
| Terminals.TerminalShowsOwnOutput | student-distrib/lib.c:272-287 | a terminal cleared and then printed on shows the layout of its own bytes, whatever happened on the others |
| Terminals.BackspaceOnDesk | student-distrib/lib.c:188-204 | backspace on the displayed terminal takes the last character off its last row and touches no other terminal |
| Terminals.BackspaceUndoes | student-distrib/lib.c:188-264 | it undoes the printing of a character, unless that has scrolled the screen |
| ScanCodes.ChosenAgrees | student-distrib/keyboard.c:8-84 | the four tables differ only in the printable character a character key stands for |
| ScanCodes.KeyCaps | student-distrib/keyboard.c:8-47 | the characters on the keys, row by row, alone and with shift, and the codes of the special keys |
| ScanCodes.ChosenByRule | student-distrib/keyboard.c:235-242 | a letter is capital exactly when one of shift and caps lock is on; on other keys shift alone selects the upper character and caps lock changes nothing |
| LineEditor.Keyboard.ResetBuffer | student-distrib/keyboard.c:141-146 | all cells but the last are zero |
| LineEditor.Keyboard.TerminalBufSave | student-distrib/terminal.c:72-77 | the saved line equals the line buffer |
| LineEditor.Keyboard.KeyboardPrint | student-distrib/keyboard.c:212-274 | the effect of one key on screen, buffer, fill, saved line and flag; which character it types is `ChosenByRule`, what it does to the line `KeyAgrees` |
| LineEditor.Keyboard.KeyboardHandler | student-distrib/keyboard.c:168-203 | the effect of one scan code, modifiers toggled and a tab typed as four spaces |
| LineEditor.Keyboard.BeginRead | student-distrib/terminal.c:86-91 | the saved line and the flag are cleared, the line being typed and the screen are kept |
| LineEditor.Keyboard.FinishRead | student-distrib/terminal.c:96-109 | the buffer gets the saved line up to its newline and the count, or what fits and -1 |
| Echo.FreshAgrees | student-distrib/keyboard.c:246-273 | an empty line buffer agrees with any screen that shows what was printed before |
| Echo.PutEcho | student-distrib/lib.c:247-262 | a typed character extends the echoed line; the line start moves up one row exactly on a scroll, never off the screen, and the cells before it are kept |
| Echo.DeleteEcho | student-distrib/lib.c:188-204 | backspace shortens the echoed line, and its guard for the top left corner never fires while the line is not empty |
| Echo.EditorRules | student-distrib/keyboard.c:168-203 | the modifiers of the abstract editor by scan code: each press and release turns its own flag over, and Ctrl+L leaves the line alone |
| Echo.EditingRules | student-distrib/keyboard.c:212-274 | the editing keys of the abstract editor by scan code: backspace, Enter, tab as four spaces, and characters by the rules of the keyboard as long as they fit |
| Echo.KeyAgrees | student-distrib/keyboard.c:168-274 | every key but a misdrawing Ctrl+L keeps screen and buffer in agreement and does to the line what the abstract editor does |
| Echo.RedrawExact | student-distrib/keyboard.c:217-221 | Ctrl+L leaves the line echoed if and only if the last cell holds no stale newline or the line is only spaces, whatever was on the screen |
| Echo.LastCell | student-distrib/keyboard.c:141-146 | the last cell gets a newline exactly by Enter on a full line, and no key takes it out |
| Echo.EchoRun | student-distrib/keyboard.c:246-273 | over any run of keys the cells before the cursor spell the line buffer, at most 127 long, and the rest is blank |
| Echo.EchoRunExact | student-distrib/keyboard.c:212-274 | screen and buffer agree after every key of a run if and only if no key of it is a misdrawing Ctrl+L |
| Echo.BufferRun | student-distrib/keyboard.c:168-274 | over any run of keys, misdrawing ones too, the buffer holds the line of an editor of a bare line |
| Echo.RedrawAfterRun | student-distrib/keyboard.c:141-221 | after any run on a fresh buffer Ctrl+L shows the line in the right place if and only if Enter was never pressed on a full line or the line is only spaces |
| Echo.FullLineSpoilsRedraw | student-distrib/keyboard.c:141-221 | from a fresh editor 127 letters, Enter, a letter and Ctrl+L leave the letter where the line buffer does not say it is |
| Echo.LineDelivered | student-distrib/terminal.c:86-110 | after any run of keys, whatever is on the screen, Enter delivers the edited line with its newline and its length to a long enough reader, and -1 to a shorter one |
| BlinkList.BlinkDriver.Malloc | fish/fish.c:160-170 | the first slot with location 0, or none when every slot is in use |
| BlinkList.BlinkDriver.Add | fish/blink.S:105-184 | one armed node in front and its character drawn, or failure and no change exactly for an invalid location or a full pool |
| BlinkList.InsertKeepsListExactly | fish/blink.S:131-162 | insertion leaves a pool whose used slots are exactly the listed ones if and only if the location is not 0 |
| BlinkList.InsertAfterZeroLoops | fish/blink.S:141-162 | after location 0 the next insertion takes the same slot and links it to itself |
| BlinkList.FullList | fish/fish.c:160-170 | the list is as long as the pool exactly when no slot is free |
| BlinkList.BlinkDriver.FindHelper | fish/blink.S:351-379 | the walk ends at the first node with that location, or at the end of the list when there is none |
| BlinkList.BlinkDriver.Find | fish/blink.S:302-349 | a copy of the first node at a location, or failure exactly when there is none |
| BlinkList.BlinkDriver.FindLink | fish/blink.S:206-212 | the predecessor walk terminates at the link that leads to the node |
| BlinkList.UnlinkKeepsList | fish/blink.S:214-222 | unlinking and clearing a slot leaves a well-formed list of the other nodes in their order |
| BlinkList.BlinkDriver.Remove | fish/blink.S:187-237 | exactly the first node with that location is gone, or failure and no change when there is none |
| BlinkLaws.AddExact | fish/blink.S:131-162 | the new node is in front, on, at the start of its on phase and found by its location; the others are kept and its character is drawn |
| BlinkLaws.RemoveExact | fish/blink.S:206-222 | the first node at the location goes, at the head or anywhere behind it, and nothing else changes |
| BlinkLaws.RemoveUndoesAdd | fish/blink.S:105-237 | remove undoes the last add at its location |
| BlinkLaws.RemovedAt | fish/blink.S:187-237 | of the nodes at the location the first is gone, and none when there was none |
| BlinkLaws.SyncExact | fish/blink.S:267-300 | the first target keeps its place, location and characters and takes lengths, countdown and status of the first source; all other nodes and cells are kept |
| BlinkLaws.SyncNone | fish/blink.S:253-266 | a sync fails and changes nothing when one of the two is not listed |
| BlinkLaws.OnlyBlinkersDraw | fish/blink.S:49-300 | attributes and cells without a node are left alone by every tick and command |
| BlinkList.BlinkDriver.Sync | fish/blink.S:240-300 | the first target node takes over the timing of the first source node and its off character is drawn |
| BlinkList.BlinkDriver.RtcTasklet | fish/blink.S:49-99 | one tick of every listed node, in order, and what it draws |
| BlinkTiming.Handle | fish/blink.S:101-103 | each of the four commands and each tick does to list, pool and video memory what its abstract step does |
| BlinkTiming.HandleAll | fish/blink.S:49-300 | any run of commands with valid locations and of ticks keeps the list acyclic and its slots exactly the used ones, and is the abstract run |
| BlinkTiming.BlinkClosedForm | fish/blink.S:64-86 | for all sixteen-bit lengths, n ticks after arming a node is on exactly when n mod period is below the length of its on phase |
| BlinkTiming.AtRun | fish/blink.S:49-300 | over any run not touching a location its nodes only count the timer ticks |
| BlinkTiming.BlinkerLife | fish/blink.S:49-185 | a node added where there is no other and then left alone is in its phase after n ticks, and the matching character is in video memory |
| BlinkTiming.BlinkerPlain | fish/blink.S:49-185 | for lengths from 1 to 32767 it is on exactly when n mod (on + off) is below on, and the character in video memory says so |
| BlinkTiming.SyncLasts | fish/blink.S:267-275 | after a sync source and target have equal status and countdown for as long as neither is touched |
| Frames.AddRow | fish/fish.c:99-130 | one row consumes one line of each file and requests one blinker per column where either has a character |
| Frames.AddFrames | fish/fish.c:79-148 | for any two files it ends, with the requests that `RequestsExact` and `RequestsSpelled` describe |
| Frames.RowExact | fish/fish.c:122-127 | a blinker is requested for a column exactly when one of the two characters is not a space, with the two characters and the location |
| Frames.RequestsExact | fish/fish.c:79-148 | for any two files exactly one request for every row and column in which either shows something, in row-major order |
| Frames.RequestsSpelled | fish/fish.c:122-127 | the on character is that of the first file, the off character that of the second, the location row * 80 + col + 40 in sixteen bits, both lengths 15 |
| Frames.LineAtIs | fish/fish.c:99-137 | the rows are the lines of the files, empty behind the last |
| Frames.RequestsOrdered | fish/fish.c:125-125 | for lines of at most 80 characters and locations within the sixteen-bit field the locations are increasing, so distinct, and none is zero |
| Frames.ZeroRequestExact | fish/fish.c:122-127 | location 0 is requested if and only if something shows in a cell with row * 80 + col + 40 divisible by 65536 |
| Frames.DistinctExact | fish/fish.c:122-127 | the locations are distinct if and only if no two showing cells agree in the low sixteen bits of their numbers |
| Frames.RequestAtZero | fish/fish.c:122-127 | a letter in row 818, column 56 requests location 0, which the driver accepts |
| Frames.AnimationShown | fish/fish.c:36-44 | every cell in which a picture shows something has the character of the first file for fifteen ticks, then that of the second for fifteen, and so on |
| FileSystem.FileSys.ReadDentryByName | student-distrib/filesys.c:175-211 | the first entry of that name, or failure exactly when there is none; names with a byte above 127 never match |
| FileSystem.FileSys.ReadDentryByIndex | student-distrib/filesys.c:221-239 | the entry at an index, or failure exactly beyond the last |
| FileSystem.FileSys.FileOpen | student-distrib/filesys.c:13-32 | the found entry becomes the current one, which a failed open keeps |
| FileSystem.FileSys.ReadData | student-distrib/filesys.c:251-274 | the buffer starts with the block-resolved bytes from the offset, at most up to and including offset len, and is otherwise kept; -1 and no change for an inode number above the number of inodes |
| FileSystem.ReadableIsLaid | student-distrib/filesys.c:259-270 | what reads draw from is the listed blocks laid end to end, up to the byte behind the last |
| FileSystem.ReadBytes | student-distrib/filesys.c:259-270 | how many bytes a read returns, and each of them |
| FileSystem.NameRoundTrip | student-distrib/filesys.c:175-193 | a name is read back from the field it was put in |
| FileSystem.NamedExactly | student-distrib/filesys.c:182-193 | an entry answers to exactly the name it carries, if that is seven-bit, and to no other |
| FileSystem.OpenFile.FileRead | student-distrib/filesys.c:43-57 | a read from the position, which advances by the bytes returned; for a refused inode 0, and the position moves back by one |
| FileSystem.OpenFile.DirRead | student-distrib/filesys.c:113-137 | the name of the next entry and its length, or 0 and no change after the last |
| FileSystem.ReadsAdditive | student-distrib/filesys.c:43-57 | reads of any sizes, put together, are one read of the total size |
| FileSystem.ShortIsLast | student-distrib/filesys.c:251-274 | once a read comes up short every later one returns nothing |
| FileSystem.ReadWithinFile | student-distrib/filesys.c:260-263 | a read returns the file's own bytes if and only if it stops before the end or starts beyond it |
| FileSystem.EnumerationAgreesWithLookup | student-distrib/filesys.c:113-211 | looking up an enumerated name finds the entry it came from if and only if the name is seven-bit and not used before |
| FileSystem.ListingComplete | student-distrib/filesys.c:113-137 | a client that reads until 0 sees every name once, in order, if and only if no name is empty |
| Processes.ProcessTable.AssignPid | student-distrib/syscall.c:234-248 | the lowest free pid is taken and recorded for the displayed terminal, or nothing changes |
| Processes.ProcessTable.UnassignPid | student-distrib/syscall.c:256-268 | a used pid is freed and its parent recorded twice; an unused one changes nothing |
| Processes.ProcessTable.AllocatePcb | student-distrib/syscall.c:308-352 | standard streams, parent and pid of the new process; its other descriptors are as they were |
| Processes.ProcessTable.CheckProgram | student-distrib/syscall.c:411-429 | the descriptor fields used and the verdict, from the lookup and the first four bytes, for any contents of the uninitialised four |
| Processes.ProcessTable.ParseCommand | student-distrib/syscall.c:361-429 | the same for a command line, and the padded argument in the buffer of the new process |
| Processes.AcceptedExactly | student-distrib/syscall.c:411-429 | a program is found if and only if the first word names an entry whose file starts with 7F 45 4C 46; a file too short to fill the four bytes needs the rest to be there by chance |
| Processes.ProcessTable.Execute | student-distrib/syscall.c:130-226 | the whole table after an execute of a command line, which succeeds exactly when a pid is free and a program is found |
| Processes.ProcessTable.Halt | student-distrib/syscall.c:63-121 | the whole table after halting a process or a base shell |
| Processes.ProcessTable.SwitchTask | student-distrib/scheduling.c:20-47 | the highest terminal without a shell gets one |
| Processes.ProcessTable.SetActiveFlag | student-distrib/syscall.c:596-615 | the flag of the running process changes, or failure and no change when it already has that value |
| Processes.ProcessTable.Activate | student-distrib/syscall.c:574-585 | once a free descriptor is found the open succeeds, because its own lookup repeats one that succeeded |
| Processes.ProcessTable.Open | student-distrib/syscall.c:511-586 | the result and the new descriptors, for the entry the name resolves to |
| Processes.ProcessTable.Read | student-distrib/syscall.c:439-458 | the result, the zeroed and filled buffer and the new position, for descriptors on files and directories and for those that are refused |
| Processes.ProcessTable.Close | student-distrib/syscall.c:628-650 | the result and the new descriptors of the running process |
| ProcessRuns.FreePidIsHigh | student-distrib/syscall.c:234-248 | with three base shells alive no user process gets one of their pids |
| ProcessRuns.ExecuteHolds | student-distrib/syscall.c:130-161 | a successful execute pushes the lowest free pid on the displayed terminal's chain; a failed one restores the pid table and both records of the current pids |
| ProcessRuns.HaltHolds | student-distrib/syscall.c:63-97 | halt pops the chain; halting a base shell gives it the same pid on an unchanged table |
| ProcessRuns.TableCorners | student-distrib/syscall.c:63-268 | an unused pid is not given back, a terminal without a process runs pid 0, and a halted program's block carries its parent's pid |
| ProcessRuns.ExecuteFds | student-distrib/syscall.c:308-352 | every process starts with its standard streams and nothing else open |
| ProcessRuns.FailedExecuteClosesCaller | student-distrib/syscall.c:152-161 | a failed execute closes every descriptor of its caller |
| Descriptors.ExecuteKeepsCaller | student-distrib/syscall.c:130-226 | the caller's descriptors are as before if and only if the execute succeeds, finds no free pid, or the caller had none active |
| Descriptors.HaltKeepsParent | student-distrib/syscall.c:63-121 | the descriptors of the process returned to are as before if and only if none was active |
| Descriptors.DescriptorLost | student-distrib/syscall.c:63-161 | any process that opens a file and starts a program loses that descriptor: at once if the program is not there, else when it halts |
| Descriptors.BootedShellLoses | student-distrib/scheduling.c:29-46 | the shell on the first terminal after boot can be that process |
| ProcessRuns.HaltFds | student-distrib/syscall.c:74-81 | nothing stays open in the process that ends, nor in the one it returns to |
| ProcessRuns.OpenAllocates | student-distrib/syscall.c:545-585 | open succeeds exactly for an openable name with fewer than six active, takes the lowest inactive descriptor and changes no other, and a failure changes nothing |
| Descriptors.OpenedTable | student-distrib/syscall.c:563-579 | an entry of type 0 is opened with the clock's table, type 1 with the directory's, type 2 with the file's, on its inode and at its start |
| Descriptors.OpenThenRead | student-distrib/syscall.c:439-585 | a process reads from a file it has opened its first bytes, and from a directory the name of its first entry; only that position moves |
| Descriptors.ReadTwice | student-distrib/syscall.c:439-458 | two reads through a descriptor are one |
| Descriptors.ProgramDescriptor | student-distrib/syscall.c:413-419 | the descriptor that a new process's program was looked at with is on its inode, behind the bytes read |
| ProcessRuns.CloseFrees | student-distrib/syscall.c:628-650 | close succeeds exactly on an active descriptor, frees and resets it and changes no other |
| ProcessRuns.BootHolds | student-distrib/scheduling.c:29-46 | three ticks start the three base shells, pid 0 on the last terminal and 2 on the first, and the fourth changes nothing |
| ProcessRuns.RunHolds | student-distrib/syscall.c:63-650 | every run of execute, halt, terminal switch, open and close keeps three disjoint parent chains whose union is the used pids, each top recorded twice, and the descriptor invariant |
| ProcessRuns.EveryRunHolds | student-distrib/scheduling.c:29-46 | the same from zeroed memory through boot and any user run |
| Arguments.Tokenize | syscalls/ece391emulate.c:67-101 | the argument pointers lead to exactly the words of the command, fewer than 1024 of them; longer commands fail |
| Arguments.GetArgs | syscalls/ece391emulate.c:130-157 | success exactly when the joined arguments and their terminator fit, and then the buffer holds them |
| Arguments.ArgvOfSpread | syscalls/ece391emulate.c:80-99 | words separated by any numbers of spaces, possibly ended by spaces and a newline, split into exactly those words |
| Arguments.ArgvOfCommand | syscalls/ece391emulate.c:76-100 | a newline right behind a word separates like a space, one behind a gap ends the command, whatever follows |
| Arguments.JoinIsSpread | syscalls/ece391emulate.c:137-152 | the joined arguments, with a space in front, are the arguments each behind one space |
| Arguments.RejoinedArgv | syscalls/ece391emulate.c:76-157 | joining the arguments of any command and splitting again gives the same arguments |
| Commands.ParseWords | student-distrib/syscall.c:361-409 | the padded first word of the line in one buffer and the padded second word in the other |
| Commands.GetArgs | student-distrib/syscall.c:659-682 | success exactly for a non-empty argument that fits with its terminator, and then the padded argument |
| Commands.PaddedReadsBack | student-distrib/syscall.c:659-682 | what is left in the buffer reads back as the argument, and the rest is zero |
| Commands.OneArgumentOnly | student-distrib/syscall.c:394-405 | the second word is handed on whatever follows it, and what follows is lost |
| Commands.ArgumentOfSpread | student-distrib/syscall.c:361-405 | of any words with any gaps and ending behind the name the first one is handed on, or nothing when there is none |
| Commands.WholeArgumentExactly | student-distrib/syscall.c:394-405 | the argument handed on is the joined arguments of the line if and only if there is at most one |
| Numbers.Strrev | student-distrib/lib.c:331-344 | the string is reversed in place and nothing around it changes |
| Numbers.Itoa | student-distrib/lib.c:295-325 | at most 32 digits and a NUL that read back as the value, without leading zeros |
| Numbers.LookupTable | student-distrib/lib.c:295-300 | the digits are 0 to 9 and the capital letters in order |
| Numbers.NumeralUnique | student-distrib/lib.c:295-325 | a value has one numeral without leading zeros, so the text is determined |
| Numbers.AlternateHex | student-distrib/lib.c:103-112 | exactly eight hexadecimal digits that read back as the value |

## Left out

- Hardware and privileged state: interrupt and descriptor tables, the interrupt and timer chips, cursor ports, stack switching, page-table and TLB changes. `update_cursor` and `map_page_pid` are no-ops on the modelled state.
- Busy waiting: `terminal_read` is split at its wait loop, and `FinishRead` runs once the flag is set. The real-time clock's `read` and `set_frequency` are not modelled.
- The commented-out context switch in `switch_task`; the three boot executes are taken to finish before any user call, and "shell" to be a valid program in the runs of `ProcessRuns.dfy`.
- Grep.FileStream.Read: a failing read and the -1 of a bad or closed descriptor are not modelled.
- Grep.DoOneFile: a failing `read` or `close` is not modelled, and neither is a reader that returns less than was asked for before the end. The output is described for files in which a NUL only ends a line or the file, so not for program images: a NUL inside an unfinished tail makes `strcpy` stop early, and older bytes of the buffer show up behind it.
- Grep.ScanBuffer: the equation for the output carries the same condition on NULs.
- LineEditor.Keyboard.KeyboardPrint: Alt with F1 to F3 is excluded, because the line buffer then follows the terminal that was displayed before; isolation of partly typed lines does not hold and is not claimed.
- Processes.ProcessTable.Execute: command lines that do not fit the buffers of `parse_command` are excluded as for `Commands.ParseWords`. Registers, stacks and the loading of the program are left out; the argument buffer is a result and not a field of the process.
- Processes.ProcessTable.Open: names of 32 and 33 characters are excluded, because the source then scans past its copy of the name. `write` on descriptors, with its missing checks, is left out.
- Processes.ProcessTable.Read: reads from the keyboard and the clock, from descriptor 8, and of a directory into fewer than 32 bytes are excluded.
- Commands.ParseWords: leading spaces, names of 32 characters and more and arguments of 95 and more are excluded; the source then writes its terminator in the wrong place or past its buffers.
- FileSystem.FileSys.ReadData: the inode number that equals the number of inodes is excluded; the source admits it and treats what follows as an inode. Offsets are below 2^31, so that the distance to the end does not change its sign.
- Memory.Memmove: the direction flag that the backward copy leaves set is not part of the state.
- Frames.AddFrames: both files open; the closing of exhausted files, which repeats, is left out.
- BlinkTiming.BlinkerLife: a sync of the node itself is excluded from the claim about the screen, because a sync always draws the off character.
- The host calls in `ece391emulate.c`, the other demo programs, the kernel's own tests, and `printf` beyond its `%#x` conversion.
