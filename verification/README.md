# Verified model of the teaching-kernel assignments

This project models five parts of the repository in Dafny and proves what they are
meant to guarantee: the message queue with its fork and exit handlers, the debugger, the
file layer over the flat file system, the tournament umpire, and the formatter behind the
user library's `printf`.

The code works in place, so each part has two levels. Classes keep the fields, arrays and
linked nodes of the C structures, and their methods run the same loops in the same order.
Their postconditions equate the new state with a value (`QueueModel.Queue`,
`KernelModel.World`, `BreakpointModel.Table`, `FileModel.View`, ...), and what the system
promises is proved about these values, for single calls and for whole runs.

- **Message queue.** `QueueModel` says what each call does to the member list, the block
  table and the shared buffer; `MsgQueue` is the structure in arrays. `QueueMail` is the
  reference design, in which every member has its own inbox and its own set of blocked
  senders; the shared buffer refines it. `QueueLaws` says what each call answers and changes,
  and `QueueRuns` holds the run-level consequences.
  `QueueSteps` runs whole sequences of operations on the arrays. `KernelModel` and `Kernel`
  add processes, descriptor tables, fork, close and exit. There an allocated object is an
  entry of a map and freeing removes it: a use of a freed object would not be well-formed,
  and the code that frees one asserts that it is still there. The file objects of the file
  layer are kept with address and count, as descriptors on them cross forks too.
- **Debugger.** `BreakpointModel` and `Breakpoints` keep the breakpoint list and the
  patched code bytes; `DebugSession` runs a debuggee on patched code next to its debugger;
  `DebugKernel` has the handler loops over process contexts, and `DebugSteps` shows that
  these entry points are the steps of a session, one by one and over whole sessions.
- **Files.** `FlatFs` and `SuperBlock` are the inode table over one storage array, and
  `InodeCells` is the inode record as bytes; `FileModel` is the reference view, a map from
  names to byte strings with shared descriptors; `FileLayer` is the descriptor table of
  reference-counted objects that implements it. `FileLaws` says what each call gives its
  caller, `FileRuns` what a process can rely on over several calls, and `FileSteps` runs whole
  sequences of operations on the objects.
- **Tournament** and **Printf** are one file each; `Common` has what several parts share.

Where the code falls short of a property, the property is stated with its exact condition:

- A unicast is also refused when the member that sits right behind the recipient blocks
  the sender, because the scan of the block row is seven cells wide and a row has four
  (`QueueRuns.UnicastExact`, `QueueRuns.UnicastRefusedUnblocked`).
- An open that passes its checks and finds every descriptor from 3 on taken answers -ENOMEM
  and leaves the file object it allocated; no exit frees it (`FileModel.OpenLoses`,
  `FileRuns.FourteenthOpen`). A process's exit frees everything if and only if no open of its
  run was of this kind (`FileRuns.RunThenExit`).
- sendfile reads only the low word of its explicit offset, as a signed number: from 2^31 on
  it can copy bytes from another position, and before 0 it reads in front of the file and
  can overrun its page (`FileRuns.SendAtOffset`, `FileModel.PageHoldsExact`).
- A write that does not fit answers -1 and the offset moves by that answer; at offset 0 it
  wraps around (`FileRuns.WriteOffsetExact`, `FileModel.WriteKeeps`).
- The loop that copies a file's name does not look at the length of its field. A name of
  more than 268 bytes is cut there, and one of more than 272 moves the file off its page
  (`InodeCells.NameKept`, `InodeCells.PageKept`); the file layer asks for names shorter than
  the field's 256 bytes where a file is created.
- Duplicating a descriptor onto itself frees the object first when it is the only one
  (`FileModel.SafeDupExact`).
- A fork leaves the reference counts right only if the parent has no file open
  (`FileRuns.ForkCountsExact`). A descriptor then comes to refer to freed memory if and only
  if a process closes, or exits with, a file-layer object that another one still holds
  (`KernelModel.DanglingExact`, `KernelModel.ForkedFileDangles`), and it refers to a strange
  queue if and only if its page becomes the file object of that queue
  (`KernelModel.ReusedPage`). Kernel runs go on after such a step until a freed object would
  be looked at or its page handed out again.
- A create without a page for its file object frees the queue and not its buffer: every buffer
  belongs to a queue if and only if no create of the run was of this kind
  (`KernelModel.BuffersOwned`). A create without a page for the buffer makes a queue without
  one (`KernelModel.StepBuffered`).
- Setting and removing a breakpoint restores the byte only where it was `push rbp`
  (`BreakpointModel.SetRemoveRestores`); a breakpoint at the end address has an empty
  backtrace (`DebugSession.BacktraceComposes`).
- An odd round whose walk-over id is not active runs past the player list
  (`Tournament.RoundSafe`), and the stub that always answers 1 lets a tournament get there
  (`Tournament.StubLeavesTheList`). The comment in the source reads the id as a position among the
  active players; the code compares it with player ids, and so does the model.
- INT_MIN and LONG_MIN are not printed as numbers (`Printf.IntRoundTrip`,
  `Printf.LongRoundTrip`, under two's complement negation), and `%u` prints a signed number
  (`Printf.UnsignedExact`).

`dafny verify dfyconfig.toml` verifies the whole project. Proofs use `hide` statements to
keep definitions that a proof does not need out of the solver's way.

## Model
| member | source | states |
|---|---|---|
| QueueModel.PerformGood | Assignment2/msg_queue.c:96-326 | every queue operation keeps members distinct, block rows free of repetitions, owners and strangers, rows behind the last member free, and every buffered message addressed to a current member other than its sender |
| QueueModel.RowHasRoom | Assignment2/msg_queue.c:262-274 | by pigeonhole a member that blocks a new sender finds a free cell among the first three of its row |
| QueueModel.BlockGood | Assignment2/msg_queue.c:244-275 | block fails exactly for strangers and for oneself: the last return is never reached |
| QueueModel.ClosedMembers | Assignment2/msg_queue.c:284-292 | after a close exactly the other members are left, without repetition |
| QueueModel.ClosedFrom | Assignment2/msg_queue.c:286-303 | where each cell of the block table comes from when rows are re-indexed |
| MsgQueueObject.MsgQueue.constructor | Assignment2/msg_queue.c:63-78 | a new queue has its creator as only member, no messages and nobody blocked |
| MsgQueueObject.MsgQueue.MsgQueueSend | Assignment2/msg_queue.c:129-182 | on arrays: answer and new queue value of a send, broadcast or unicast |
| MsgQueueObject.MsgQueue.Broadcast | Assignment2/msg_queue.c:149-164 | the broadcast loop appends one re-addressed copy per eligible member, in slot order, and counts them |
| MsgQueueObject.MsgQueue.MsgQueueRcv | Assignment2/msg_queue.c:96-126 | on arrays: the oldest message for the caller is handed out and the gap is closed |
| MsgQueueObject.MsgQueue.CloseGap | Assignment2/msg_queue.c:116-121 | shifting removes exactly one message and keeps the order |
| MsgQueueObject.MsgQueue.GetMsgCount | Assignment2/msg_queue.c:221-242 | the length of the caller's inbox, or -EINVAL for a stranger |
| MsgQueueObject.MsgQueue.MsgQueueBlock | Assignment2/msg_queue.c:244-275 | on arrays: answer and new block table |
| MsgQueueObject.MsgQueue.AddMember | Assignment2/msg_queue.c:191-192 | a forked child takes the next slot |
| MsgQueueObject.MsgQueue.MsgQueueClose | Assignment2/msg_queue.c:277-326 | on arrays: the leaver's slot, row, block entries and messages are gone, and the last leaver is recognised |
| MsgQueueObject.MsgQueue.Unlist | Assignment2/msg_queue.c:286-303 | row and member shifting with the erasure of the leaver computes the closed table |
| MsgQueueObject.MsgQueue.Compact | Assignment2/msg_queue.c:306-313 | in-place compaction keeps all other messages in order |
| QueueMail.BroadcastRefines | Assignment2/msg_queue.c:149-164 | a broadcast appends to each eligible mailbox and answers how many there are |
| QueueMail.UnicastRefines | Assignment2/msg_queue.c:165-180 | a unicast appends to the named mailbox or changes nothing |
| QueueMail.ReceiveRefines | Assignment2/msg_queue.c:112-126 | a receive pops the caller's mailbox and no other |
| QueueMail.BlockRefines | Assignment2/msg_queue.c:262-274 | a block adds one sender to one member's block set |
| QueueMail.JoinRefines | Assignment2/msg_queue.c:189-194 | a child gets an empty mailbox that blocks nobody |
| QueueMail.CloseRefines | Assignment2/msg_queue.c:284-313 | a close deletes one mailbox and the leaver from all block sets; other inboxes and the blocking among those who stay are unchanged |
| QueueMail.PerformRefines | Assignment2/msg_queue.c:96-326 | every call on the shared buffer answers and acts like the separate mailboxes |
| QueueRuns.RunRefines | Assignment2/msg_queue.c:96-326 | over every run the shared buffer gives the answers of the mailboxes and ends where they end |
| QueueRuns.Fifo | Assignment2/msg_queue.c:112-180 | while a process stays a member, what it received followed by its inbox is what was delivered to it, in order |
| QueueRuns.BlockedNotDelivered | Assignment2/msg_queue.c:149-180 | once blocked, and until one of the two leaves, a sender gets nothing stored: what the blocker receives from it and what stays in the buffer is what was there before |
| QueueRuns.JoinStartsClean | Assignment2/msg_queue.c:189-194 | a joining process has an empty inbox, blocks nobody and is blocked by nobody, whoever had its pid before |
| QueueRuns.BroadcastExact | Assignment2/msg_queue.c:149-164 | the answer is members minus the sender minus those who block it |
| QueueRuns.UnicastExact | Assignment2/msg_queue.c:165-180 | a unicast is stored if and only if neither the recipient nor the member in the next slot blocks the sender (for the fourth slot: nor the memory behind the table) |
| QueueRuns.UnicastRefusedUnblocked | Assignment2/msg_queue.c:168-173 | a reachable state in which a sender that its recipient does not block is refused |
| QueueRuns.CountsAddUp | Assignment2/msg_queue.c:236-241 | the members' pending counts add up to the number of buffered messages |
| QueueLaws.ReceiveExact | Assignment2/msg_queue.c:96-126 | the oldest message for the caller is handed out and leaves its inbox, 0 for an empty inbox, -EINVAL for a stranger; nothing else changes |
| QueueLaws.BlockExact | Assignment2/msg_queue.c:244-275 | the caller then blocks exactly one more process, the named one, unless either is a stranger or they are the same |
| QueueLaws.BlockRefuses | Assignment2/msg_queue.c:165-180 | what a blocked member sends to the blocker is refused |
| QueueLaws.BroadcastPuts | Assignment2/msg_queue.c:149-164 | exactly the members that do not block the sender get the message, at the end of their inboxes, and their number is answered |
| QueueLaws.UnicastPuts | Assignment2/msg_queue.c:165-181 | a stored unicast is at the end of the recipient's inbox and in no other, and a refused one changes nothing |
| QueueLaws.SendRefused | Assignment2/msg_queue.c:137-147 | strangers, false senders and sends to oneself get -EINVAL |
| QueueLaws.CountExact | Assignment2/msg_queue.c:221-242 | the answer is the number of messages waiting for the caller |
| QueueLaws.CloseExact | Assignment2/msg_queue.c:284-313 | the caller is out of members, inboxes and block sets; the others keep inboxes and other blocks |
| QueueLaws.CloseOrder | Assignment2/msg_queue.c:287-292 | the other members keep their order |
| QueueLaws.JoinExact | Assignment2/msg_queue.c:189-194 | the child is the last member with an empty inbox and no blocks, and nobody else changes |
| QueueSteps.Execute | Assignment2/msg_queue.c:96-326 | one operation on the arrays is the operation on the value |
| QueueSteps.ExecuteAll | Assignment2/msg_queue.c:96-326 | every run on the arrays gives the answers of the separate mailboxes and ends where they end |
| KernelModel.NextKeeps | Assignment2/msg_queue.c:50-326 | create with every failure of its allocations, fork, close, exit, use and the file layer's open and close keep each queue, its file object, its members and their descriptors in one-to-one correspondence, and buffers unshared |
| KernelModel.CreateKeeps | Assignment2/msg_queue.c:50-93 | a created queue is held by its creator through exactly one descriptor, and a create that fails changes no queue |
| KernelModel.CreateOpens | Assignment2/msg_queue.c:56-92 | the answered descriptor is the lowest free one from 3 on and is open on the new queue; -ENOMEM exactly for want of a descriptor or a page; no other slot changes |
| KernelModel.StepOwned | Assignment2/msg_queue.c:80-84 | a step leaves a buffer that belongs to no queue if and only if it is a create that got a buffer and no page for its file object |
| KernelModel.BuffersOwned | Assignment2/msg_queue.c:80-84 | after a run every buffer belongs to a queue if and only if no create of the run was of this kind |
| KernelModel.StepBuffered | Assignment2/msg_queue.c:73 | a step makes a queue without a buffer if and only if it is a create that succeeds without a page for the buffer |
| KernelModel.OpenFileKeeps | Assignment2/file.c:256-272 | opening in the file layer changes no queue and no queue's descriptor |
| KernelModel.CloseFileKeeps | Assignment2/entry.c:149-158 | so does closing, and a queue's descriptor is not closed this way |
| KernelModel.OpenFileOpens | Assignment2/file.c:256-272 | a new file-layer object is named by the lowest free descriptor from 3 on, if there is one, and no other slot changes |
| KernelModel.CloseFileExact | Assignment2/entry.c:149-158 | a close in the file layer empties that descriptor only and frees its object |
| KernelModel.StepDangles | Assignment2/file.c:172-185 | a step makes a file-layer descriptor refer to freed memory if and only if it drops an object that another process still has in its table |
| KernelModel.DanglingExact | Assignment2/entry.c:21 | after a run no file-layer descriptor refers to freed memory if and only if no step of the run was of this kind |
| KernelModel.ReusedPage | Assignment2/msg_queue.c:80-90 | a create keeps file-layer descriptors apart from queues if and only if none still names the page of its file object |
| KernelModel.ForkedFileDangles | Assignment2/entry.c:15-30 | open, fork and a close by the child leave the parent with a freed page, and a queue of the child on that page would be the parent's too |
| KernelModel.ForkKeeps | Assignment2/entry.c:15-30 | a fork makes the child a member of exactly its parent's queues |
| KernelModel.ForkCopies | Assignment2/entry.c:21 | each descriptor of the child is open on what the same one of its parent is open on, and no other table changes |
| KernelModel.LeaveKeeps | Assignment2/msg_queue.c:277-326 | leaving any set of one's queues removes exactly those memberships |
| KernelModel.CloseQueueExact | Assignment2/msg_queue.c:277-326 | closing a queue empties that descriptor only and ends that membership only |
| KernelModel.ExitKeeps | Assignment2/entry.c:45-50 | an exit leaves every other process and queue consistent |
| KernelModel.ExitExact | Assignment2/entry.c:45-50 | an exit takes away one table and its memberships and no others |
| KernelModel.ReachableLifetimes | Assignment2/msg_queue.c:184-207 | in every reachable state a live process holds exactly one descriptor on a queue if and only if it is listed as member, no queue descriptor refers to freed memory, no file-layer descriptor refers to a queue, and none of these refers to freed memory if and only if no step dropped an object that another process held |
| KernelModel.FreedByLastLeaver | Assignment2/msg_queue.c:316-320 | a queue is freed by a step if and only if its only member closes it or exits, and its buffer, if it has one, and its file object are freed in the same step |
| KernelModel.CleanupClosesAll | Assignment2/entry.c:45-46 | after the queue exit handler no descriptor refers to a queue, so the file exit handler meets none |
| KernelModel.KernelRunIsQueueRun | Assignment2/msg_queue.c:184-207 | each queue that outlives a run of the kernel goes through a run of queue operations alone |
| KernelObject.Kernel.CreateMsgQueue | Assignment2/msg_queue.c:50-93 | the descriptor scan, the set-up of the new objects, the three -ENOMEM cases and the buffer that may be missing or left over; the answered descriptor, free before, is open on the queue |
| KernelObject.Kernel.AddChildToMsgQueue | Assignment2/msg_queue.c:184-195 | the fork loop adds the child once to the queue behind each of its descriptors |
| KernelObject.Kernel.DoFork | Assignment2/entry.c:15-30 | fork is the copied descriptor table with the fork handler |
| KernelObject.Kernel.MsgQueueClose | Assignment2/msg_queue.c:277-326 | closing through a descriptor, with the freeing by the last leaver and the error answers |
| KernelObject.Kernel.MsgQueueCleanup | Assignment2/msg_queue.c:197-207 | the exit loop leaves all of the process's queues at once |
| KernelObject.Kernel.FileExit | Assignment2/file.c:109-121 | one reference less per file-layer descriptor, freed at zero; it meets no queue |
| KernelObject.Kernel.DoExit | Assignment2/entry.c:45-50 | exit removes the process, its memberships, the queues it was the last member of and its file-layer objects, and nothing else |
| KernelObject.Kernel.UseQueue | Assignment2/entry.c:178-213 | send, receive, block and count through a descriptor, -EINVAL without a queue behind it |
| KernelObject.Kernel.OpenFile | Assignment2/file.c:256-272 | answers the first free descriptor, which then names the new object, or -ENOMEM exactly when none is free |
| KernelObject.Kernel.CloseFile | Assignment2/entry.c:149-158 | drops a file-layer object or refuses |
| KernelObject.Kernel.ExecuteAll | Assignment2/entry.c:15-60 | a run of the kernel's methods ends in the state the model's run ends in |
| BreakpointModel.ObeyAgrees | Assignment4/debug.c:165-258 | every command keeps at most eight breakpoints on distinct addresses, the byte 0xCC under an enabled one, 0x55 under a disabled one, and all other bytes original |
| BreakpointModel.RunAgrees | Assignment4/debug.c:165-258 | so does every run of commands, and an empty list means original code |
| BreakpointModel.RemoveAllRestores | Assignment4/debug.c:198-220 | removing every listed breakpoint restores the program exactly |
| BreakpointModel.SetExact | Assignment4/debug.c:165-193 | -1 exactly for a new address with eight listed or no memory; otherwise an enabled breakpoint is on the address and INT3 in the code, also where one was disabled; nothing elsewhere changes |
| BreakpointModel.RemoveExact | Assignment4/debug.c:198-220 | -1 exactly without a breakpoint there; otherwise there is none any more and `push rbp` is in the code |
| BreakpointModel.SwitchExact | Assignment4/debug.c:225-258 | -1 exactly without a breakpoint there; otherwise it is on with INT3 in the code, or off with `push rbp` |
| BreakpointModel.SetRemoveRestores | Assignment4/debug.c:165-220 | set and remove give a byte back if and only if it was 0x55 |
| BreakpointModel.NumbersNotReused | Assignment4/debug.c:184-190 | over every run within the width of the counter a breakpoint with an old number is the old breakpoint |
| BreakpointModel.ShownInOrder | Assignment4/debug.c:263-278 | after such a run numbers increase in the order shown to the user |
| BreakpointList.DebugInfo.SetBreakpointAt | Assignment4/debug.c:165-193 | on linked nodes: re-enable, refuse at eight or without memory, or push a new node and patch the byte; answer 0 means an enabled breakpoint and INT3 at the address |
| BreakpointList.DebugInfo.RemoveBreakpointAt | Assignment4/debug.c:198-220 | on linked nodes: unlink at head or behind a parent, free once, restore the byte |
| BreakpointList.DebugInfo.EnableBreakpointAt | Assignment4/debug.c:225-239 | on linked nodes: mark and patch, or -1 |
| BreakpointList.DebugInfo.DisableBreakpointAt | Assignment4/debug.c:244-258 | on linked nodes: unmark and restore, or -1 |
| BreakpointList.DebugInfo.InfoBreakpoints | Assignment4/debug.c:263-278 | the user's array holds the list reversed and nothing behind it is written |
| BreakpointList.DebugInfo.FreeAll | Assignment4/debug.c:129-136 | the exit loop frees every node; both freeing a node and reading its link ask for a node that is still allocated |
| DebugSession.HitIsPush | Assignment4/debug.c:98-99 | a trap with the handler has the effect of the displaced `push rbp` |
| DebugSession.InstructionIsNative | Assignment4/debug.c:92-121 | an instruction on patched code is an instruction of the program, and it traps exactly at enabled breakpoints |
| DebugSession.Transparent | Assignment4/debug.c:92-258 | over every session the debuggee goes through the states of the undebugged program, list and code agree, and exactly one of the two processes is runnable |
| DebugSession.StartOfSession | Assignment4/debug.c:152-160 | no breakpoints, the debuggee asleep and the debugger running: list and code agree and one of the two runs |
| DebugSession.ResumesWith | Assignment4/debug.c:116-145 | the debugger resumes with CHILD_EXIT after the child's exit or with the address of an enabled breakpoint the child stopped at |
| DebugSession.SetStops | Assignment4/debug.c:184-193 | after a breakpoint was set where the debuggee is, its next instruction stops it and the debugger's wait returns the address |
| DebugSession.OffDoesNotStop | Assignment4/debug.c:198-258 | after it was disabled or removed the `push rbp` is executed and nobody stops |
| DebugSession.ShownRegsAtBreakpoint | Assignment4/debug.c:296-315 | the registers shown are those the debuggee had on reaching the breakpoint |
| DebugSession.RecordedAtHit | Assignment4/debug.c:104-113 | a hit records the breakpoint address, the return address on the stack and the frame chain from rbp |
| DebugSession.FramesAre | Assignment4/debug.c:104-113 | the recorded return addresses lie above the saved frame pointers of the chain, in order, up to the end address |
| DebugSession.BacktraceComposes | Assignment4/debug.c:322-334 | the backtrace handed out is what the hit recorded if and only if the breakpoint is not at the end address |
| DebugKernelObject.DebugKernel.Int3Handler | Assignment4/debug.c:92-121 | registers, stack, process states, return value and backtrace array after a hit, and no change without a debugger |
| DebugKernelObject.DebugKernel.RecordFrames | Assignment4/debug.c:104-113 | the loop records the chain up to the end address, cut at 64 entries, and marks its end |
| DebugKernelObject.DebugKernel.DebuggerOnFork | Assignment4/debug.c:80-84 | a forked child has no debugger data and waits |
| DebugKernelObject.DebugKernel.DebuggerOnExit | Assignment4/debug.c:127-146 | an exit frees all breakpoint nodes and wakes a debugging parent with CHILD_EXIT |
| DebugKernelObject.DebugKernel.FindChild | Assignment4/debug.c:286-294 | the first live process whose parent is the caller |
| DebugKernelObject.DebugKernel.WaitAndContinue | Assignment4/debug.c:343-363 | debugger waits and its first child runs; otherwise nothing changes |
| DebugKernelObject.DebugKernel.InfoRegisters | Assignment4/debug.c:283-317 | the child's registers with rip and rsp moved back |
| DebugKernelObject.DebugKernel.Backtrace | Assignment4/debug.c:322-334 | copies the recorded addresses up to the end mark and returns their number |
| DebugKernelObject.DebugKernel.BecomeDebugger | Assignment4/debug.c:152-160 | debugger data without breakpoints, or -1 without memory |
| DebugSteps.Start | Assignment4/debug.c:80-84 | becoming a debugger and forking is a start of a session |
| DebugSteps.Trap | Assignment4/debug.c:92-121 | an INT3 under rip and its handler, over contexts and arrays, are one step of a session's debuggee |
| DebugSteps.Execute | Assignment4/debug.c:165-258 | the four breakpoint operations on linked nodes are a session's debugger commands |
| DebugSteps.Continue | Assignment4/debug.c:343-363 | the debugger's wait is the session's hand-over to the debuggee, or answers -1 when the debuggee is gone |
| DebugSteps.ExitChild | Assignment4/debug.c:127-146 | the exit handler with the slot becoming unused is the session's last step |
| DebugSteps.Step | Assignment4/debug.c:92-363 | every event of a session, on contexts, list nodes and code bytes |
| DebugSteps.RunAll | Assignment4/debug.c:92-363 | a whole session on contexts, list nodes and code bytes ends with the debuggee's registers and memory of the undebugged program, list and code in agreement, and one runnable process |
| FileModel.PerformKeeps | Assignment2/file.c:126-316 | open, read, write, seek, dup2, close and sendfile keep reference counts equal to descriptor counts for every object a descriptor is open on, and offsets inside the files |
| FileModel.PerformLoses | Assignment2/file.c:256-270 | an open that finds no free descriptor loses its own object, and nothing else loses one or frees a lost one |
| FileModel.WriteKeeps | Assignment2/file.c:167-168 | a write keeps the invariant if and only if it fits or starts behind offset 0 |
| FileModel.SafeDupExact | Assignment2/file.c:284-292 | the duplicated object survives the close of the target if and only if it is another descriptor or not the only one |
| FileModel.DupKeeps | Assignment2/file.c:278-293 | dup2 keeps the counts exact and answers the new descriptor |
| FileModel.CloseKeeps | Assignment2/entry.c:149-158 | close keeps the counts exact and frees with the last descriptor |
| FileLaws.CloseExact | Assignment2/file.c:172-185 | closing empties that slot only, and the object is freed if and only if no other slot holds it, else counts one less |
| FileLaws.AfterClose | Assignment2/entry.c:149-158 | the closed descriptor is refused read, write and seek, and a duplicate keeps name, mode and offset |
| FileLaws.ClosedRefuses | Assignment2/entry.c:95-165 | a descriptor that is not open is refused everything without any effect |
| FileLaws.OpenExact | Assignment2/file.c:256-272 | a successful open answers the lowest free descriptor from 3 on, open at offset 0 with the rights asked for, and changes no other slot or object |
| FileLaws.OpenAnswers | Assignment2/file.c:238-270 | exactly when open answers -EINVAL and -ENOMEM, and which file it creates |
| FileLaws.RightsExact | Assignment2/file.c:134-166 | -EACCES and nothing handed out or taken exactly without the right |
| FileLaws.ReadExact | Assignment2/file.c:143-145 | the bytes from the offset on, as many as asked for or left, and the offset behind them |
| FileLaws.WriteExact | Assignment2/file.c:167-169 | the bytes at the offset, all others kept, the size and the offset; or no byte changed, -1, and the offset moved by it |
| FileLaws.SeekExact | Assignment2/file.c:187-225 | the place each origin leads to, and exactly when a seek is refused |
| FileLaws.SeekTells | Assignment2/file.c:205-224 | a seek by 0 tells the offset or the size, behind which nothing is read |
| FileLaws.SeeksAddUp | Assignment2/file.c:205-209 | two relative seeks are one by the sum |
| FileLaws.DupExact | Assignment2/file.c:278-293 | dup2 changes the target's slot only, to the source's object, and frees exactly what no slot holds any more |
| FileLaws.DupRefused | Assignment2/file.c:284-286 | nothing is duplicated from a descriptor that is not open |
| FileLaws.SendRefused | Assignment2/file.c:300-303 | sendfile is refused without any effect for descriptors that are not open or lack the right |
| FileModel.OpenKeeps | Assignment2/file.c:227-273 | open keeps the counts exact, with or without a new file, also when no descriptor is free |
| FileModel.OpenLoses | Assignment2/file.c:256-270 | open leaves an allocated object without a descriptor if and only if it passes the checks of flags, lookup and creation and every descriptor from 3 on is taken |
| FileModel.SendKeeps | Assignment2/file.c:295-316 | sendfile keeps the invariant if and only if what it read fits behind the output's offset or finds an offset that can step back |
| FileModel.PageHoldsExact | Assignment2/file.c:304-311 | sendfile reads at most one page if and only if its count is at most a page, or the file ends at most a page behind the signed low word of the offset |
| FileRuns.BytesUntouched | Assignment2/entry.c:119-134 | in every run a file's bytes change only through a descriptor open on it for writing |
| FileRuns.WriteSeekRead | Assignment2/file.c:126-225 | write, seek back and read give the written bytes, laid over the old file |
| FileRuns.ReadInTwo | Assignment2/file.c:143-145 | two reads give what one longer read gives |
| FileRuns.DupIsAlias | Assignment2/file.c:278-293 | duplicated descriptors share offset and mode: either one does the same |
| FileRuns.WriteOffsetExact | Assignment2/file.c:167-169 | the offset moves by the bytes written if and only if the write fits |
| FileRuns.FullFileExample | Assignment2/file.c:167-169 | a write at the end of a full file moves the offset back by one |
| FileRuns.SendAtOffset | Assignment2/file.c:306-316 | sendfile takes min(count, bytes left) bytes from the explicit offset if and only if the count is 0, the offset is in 0..2^31-1, or its signed low word is at or behind the end of the file; then, if they fit, it copies them, moves offset and output, leaves the input descriptor alone, also within one file, and its page holds them |
| FileRuns.FetchExact | Assignment2/fs.c:309-322 | the same condition for the read alone |
| FileRuns.SendWrapsAround | Assignment2/file.c:307 | at 2^32 the bytes from the start of the file are copied |
| FileRuns.SendBeforeTheFile | Assignment2/file.c:304-307 | at -1 a full file gives one byte more than a page, beginning with the byte in front of the file |
| FileRuns.SendFromDescriptor | Assignment2/file.c:309-315 | sendfile without an offset moves both descriptors, also when they share one object |
| FileRuns.ExitFreesAll | Assignment2/file.c:109-121 | the exit handler frees every object a descriptor is open on and touches none it freed before |
| FileRuns.RunThenExit | Assignment2/file.c:109-121 | after any run of allowed operations the exit frees every object but the lost ones, and none is left over if and only if no open of the run found all its descriptors taken |
| FileRuns.FourteenthOpen | Assignment2/file.c:256-270 | thirteen opens succeed and the fourteenth leaves an object that no exit frees |
| FileRuns.ForkCountsExact | Assignment2/entry.c:21-24 | after a fork the counts are right if and only if the parent has no file open |
| FlatFs.ContentsAfterWrite | Assignment2/fs.c:325-346 | a write to one inode is a write to one entry of the name map |
| FlatFs.ContentsAfterCreate | Assignment2/fs.c:240-271 | a created inode adds one empty entry and counts one more |
| FlatFs.ContentsAfterRemove | Assignment2/fs.c:273-287 | a removed inode takes one entry away and counts one less |
| FlatFs.ContentsAt | Assignment2/fs.c:202-212 | lookup finds a name exactly if the map has it, with its contents |
| FlatFs.UsedCountIsSize | Assignment2/fs.c:289-292 | the number of valid inodes is the number of names |
| SuperBlockObject.SuperBlock.constructor | Assignment2/fs.c:48-88 | from non-overlapping pages, an empty inode table with disjoint byte ranges |
| SuperBlockObject.SuperBlock.LookupInode | Assignment2/fs.c:202-212 | the first valid inode with the name |
| SuperBlockObject.SuperBlock.GetInodeNo | Assignment2/fs.c:214-224 | the number of the inode that holds the name's contents, or -1 for an unknown name |
| SuperBlockObject.SuperBlock.GetFreeInode | Assignment2/fs.c:226-237 | the first invalid inode |
| SuperBlockObject.SuperBlock.CreateInode | Assignment2/fs.c:240-271 | fails exactly for a known name or a full table, otherwise fills one free inode, with a name its field has room for, and no other |
| InodeCells.CreateRecord | Assignment2/fs.c:251-266 | on the record's bytes: mode, copied name with its end mark, data end, size and count, in this order |
| InodeCells.SameName | Assignment2/fs.c:208 | the comparison answers whether the stored C string is the name |
| InodeCells.NameKept | Assignment2/fs.c:255-264 | the stored name is the given one if and only if it has at most 268 bytes, and is cut there otherwise |
| InodeCells.PageKept | Assignment2/fs.c:255-262 | the record keeps its page if and only if the name has at most 272 bytes |
| InodeCells.RecordKept | Assignment2/fs.c:251-266 | name and page are kept exactly up to 268 bytes, and below 256 bytes the other fields are as they should be, size 0 among them, and what lies behind the record is kept |
| InodeCells.LongNameIsLost | Assignment2/fs.c:255-264 | a file with a name of 269 bytes is not found under it again |
| SuperBlockObject.SuperBlock.RemoveInode | Assignment2/fs.c:273-287 | frees one valid inode and changes no other |
| SuperBlockObject.SuperBlock.FlatRead | Assignment2/fs.c:299-323 | hands out the bytes at the signed offset up to the end of the file, from in front of the page if the offset is negative, and writes nothing behind them |
| SuperBlockObject.SuperBlock.FlatWrite | Assignment2/fs.c:325-346 | lays the bytes over the file and extends it, refuses what passes the page, and changes no other inode |
| FileLayer.Process.OpenFile | Assignment2/file.c:227-273 | open implements the reference view, with every error answer and the object it can lose |
| FileLayer.Process.ReadFile | Assignment2/entry.c:95-116 | read implements the reference view |
| FileLayer.Process.WriteFile | Assignment2/entry.c:119-134 | write implements the reference view, including every write that does not fit, and says when the invariant survives |
| FileLayer.Process.Seek | Assignment2/file.c:187-225 | lseek implements the reference view |
| FileLayer.Process.Dup2 | Assignment2/file.c:278-293 | dup2 implements the reference view |
| FileLayer.Process.Close | Assignment2/entry.c:149-158 | close implements the reference view: that slot is empty, no other changed, one reference less; only its refusal has an answer |
| FileLayer.Process.SendFile | Assignment2/file.c:295-316 | sendfile implements the reference view for signed long offsets, through one page, where the page holds what is read |
| FileLayer.Process.FileExit | Assignment2/file.c:109-121 | the exit loop leaves exactly the lost file objects allocated |
| FileSteps.Execute | Assignment2/file.c:109-316 | one operation on the objects is the operation on the view, with its answer |
| FileSteps.ExecuteAll | Assignment2/file.c:109-316 | every run on the objects that reads nothing in front of a page ends in the view that the model's run ends in, with its answers |
| Tournament.WalkPairs | Assignment1/Part2/2.2/umpire2.c:135-149 | the pairing loop stays inside the list if and only if an even number is left without the walk-over player, and pairs neighbours among them |
| Tournament.RoundSafe | Assignment1/Part2/2.2/umpire2.c:133-149 | a round goes right if and only if it is even or its walk-over id is active |
| Tournament.StubLeavesTheList | Assignment1/Part2/2.2/gameUtils.c:1-13 | with the stub that answers 1 a tournament of six players whose first matches are ties looks past the list in its second round |
| Tournament.EveryoneElsePlays | Assignment1/Part2/2.2/umpire2.c:135-149 | everybody but the walk-over player is in exactly one match |
| Tournament.RoundOutcome | Assignment1/Part2/2.2/umpire2.c:150-171 | a round leaves half of the players rounded up: every winner and the walk-over player |
| Tournament.LoserExact | Assignment1/Part2/2.2/umpire2.c:150-169 | the first player goes if and only if the turns it won, where 1 beats 0, 2 beats 1 and 0 beats 2, are fewer than the second's |
| Tournament.PlayMatch | Assignment1/Part2/2.2/umpire2.c:150-169 | a match clears one flag: of the first player if it won fewer turns than the second, of the second otherwise, also in a tie |
| Tournament.PlayRound | Assignment1/Part2/2.2/umpire2.c:110-172 | on the flag array: the flags, the number of active players and of matches after a round |
| Tournament.RunTournament | Assignment1/Part2/2.2/umpire2.c:110-178 | when every odd round is right, the loop ends after n-1 matches with the champion of the rounds |
| Printf.IntRoundTrip | Assignment2/user/lib.c:276-296 | %d text reads back as the number if and only if it is not INT_MIN |
| Printf.LongRoundTrip | Assignment2/user/lib.c:298-325 | %x text reads back as the number if and only if it is not LONG_MIN |
| Printf.UnsignedExact | Assignment2/user/lib.c:274-276 | %u is right if and only if the argument is below 2^31 |
| Printf.DigitsFit | Assignment2/user/lib.c:279-302 | the 20-cell digit array never overflows |
| Printf.ExpandConcat | Assignment2/user/lib.c:263-344 | formats compose, text and arguments |
| Printf.IntText | Assignment2/user/lib.c:274-296 | what %d writes reads back as the argument if and only if it is not INT_MIN, without leading zeros |
| Printf.LongText | Assignment2/user/lib.c:298-325 | the same of %x and LONG_MIN |
| Printf.UnsignedText | Assignment2/user/lib.c:274-296 | what %u writes reads back as the unsigned argument if and only if it is below 2^31 |
| Printf.TextText | Assignment2/user/lib.c:271-337 | %c writes the character, %s the string, and nothing for a null pointer |
| Printf.PlainText | Assignment2/user/lib.c:265-267 | a format without % is its own text |
| Printf.EscapedText | Assignment2/user/lib.c:338-340 | behind a % any other character stands for itself |
| Printf.Vuprintf | Assignment2/user/lib.c:263-344 | writes exactly the rendered pieces and returns their length |

## Left out
- Page allocator, scheduler, `copy_mm`, `setup_child_context`, pipes, `vm_area`, signals, inline assembly and the system-call switch; allocation is a fresh address or object, or a failure, handed in by the caller. Pages from the allocator are taken to be zeroed, so an ordinary file has no queue pointer.
- Keyboard, console and standard I/O files; the processes, pipes and player programs around the umpire (the throws of a game are an arbitrary function of round, player and turn).
- `Assignment3/mmap.c`, which has the same text as `Assignment4/debug.c`.
- Pointer sums that scale twice (Assignment2/msg_queue.c:68, 158, 174 and Assignment2/file.c:28): sub-objects and buffer slots are separate cells.
- Fixed capacities that the code does not guard are preconditions: a free member slot in every queue of a forking parent, a buffer with room for a send, descriptors below 16, names of created files shorter than 256 bytes, enough room in the caller's arrays, counts in 0..2^31-1.
- Allocations that the code uses without a check are taken to succeed: the page of a file object (Assignment2/file.c:27-31, which writes through the pointer even where a caller checks it afterwards) in the file layer, and the page of sendfile (Assignment2/file.c:304). Freeing a buffer that is not there does nothing.
- Formats, `%s` arguments and file names are C strings, without a NUL character in them.
- dup2 on queue descriptors, vfork and clone; the kernel model has open, close, fork and exit of file-layer descriptors and no dup2, and the file model is of one process.
- Inode permission bits and open counts (the test at Assignment2/file.c:253 is constant); in `SuperBlock` names are values, and the byte loops over them are those of `InodeCells`.
- Stack memory is addressed by whole words; overlapping words at misaligned addresses are not modelled. The debuggee does not read its own patched code bytes as data or as operands.
- `become_debugger` is called once and there is one debuggee in a session; `get_ctx_by_pid` is an array access.
- SuperBlockObject.SuperBlock.CreateInode: asks for a name shorter than its field, as the record loses other fields otherwise; `InodeCells` says what exactly.
- FileSteps.ExecuteAll: runs without sendfile from in front of a page, as the bytes there are other files'.
- BreakpointList.DebugInfo.SetBreakpointAt: asks for fewer than 2^31 - 1 issued numbers, because the counter is a C int.
- KernelModel.ReachableLifetimes: runs stop before a file object that was freed is looked at, or its page is handed out for another while a slot names it, as what follows depends on what the page then holds.
- KernelObject.Kernel.UseQueue: updates the queue as a value; that the arrays compute the same value, over whole runs, is `QueueSteps.ExecuteAll`.
- SuperBlockObject.SuperBlock.FlatRead: asks that the storage reaches down to a negative offset, as memory in front of it is not part of this model.
- SuperBlockObject.SuperBlock.FlatWrite: asks for an offset inside the file, which every descriptor that satisfies the invariant has.
- FileLayer.Process.Dup2: asks that duplicating a descriptor onto itself does not free its only object first, as the code then uses a freed object; `FileModel.SafeDupExact` says that this is the only such case.
- FileLayer.Process.SendFile: asks that its page holds what it reads, as it overruns the page otherwise; `FileModel.PageHoldsExact` says exactly when.
- FileLayer.Process.Close: no answer after a close that is carried out, because `do_close` does not return a value there.
- `do_msg_queue_get_member_info` and `flat_list_all_files`, which only copy or do nothing.
