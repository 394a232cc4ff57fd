# Verified models of a kernel's system services

This project models the most intricate parts of a TOPPERS/ASP3 kernel and of its tools,
and proves what they promise:

- the **serial interface driver**, a protocol between any number of writer tasks, reader
  tasks that may echo, and two interrupt callbacks, with ring buffers whose stores and
  fetches are not bounds-checked;
- the **memory image** that the configurator builds from S-record files: a hash of blocks
  that stands for a plain map from addresses to bytes;
- the **system log** and the **trace log**, rings that overwrite or stop;
- the **queue**, an intrusive circular doubly linked list, several of them at a time;
- **log formatting**: digit conversion in a small buffer, and two format scanners, one that
  collects arguments and one that prints them;
- the **time events**: a heap of pointers ordered by 32-bit times that wrap around, and the
  64-bit system time on top of them.

| files | what is in them |
|---|---|
| `Basics` | a few shared functions: powers, digits, reversal |
| `Rings` | the ring buffer that the driver and both logs use |
| `SerialPort`, `SerialDriver` | the driver's atomic steps as functions; the object whose methods are these steps |
| `SerialSystem`, `SerialInvariant`, `SerialTheorems` | tasks and callbacks as a transition system, its invariant, what follows for every run |
| `SerialInput`, `SerialWire`, `SerialFlow`, `SerialWrites`, `SerialReads` | what becomes of the input, what is given to the SIO port, flow control of the peer, the results of write and read calls |
| `SRecordTable`, `SRecordNumber`, `SRecordLine`, `SRecordImage`, `SRecordFile` | block tables as maps, numbers, lines, the image object, what a whole file means by its text |
| `SysLog`, `TraceLog` | the two logs |
| `Queues` | the pointer structure |
| `LogConvert`, `LogFormat`, `LogText` | numbers, formats, what a directive prints by its spelling |
| `HeapOrder`, `EventClock`, `EventAlarm`, `TimeEventHeap` | heap order with a hole, times and their unbounded counterpart, the timer's alarm over runs, the heap object |
| `Counterexamples` | concrete inputs on which the code does less than one might expect |

## What the proofs found

Some properties one would expect are not true of the code. Each is stated here with the
exact condition under which it holds.

- An echoing reader whose wait for the send token is aborted leaves without returning the
  receive token (`syssvc/tSerialPortMain.c:436-439`). If the ring was not empty, no reader
  ever gets a character again (`LostTokenStarvesReaders`, `EchoAbortLosesToken`). The receive
  tokens balance in a state if and only if no such abort came before it
  (`ReceiveTokenConserved`); nothing else loses one (`OnlyAbortsDoHarm`).
- A flow-control character that cannot be sent at once is kept for the callback, but one that is
  sent directly later does not clear it: a reader may send START while STOP is pending, and the
  peer is then told to stop last of all, though it should go on (`PeerStaysStopped`). The
  peer is told the decision in force if and only if the last decision did not overtake a
  pending character like that (`PeerToldExactly`).
- With 2^31 or more losses pending, `eSysLog_read` delivers an entry with a result that looks
  like an error, and `eSysLog_flush` drops that entry and stops (`ExactLossReport`,
  `Flush`, `ManyLossesLookLikeAnError`).
- A trace started in auto-stop mode on a full ring never stops (`AutoStopStops`).
- `set_data` raises exactly when the new range runs past the end of a block that starts
  strictly inside it (`SetData`). A whole file is loaded if and only if no pending run, when it
  is stored, covers such an island of defined bytes (`Load`); overlap alone does no harm.
- The STOP threshold lies above the START threshold exactly for ring sizes from 3 to
  0x5555_5555 (`ThresholdsExact`); beyond that the multiplication by 3 wraps.
- `syslog_printf` stays within the stored arguments exactly for formats with at most five
  directives that take one (`PrintingStaysWithin`).
- The time event heap stays in order exactly when the boundary time passes no event, or
  passes all of them (`UpdateCurrentEvttim`); in runs where no event becomes more than the
  margin late, this always holds and all comparisons are those of the real times. Two events
  and one late update show it failing on the object itself (`LateEventBreaksOrder`).
- A cyclic handler computes its next time by an addition for which Zig does not define
  overflow (`kernel/cyclic.zig:205`), unlike every other event time: n repetitions are defined
  if and only if the first time plus n periods is below 2^32 (`RepetitionsExactly`,
  `LongPeriodOverflows`). Event times are microseconds.

## Model

| member | source | states |
|---|---|---|
| `Rings.PutAppends` | syssvc/tSerialPortMain.c:300-303 | with room left, the unchecked store adds one character at the end of the queued ones and leaves the others alone |
| `Rings.TakeRemovesFront` | syssvc/tSerialPortMain.c:372-375 | the unchecked fetch returns the oldest character and removes just that one |
| `Rings.OverwriteKeepsNewest` | syssvc/tSysLog.c:113-126 | storing in a full ring drops the oldest entry and no other |
| `Rings.WritePositionModulo` | arch/tracelog/tTraceLog.c:101-114 | the write position is always the read position advanced by the count, modulo the size |
| `SerialPort.WriteKeepsOrder` | syssvc/tSerialPortMain.c:288-307 | whichever of the two ways a character is written, it joins the end of what is still to go out; the result says exactly whether the ring is now full |
| `SerialPort.PopKeepsOrder` | syssvc/tSerialPortMain.c:526-538 | moving a character from the ring to the SIO port keeps the order and signals exactly when the ring stops being full |
| `SerialInvariant.NextKeepsInv` | syssvc/tSerialPortMain.c:313-621 | every step of any task or callback keeps the token balances, the recorded order of output and input, and the armed callback |
| `SerialInvariant.RunInv` | syssvc/tSerialPortMain.c:243-643 | the invariant holds in every state of every run from an opening of the port |
| `SerialSystem.OpeningStartsARun` | syssvc/tSerialPortMain.c:111-240 | opening a new port, or closing one that no task is in and opening it again, gives the first state of a run, with echo, CRLF and both flow controls on and the port closed in between |
| `SerialTheorems.SendTokenConserved` | syssvc/tSerialPortMain.c:265-356 | send semaphore plus tasks holding the send token is 1 while the send ring has room and 0 when it is full, for any number of tasks and any aborted waits |
| `SerialTheorems.StoreIsSafe` | syssvc/tSerialPortMain.c:300-302 | a task about to store never meets a full ring |
| `SerialTheorems.WritersExcludeEachOther` | syssvc/tSerialPortMain.c:339-351 | at most one task holds the send token, and at most one the receive token |
| `SerialTheorems.SignalsNeverOverflow` | syssvc/tSerialPortMain.c:532-536 | in every state of every run, wherever a semaphore may be signalled its count is 0: the send one while the send ring is full or a task holds its token, the receive one while the receive ring is empty or a task holds its token |
| `SerialTheorems.OnlyAbortsDoHarm` | syssvc/tSerialPortMain.c:339-452 | of all steps, only the abort of an echoing reader that has not emptied the ring loses a token, and only a wait that ends with an unexpected error sets the error flag |
| `SerialTheorems.ErrorFlagExactly` | syssvc/tSerialPortMain.c:339-452 | in every state of every run the error flag is set if and only if some wait ended with an unexpected error before |
| `SerialTheorems.LostTokensExactly` | syssvc/tSerialPortMain.c:436-439 | a token is missing if and only if an echoing reader was aborted before it had emptied the ring |
| `SerialTheorems.ReceiveTokenConserved` | syssvc/tSerialPortMain.c:422-452 | semaphore and readers never hold more than the one token of a non-empty ring, and none of an empty one; they hold exactly that if and only if no earlier event of the run was the abort of an echoing reader that had not emptied the ring |
| `SerialTheorems.FetchIsSafe` | syssvc/tSerialPortMain.c:372-375 | a reader about to fetch never meets an empty ring, so the unsigned count never wraps |
| `SerialTheorems.LostTokenStarvesReaders` | syssvc/tSerialPortMain.c:424-427 | after such an abort no reader gets another character in the rest of the run |
| `SerialTheorems.OutputInOrder` | syssvc/tSerialPortMain.c:288-304 | the data characters given to the SIO port, those drained at termination and those in the ring are the accepted ones, in the order in which they were accepted, across all three sending paths |
| `SerialTheorems.NoLostWakeUp` | syssvc/tSerialPortMain.c:519-544 | while a character may be sent, or a flow-control character is due, the send-ready callback is enabled |
| `SerialWire.WriteExactly` | syssvc/tSerialPortMain.c:288-304 | a written character is handed over at once exactly if nothing is queued, sending is not stopped and the register takes it; otherwise it is queued, and the callback asked for if the register was tried |
| `SerialWire.ReadySendExactly` | syssvc/tSerialPortMain.c:519-544 | the callback hands over the pending flow-control character first, then the oldest queued one unless sending is stopped, and turns itself off only if there is neither |
| `SerialWire.ResumeExactly` | syssvc/tSerialPortMain.c:569-585 | resuming hands over the oldest queued characters, as many as the register takes, and asks for the callback exactly if some are left |
| `SerialWire.StoppedSendsNothing` | syssvc/tSerialPortMain.c:288-291 | while the peer has stopped this side, no step gives a character of the text to the SIO port |
| `SerialWire.DecisionsAreAnnounced` | syssvc/tSerialPortMain.c:382-387 | in every step, a lifted decision gives exactly the character 17 to the SIO port, or keeps it for the callback and asks for it; a new one likewise 19; otherwise no flow-control character joins the wire but the pending one, which the callback hands over and forgets |
| `SerialWire.PeerToldExactly` | syssvc/tSerialPortMain.c:382-387 | in every state of every run, the flow-control character that the peer gets last, counting the pending one, is that of the decision in force if and only if the last decision did not overtake a pending one |
| `SerialInput.InputFiltered` | syssvc/tSerialPortMain.c:551-609 | in every state of every run, the characters that readers took, followed by those in the ring, are those of the arrived ones that are for readers and met room, in order; and sending is stopped if and only if some arrived character stopped it and none since resumed it |
| `SerialInput.FilterExactly` | syssvc/tSerialPortMain.c:559-602 | the filter for any input and any changes of the options on the way: which characters stop and resume sending (START also after flow control was turned off) and which are kept |
| `SerialInput.FilterRemovesFlowControl` | syssvc/tSerialPortMain.c:559-596 | with send flow control the filter removes exactly START, STOP and what met a full ring; sending is stopped if and only if STOP came last of the two, whether there was room for it or not |
| `SerialInput.FilterWithAnyCharacter` | syssvc/tSerialPortMain.c:559-596 | when any character resumes sending, the filter removes START, STOP, just the one character behind each STOP, and what met a full ring; sending is stopped if and only if STOP came last of all |
| `SerialInput.FilterKeepsAll` | syssvc/tSerialPortMain.c:559-602 | without send flow control sending is never stopped, and only what meets a full ring is removed |
| `SerialFlow.ThresholdsExact` | syssvc/tSerialPortMain.c:56-57 | of all 32-bit sizes exactly 3 to 0x5555_5555 put the STOP threshold above the START threshold |
| `SerialFlow.DecisionsExactly` | syssvc/tSerialPortMain.c:382-387 | every step changes the receive ring by what arrives for readers and finds room and by what is taken; the decision to stop the peer falls exactly when the ring grows to three quarters of its size or more with the option on, and is lifted exactly when taking leaves half or less |
| `SerialFlow.ArrivalExactly` | syssvc/tSerialPortMain.c:558-621 | everything an arriving character does, by its code, the options and the state: STOP and START are acted on whether the ring has room or not |
| `SerialFlow.StopInForce` | syssvc/tSerialPortMain.c:613-619 | with receive flow control on, STOP is decided exactly at its threshold, is in force from there up, and is lifted at the START threshold |
| `SerialFlow.NoReceiveOverrun` | syssvc/tSerialPortMain.c:592-619 | a peer that sends no more after STOP than there is room above the threshold never causes a discard |
| `SerialFlow.FirstOverrunExactly` | syssvc/tSerialPortMain.c:592-602 | of a character for readers, the first discard happens if and only if STOP is in force and what has arrived for readers since, less what they took, has used up the room above the threshold; otherwise it joins the end of the ring |
| `SerialWrites.WritesAreExact` | syssvc/tSerialPortMain.c:339-355 | at every moment each write has contributed exactly the expansion of the characters it has counted, plus a CR whose LF is due or was given up |
| `SerialWrites.WriteResult` | syssvc/tSerialPortMain.c:318-356 | a finished write that counts n has contributed the CR-expanded first n characters and at most one CR more, all of its text if it succeeded; the caller sees n if there is one, and an error only if nothing but a CR has gone out |
| `SerialReads.ReadsAreExact` | syssvc/tSerialPortMain.c:422-452 | at every moment each read has got exactly the characters it counts, which are those it took, and has echoed their expansion up to the character it is at |
| `SerialReads.ReadResult` | syssvc/tSerialPortMain.c:396-457 | a finished read returns the number of characters it took, which are in its buffer in order; after E_OK that is the length asked for and all are echoed if the echo is on, otherwise the echo lacks at most the last one |
| `SerialTheorems.AdvanceEndsWell` | syssvc/tSerialPortMain.c:348-356 | a call that is not aborted ends with E_OK |
| `SerialTheorems.AbortEndsCall` | syssvc/tSerialPortMain.c:93-105 | an aborted call ends at once with what it has done; E_RLWAI, E_DLT and E_RASTER are passed on, any other error becomes E_SYS |
| `SerialTheorems.RefusedAfterFailure` | syssvc/tSerialPortMain.c:332-337 | once a wait has failed unexpectedly, every later call is refused with E_SYS and does nothing |
| `SerialTheorems.OptionsChange` | syssvc/tSerialPortMain.c:462-483 | the options change only when they are set, and only while no wait has failed |
| `SerialDriver.SerialPortMain.Open` | syssvc/tSerialPortMain.c:111-179 | opening a closed port resets both rings and the flow control state and sets the four default options; an open port is refused and unchanged |
| `SerialDriver.SerialPortMain.Close` | syssvc/tSerialPortMain.c:184-240 | the port is closed afterwards in any case; closing an open one puts both semaphores back to their initial counts |
| `SerialDriver.SerialPortMain.WriteCharLocked` | syssvc/tSerialPortMain.c:288-307 | the fields after the locked region are those of the protocol's write step |
| `SerialDriver.SerialPortMain.ReadCharLocked` | syssvc/tSerialPortMain.c:367-389 | the fields after the locked region are those of the protocol's read step, the character is the oldest one, and the result says whether the ring is empty |
| `SerialDriver.SerialPortMain.ReadySendCallback` | syssvc/tSerialPortMain.c:512-545 | the callback is the protocol's send step |
| `SerialDriver.SerialPortMain.ReadyReceiveCallback` | syssvc/tSerialPortMain.c:550-621 | the callback is the protocol's receive step, in all five cases |
| `SerialDriver.SerialPortMain.ResumeLoop` | syssvc/tSerialPortMain.c:570-585 | the loop sends as long as the register takes characters and otherwise arms the callback |
| `SerialDriver.SerialPortMain.DrainCharacter` | syssvc/tSerialPortMain.c:626-643 | returns the oldest unsent character of an open port, if there is one |
| `SRecordTable.JoinSeparates` | cfg/SRecord.rb:121-144 | joining a new range with its neighbours leaves blocks disjoint and never adjacent |
| `SRecordTable.JoinOverrides` | cfg/SRecord.rb:121-144 | joining writes the new bytes over the old memory and changes no other byte |
| `SRecordTable.SwallowsAreIslands` | cfg/SRecord.rb:128-132 | a block lies inside the new range and ends before it if and only if the range covers a maximal stretch of defined bytes, starting after the range does and ending before it: a condition on the memory alone |
| `SRecordTable.DefinedRangeInOneBlock` | cfg/SRecord.rb:109-118 | a range whose every byte is defined lies in one block, because blocks that meet are merged |
| `SRecordTable.CoveredSpells` | cfg/SRecord.rb:112-115 | the slice taken from a covering block is exactly the memory's bytes of the range |
| `SRecordImage.SRecord.SetData` | cfg/SRecord.rb:121-144 | for any order of traversal: fails if and only if a block starts strictly inside the new range and ends before it; otherwise the memory is the old one overridden by the new bytes, and blocks stay separated |
| `SRecordImage.JoinRight` | cfg/SRecord.rb:128-133 | a block that starts after the run is joined by appending what it has beyond the range, wherever in the traversal it is met |
| `SRecordImage.JoinLeft` | cfg/SRecord.rb:134-141 | a block that starts first is joined by laying the run over it |
| `SRecordImage.Merged` | cfg/SRecord.rb:123-143 | when the traversal ends without failing, nothing was swallowed and the table stands for the overridden memory |
| `SRecordImage.SRecord.GetData` | cfg/SRecord.rb:109-118 | for a non-empty range, finds data if and only if every byte is defined, and then exactly those bytes; for any range, if and only if one block covers it |
| `SRecordImage.SRecord.GetValue` | cfg/SRecord.rb:147-171 | the value is the positional sum of the range's bytes in the target's byte order; if signed, the number in the signed range that is congruent to it |
| `SRecordImage.SRecord.ReverseBytes` | cfg/SRecord.rb:154-159 | the destructive loop puts the bytes, not the digits, in reverse order |
| `SRecordImage.SRecord.Load` | cfg/SRecord.rb:54-106 | loading succeeds if and only if every data line has its fields and no pending run, when it is stored, covers a whole island of the bytes stored before; then the memory is that of storing each record by itself |
| `SRecordNumber.DigitsAreBigSum` | cfg/SRecord.rb:162 | the digits in order are the big-endian sum of the bytes |
| `SRecordNumber.ReversedIsLittleSum` | cfg/SRecord.rb:154-160 | the digits with bytes reversed are the little-endian sum |
| `SRecordNumber.HexStops` | cfg/SRecord.rb:64-67 | of a field, the hexadecimal digits up to the first other character make the number |
| `SRecordNumber.SignedRange` | cfg/SRecord.rb:166-168 | testing the top bit and subtracting 256^n gives a number in the signed range congruent to the unsigned one |
| `SRecordNumber.SignedUnique` | cfg/SRecord.rb:166-168 | there is no other such number |
| `SRecordLine.ParseReadsFormat` | cfg/SRecord.rb:61-88 | every S1, S2 and S3 data record that fits its count field is read back with its address and data |
| `SRecordLine.ContinueRun` | cfg/SRecord.rb:95-96 | appending a record that continues the run means the same as storing it separately |
| `SRecordLine.NewRun` | cfg/SRecord.rb:97-101 | storing the pending run and starting a new one means the same as storing each separately |
| `SRecordLine.NoOverlapLoads` | cfg/SRecord.rb:98-104 | a file of well-formed lines whose records do not overlap always loads |
| `SRecordFile.ParseExactly` | cfg/SRecord.rb:61-91 | by its text: exactly the lines that begin with S1, S2 or S3 count; which of them lack fields, and otherwise the address and where the data begins and ends, also when the line is shorter than its count says |
| `SRecordFile.OtherLinesDoNotMatter` | cfg/SRecord.rb:89-92 | taking all lines of other types out of any file changes neither whether it loads nor the memory |
| `SRecordFile.FileMemory` | cfg/SRecord.rb:54-106 | the memory of a file of well-formed records and lines of other types: an address is defined if and only if some record covers it, and holds the two digits that the last such record has for it |
| `SysLog.RunInv` | syssvc/tSysLog.c:101-191 | in every run the ring holds the newest recorded entries, and between the last one read and the oldest kept lie exactly the pending losses |
| `SysLog.ExactLossReport` | syssvc/tSysLog.c:160-169 | a read returns the entry that many places beyond the last one read as were lost in between; the result is that number if and only if it is below 2^31 |
| `SysLog.NothingUnaccounted` | syssvc/tSysLog.c:112-127 | recorded entries = reads + losses before the last read + pending losses + entries kept |
| `SysLog.RecordedExactly` | syssvc/tSysLog.c:102-127 | what is recorded are the entries written with a priority in the mask then in force, each stamped with its time, in order |
| `SysLog.ReportsAddUp` | syssvc/tSysLog.c:167-168 | with fewer than 2^31 losses pending at any time, the losses are the sum of the reported ones |
| `SysLog.SysLogCell.Write` | syssvc/tSysLog.c:102-142 | masks decide separately on recording and low-level output; recording follows the specified state |
| `SysLog.SysLogCell.Read` | syssvc/tSysLog.c:150-176 | takes the oldest entry and clears the loss count; an empty log is left alone |
| `SysLog.SysLogCell.Flush` | syssvc/tSysLog.c:214-231 | puts out the loss and then every entry in order and empties the log; with 2^31 losses or more it drops one entry and stops |
| `TraceLog.RingModeKeepsNewest` | arch/tracelog/tTraceLog.c:89-117 | ring mode keeps exactly the newest entries that fit, through any number of writes, and never stops |
| `TraceLog.AutoStopKeepsFirst` | arch/tracelog/tTraceLog.c:105-114 | auto-stop ends with the old contents followed by the first writes that fit, and stopped, if and only if the ring was not full at the start |
| `TraceLog.AutoStopStops` | arch/tracelog/tTraceLog.c:107-110 | after enough writes the trace is stopped if and only if it did not start on a full ring |
| `TraceLog.StartAndWrite` | arch/tracelog/tTraceLog.c:69-119 | starting in any state, stopped or not, and then any writes: the newest entries in ring mode, the first that fit in auto-stop mode with the exact condition for having stopped, and nothing new with TRACE_STOP; the old contents count unless they are cleared |
| `TraceLog.TraceLogCell.Start` | arch/tracelog/tTraceLog.c:69-79 | sets the mode to the one given and clears the contents exactly if asked to |
| `TraceLog.TraceLogCell.Write` | arch/tracelog/tTraceLog.c:85-119 | follows the specified state in all modes |
| `TraceLog.TraceLogCell.Read` | arch/tracelog/tTraceLog.c:125-150 | takes the oldest entry off, or reports that there is none |
| `TraceLog.TraceLogCell.TailFollowsHead` | arch/tracelog/tTraceLog.c:100-114 | the tail is the head advanced by the count, modulo the size |
| `Queues.InsertPrev` | include/queue.h:90-96 | the ring becomes the ring with the entry inserted before the given one |
| `Queues.InsertNext` | include/queue.h:105-111 | the ring becomes the ring with the entry inserted behind the given one |
| `Queues.Delete` | include/queue.h:119-123 | the ring becomes the ring without the entry |
| `Queues.DeleteNext` | include/queue.h:134-143 | returns the entry behind the given one and takes it out |
| `Queues.Empty` | include/queue.h:151-158 | true if and only if the header is alone, and then its back pointer is its own too |
| `Queues.WalksAreReverses` | include/queue.h:66-81 | the walk along the next pointers and the walk along the previous pointers from a header are reverses of each other, and both are the queue's contents |
| `Queues.ApplyKeepsDisjoint` | include/queue.h:90-143 | each operation changes one sequence and keeps all queues disjoint |
| `Queues.Execute` | include/queue.h:90-143 | on the pointers of any number of queues, an operation does what it does on sequences, and all other queues stay as they were |
| `Queues.Run` | include/queue.h:76-158 | the same for any sequence of operations |
| `LogConvert.NumeralReadsBack` | library/log_output.c:63-66 | decoding the digits gives back the value |
| `LogConvert.FitsBuffer` | library/log_output.c:53-66 | a value of N bits has at most as many digits as the buffer has places, for any radix from 8 up |
| `LogConvert.FillBuffer` | library/log_output.c:59-66 | the loop stops because the value is used up, never because the buffer is full: no digit is lost |
| `LogConvert.Convert` | library/log_output.c:56-83 | prints the numeral in its field, which is the larger of the width and the digits with their sign |
| `LogConvert.FieldReadsBack` | library/log_output.c:68-82 | for both kinds of padding the field reads back as the signed number |
| `LogFormat.ScannersAgree` | library/vasyslog.c:63-106 | both scanners see the same conversion and continue at the same place, even where the format ends inside a directive |
| `LogFormat.ScansAgree` | library/log_output.c:101-163 | over a whole format both meet the same directives with arguments |
| `LogText.SpelledIsRead` | library/log_output.c:105-121 | a directive is read as it is spelled: the zero flag, the decimal value of the digits modulo 2^32 as the width, the size letter and the conversion |
| `LogText.DirectivePrints` | library/log_output.c:101-163 | where a directive stands the output goes on with what its spelling asks for: the digits in the right case and radix without leading zeros, in a field of the larger of the width and the digits with their sign, zeros behind the sign or blanks before it; an argument is used up exactly by d, u, x, X, p, c and s |
| `LogText.PrintsOneText` | library/log_output.c:53-83 | the spelling and the argument determine the text |
| `LogFormat.TtSyslog` | library/vasyslog.c:53-108 | stores the format and then the arguments of the first directives that take one, each fetched by the C type that its size letter chooses, and leaves the other parameters alone |
| `LogFormat.SyslogPrintf` | library/log_output.c:93-164 | puts out the rendering of the format, reading no argument beyond those that its directives take |
| `LogFormat.PrintingStaysWithin` | include/t_syslog.h:115 | printing needs no more arguments than were stored if and only if the format has at most five directives that take one |
| `LogFormat.ToLogParFits` | library/vasyslog.c:79-91 | storing an argument keeps every value that fits, and the unsigned reading of every value |
| `LogFormat.ArgTypesExactly` | library/vasyslog.c:77-99 | the signedness and width of the C type that each conversion and size letter fetches |
| `LogFormat.FetchedExactly` | library/vasyslog.c:77-99 | whatever was passed, the value fetched is in the type and has the same low bits |
| `LogFormat.FetchKeeps` | library/vasyslog.c:79-99 | fetching an argument by its own type gives it unchanged |
| `LogFormat.FittingArgumentsArrive` | library/vasyslog.c:79-99 | arguments that have the types of their directives and fit a parameter arrive at the printing as they were |
| `LogFormat.ExpansionReadsBack` | library/log_output.c:121-144 | what d, u, x and X print reads back as the parameter's signed or unsigned value |
| `LogFormat.LogThenPrint` | library/vasyslog.c:53-108 | for at most five arguments, a message logged and printed later is the rendering of its arguments, each fetched by its type and converted to a parameter |
| `EventClock.AdvanceIsDistance` | kernel/time_event.zig:102-104 | the wrapped difference to the boundary is the real distance for every event in the window |
| `EventClock.ComparisonsAreReal` | kernel/time_event.zig:105-110 | inside the window the 32-bit comparisons are those of the unbounded times |
| `EventClock.CounterAdvanceIsElapsed` | kernel/time_event.zig:368-375 | a counter of any period is read right if less than a period has passed |
| `EventClock.ForwardTracks` | kernel/time_event.zig:377-387 | when time moves on, one carry into the 64-bit offset keeps the system time equal to the highest time reached |
| `EventClock.MovingOn` | kernel/time_event.zig:377-387 | moving on by d moves the current time by d, and the system time by what goes beyond the highest time reached |
| `EventClock.RefusalIsReal` | kernel/time_event.zig:489-498 | an adjustment is refused if and only if some event is really a second late, or the time is already a second behind its highest |
| `EventClock.AdjustmentExactly` | kernel/time_manage.zig:87-125 | in real times: an error outside one second; refused exactly if it goes ahead while some event is a second late, or back while the time is a second behind its highest; otherwise the current time moves by it and no event does |
| `EventClock.StepTracks` | kernel/time_manage.zig:87-125 | every step keeps the 32-bit clock and event times equal to the unbounded ones modulo 2^32, all inside the window |
| `EventClock.RunTracks` | kernel/time_event.zig:363-388 | so does every run in which no event becomes more than the margin late |
| `EventClock.EventsCompareAsDue` | kernel/time_event.zig:96-110 | in such runs any two registered events compare in the order in which they are due |
| `EventClock.DueWhenItsTimeHasCome` | kernel/time_event.zig:548 | and an event is found due if and only if its time has come |
| `EventClock.PunctualByKeys` | kernel/time_event.zig:153-161 | no event is left behind the margin if and only if none is nearer to the boundary than time moves on |
| `EventClock.ReachByKeys` | kernel/time_event.zig:451-454 | the limit on relative times keeps every event so near that no adjustment can bring it behind the boundary |
| `EventClock.LeftTimeIsReal` | kernel/time_event.zig:503-520 | the time left is the real one, rounded up by a counter step, and never negative |
| `EventClock.SystemTimeNeverGoesBack` | kernel/time_event.zig:381-387 | between any two moments with no setting of the time in between, the system time does not decrease, whatever the adjustments, short of its 64-bit wrap |
| `EventClock.SystemTimeAdvances` | kernel/time_event.zig:381-387 | between two such moments the system time advances by exactly as much as the highest time reached |
| `EventClock.SetTimeAdvances` | kernel/time_manage.zig:53-82 | a time that was set is what is read when nothing higher has been reached since, and from then on it advances by exactly as much as the highest time |
| `EventClock.ReadsHighest` | kernel/time_manage.zig:70-82 | until it is set, the system time is the highest time reached |
| `EventClock.RepetitionsExactly` | kernel/cyclic.zig:201-206 | a cyclic event can be repeated n times if and only if its first time plus n periods is below 2^32, and then that sum is its time |
| `EventAlarm.AlarmNeverLate` | kernel/time_event.zig:404-480 | in every punctual run, whenever the kernel is neither initialising nor in the timer interrupt, the alarm has come already or comes before any event is late: setting it only for the event at the top is enough |
| `EventAlarm.EnqueuedExactly` | kernel/time_event.zig:451-455 | the new event is due the counter step and the time asked for after the updated time, modulo 2^32, and no other event is touched |
| `EventAlarm.AlarmIsInTime` | kernel/time_event.zig:404-426 | when it is set, the alarm comes at once if and only if an event is due; otherwise it never comes after an event is due, and comes before only if the timer cannot wait longer |
| `HeapOrder.MoveUp` | kernel/time_event.zig:215-229 | moving a later parent into the hole keeps the order around the hole |
| `HeapOrder.MoveDown` | kernel/time_event.zig:245-268 | moving the earlier child into the hole keeps the order around the hole |
| `HeapOrder.TopSmallest` | kernel/time_event.zig:149-151 | the top of a heap is its smallest key |
| `HeapOrder.ShiftKeepsOrder` | kernel/time_event.zig:377-379 | moving the point from which wrapped keys are counted keeps the order if and only if all keys lie on the same side |
| `TimeEventHeap.BoundaryMoves` | kernel/time_event.zig:377-379 | event times in heap order stay so when the boundary moves on if and only if it passes none of them, or all |
| `TimeEventHeap.TimeEvents.Up` | kernel/time_event.zig:211-231 | finds a place where the event fits above and below, losing no event and keeping every event's own index right |
| `TimeEventHeap.TimeEvents.Down` | kernel/time_event.zig:241-270 | the same, going down |
| `TimeEventHeap.TimeEvents.Insert` | kernel/time_event.zig:278-290 | the registered events become the old ones and the new one; the heap stays in order and every block knows its place |
| `TimeEventHeap.TimeEvents.Delete` | kernel/time_event.zig:295-333 | removes exactly the given event, wherever it is, and keeps order and indices |
| `TimeEventHeap.TimeEvents.DeleteTop` | kernel/time_event.zig:336-356 | removes and returns an event that none is earlier than |
| `TimeEventHeap.TimeEvents.UpdateCurrentEvttim` | kernel/time_event.zig:363-388 | the clock moves on as specified; the heap stays in order if and only if the boundary passes no event, or all of them |
| `TimeEventHeap.TimeEvents.SetHrtEvent` | kernel/time_event.zig:404-426 | asks the timer for the alarm of an event that none is earlier than, cut at the timer's bound |
| `TimeEventHeap.TimeEvents.EnqueueReltim` | kernel/time_event.zig:451-463 | updates the time, registers the event at its time from now and, outside the timer interrupt, sets the alarm if the event came to the top; if it did not, some other event is not later |
| `TimeEventHeap.TimeEvents.Dequeue` | kernel/time_event.zig:468-480 | unregisters the event and changes no other; if it was at the top, outside the timer interrupt, the time is updated and the alarm set |
| `TimeEventHeap.TimeEvents.AdjTim` | kernel/time_manage.zig:87-125 | out-of-range adjustments change nothing; others update the time and are refused or done as specified; the heap stays in order, and outside the timer interrupt the alarm is set after an adjustment |
| `TimeEventHeap.TimeEvents.NoneLeftBehind` | kernel/time_event.zig:490-493 | an adjustment ahead that is not refused leaves no event behind the boundary |
| `TimeEventHeap.TimeEvents.FireDue` | kernel/time_event.zig:548-553 | takes off exactly the events that are due, each once, in order of their times |
| `Counterexamples.EchoAbortLosesToken` | syssvc/tSerialPortMain.c:436-439 | a run of seven steps after which a character is in the ring, no task holds a token and the semaphore is 0 |
| `Counterexamples.PeerStaysStopped` | syssvc/tSerialPortMain.c:382-387 | a run of seven steps in which START overtakes a pending STOP: afterwards the peer is to go on, nothing is pending, and the last character it got is STOP |
| `Counterexamples.SixArgumentsAreTooMany` | library/vasyslog.c:63 | a format with six arguments, of which five are stored |
| `Counterexamples.ByteInTheMiddle` | cfg/SRecord.rb:128-132 | three bytes laid over a block in their middle make the slice fail |
| `Counterexamples.ManyLossesLookLikeAnError` | syssvc/tSysLog.c:167 | a run of 2^31 + 1 writes to a log with one place, after which the read that delivers the entry has the result -2^31 |
| `Counterexamples.FullRingDoesNotStop` | arch/tracelog/tTraceLog.c:105-114 | auto-stop on a full ring overwrites the old entry and keeps tracing |
| `Counterexamples.TwoCharactersAreTooFew` | syssvc/tSerialPortMain.c:56-57 | for a ring of two characters both thresholds are one |
| `Counterexamples.LateEventBreaksOrder` | kernel/time_event.zig:363-388 | a heap of two events, out of order after an update that leaves one of them behind the boundary |
| `Counterexamples.LongPeriodOverflows` | kernel/cyclic.zig:205 | an event 4000 seconds ahead with a period of 4000 seconds has no second time |

## Left out

- Scheduler, mutexes, priority ceiling, overrun handlers, alarm handlers, cyclic handlers but for
  their times, and the kernel's other objects: not modelled.
- Serial services: `loc_cpu`, `unl_cpu`, `dis_dsp` and `ena_dsp` are taken to succeed, context and
  port number checks are not modelled, and the port is closed only while no task is inside.
- eSerialPort_write and eSerialPort_read: their loops are program counters in the transition
  system, one step per locked region or semaphore operation, because other tasks run between
  the steps; the object has methods for the steps.
- Received characters: in the object the reader is signalled before the character is stored; both
  happen in one callback, so no task sees the difference.
- UART drivers: only their contract is kept, that the send-ready callback comes when the register
  takes a character.
- SRecordImage.SRecord.SetData: data of whole bytes only; the table counts addresses in bytes. The
  table after a failed call is not stated, since the exception ends the program.
- SRecordImage.SRecord.Load: lines that end in the middle of a byte are excluded; the data of such a
  record would not be whole bytes. Reading the file is not modelled, a file is its lines. Count
  and address fields are read as hexadecimal digits up to the first other character; Ruby's hex
  also accepts a sign, a prefix or underscores in them.
- SRecordImage.SRecord.GetValue: the value is stated for data made of hexadecimal digits. Prefixes,
  signs and underscores, which Ruby's hex also accepts, are not modelled.
- get_string, and the checksum of a record, which the code does not look at: not modelled.
- Logs: an entry is its type, time and parameters; masks are sets of priorities; interrupts are
  locked throughout each operation; the low-level output is a list of messages.
- eSysLog_refer, trace dump and log tasks: easy readers of the same state.
- LogFormat.TtSyslog: the widths of the C types are arguments; the argument list is the values that
  the caller passed, and a value of another type than its directive's is fetched modulo the width.
- LogFormat.SyslogPrintf: the text behind a string argument is a function of the parameter.
- TimeEventHeap.TimeEvents.Delete: when the removed event is the last one, the code rewrites a
  pointer and an index with their own values; that is left out.
- TimeEventHeap.TimeEvents.EnqueueReltim: an update that leaves some events behind the boundary but
  not all is excluded: the heap would be out of order when the event is inserted
  (UpdateCurrentEvttim says exactly when, LateEventBreaksOrder shows one).
- TimeEventHeap.TimeEvents.Dequeue: the same for the update that follows, if it takes place.
- TimeEventHeap.TimeEvents.AdjTim: an update that leaves any event behind is excluded, and an event so
  far ahead that an adjustment back could pass it; EventClock.ReachByKeys shows that relative times
  are too short for that.
- TimeEventHeap.TimeEvents.FireDue: callbacks, which may register events while the loop goes on, are
  not modelled on the heap, nor is the outer loop that repeats it. On the clock, a registration
  from a callback is a step like any other, and a cyclic handler's is Repeat.
- Timer hardware: the elapsed time is an argument. A counter of 64 bits is not modelled.
- Text tools (`cfg/genTecsCfg.rb`, `utils/gentest.rb`, `configure.rb`), histogram, banner, adapters:
  thin wrappers or file handling.
