# AmiNetXDuo, verified

AmiNetXDuo is a TCP/IP stack for AmigaOS with its own tools and ported clients. This project
models the parts of it whose correctness is hard to see from the code, in Dafny, and proves what
the code and its documentation promise about them. `dafny verify dfyconfig.toml` checks all of it.

| module | models | main results |
|---|---|---|
| `LockOrder` | the cycle search of the lock-order checker | sound and complete up to seven locks, no cycle twice under rotation; an empty answer is a lock order exactly as far as that bound reaches, and a longer ring is a counterexample |
| `Bpf`, `BpfOpcodes` | the packet-filter interpreter and validator | scattered packets refine flat ones; every opcode by its number does what its name says, bit by bit; exactly which instructions are let in, and a program of those never runs into a bad one |
| `BpfCompile` | the filter compiler of the capture tool | each error exactly when, and every compiled program is valid and decides every packet as the filter says |
| `BpfMeaning` | what a capture filter means in terms of headers | on every frame, long or cut short, what a compiled and interpreted filter keeps is what the bytes of the headers say; NOT is the complement exactly off the frames cut short; an "impossible" filter asks for nothing, except NOT of a contradiction, which asks for everything |
| `TextConv` | the streaming UTF-8 decoder and local codesets | any bytes whatever decode to their characters, as the codeset shows them, and one question mark for each broken piece; exactly which bytes of any codeset survive the way to UTF-8 and back |
| `Sshcs`, `SshcsScan` | the ssh client's OSC filter | any chunking and capacity gives one result; the automaton is a declarative scanner |
| `Console` | console reader task and its parent | every interleaving: what is read is what the keys typed mean, but for bytes a full ring refused; no lost wakeup or Ctrl-C, the record outlives the child, stopping ends |
| `ScpArgs` | scp's argument quoting, ssh's tokeniser | the round trip between the two programs, buffer to buffer; what either notation means, from its text |
| `ScpChild` | the life of scp's ssh process | every run: each thing given back once and after the runner has gone; failing starts release everything; when the exit status is the right one |
| `MemPipe` | the shared-memory pipe between the two | a queue across counter wrap-around; no lost wakeup, although two pipes share one signal bit per task |
| `Glob` | scp's pattern matcher | it decides the language the text of the pattern denotes, piece by piece, and every text is such pieces |
| `Pipes`, `ConWrite`, `ArgvFilter` | Dropbear's pipes, console output, CHARSET= keyword | bounded queues and descriptor reuse; split-independent CRLF; exactly which words go, from the words alone |
| `Ones`, `CopySum` | copy-and-sum routines | exact copies; whatever the grouping, the RFC 1071 sum |
| `RxVerify` | turning that sum into the VERIFIED flag | the flag is set exactly for the packets its documentation describes that have room for a transport header |
| `CertDer`, `CertStore` | the certificate store, writer and reader | the DER walk finds exactly the subject; a fetch answers the first certificate of the bundle with that key; the file is independent of input order exactly without conflicts, and a renewed root is one |
| `StackDepth` | the worst-case stack report | the figure is the maximum over all call chains where the root reaches no recursion, and is exceeded without bound where it reaches one that keeps a frame; no report ever mentions a recursion |
| `Crt0` | the crt0 frame repair | only masks change; a second run answers Ok, and the frame pushed is the frame exit pops |

Code that changes state is modelled by classes and methods proved against specification functions;
code shared by two tasks is modelled as a state machine over its loads, stores and system calls.
`Words` holds machine words, byte strings and bit operations.

What comes from outside is a parameter: files are byte sequences, the operating system's answers
are arguments, signals are flags, the codeset library's look-alike text is an arbitrary function.
A pointer that the code only tests for NULL is taken to be there, unless it means something.

Where code and comments differ the model follows the code. include/aminetxduo/bpf.h says jump
targets are not range-checked by the interpreter; src/bpf/bpf_filter.c checks them, and so does
`Bpf.Step`. The keyword prefix test of the ssh client ignores bit 5 of every byte, so it also takes
byte 0x1D for the equals sign; `ArgvFilter.SameLetter` does the same. The VERIFIED promise of
include/aminetxduo/anxs2ext.h does not ask for room for a transport header or a matching UDP length;
src/netdev/netdev_verify.c does, and so do `RxVerify.Promise4` and `RxVerify.Promise6`. The comment in
src/tools/bpffilter.h on the "impossible" error says such a filter can never match a frame;
src/tools/bpffilter.c also refuses NOT of a contradiction, which every frame matches
(`BpfMeaning.RefusedAlthoughAlwaysAsked`). tools/stack-depth.py makes a recursion line that its own
comparison never lets into a report (`StackDepth.Walker.Report`).

## Model

| member | source | states |
|---|---|---|
| LockOrder.LockOrderAnalyzer.RecordEdge | tools/check-lock-order.py:900-923 | both locks are noted; an edge joins the list exactly when it is no self-edge and its key is new |
| LockOrder.GraphOfMeaning | tools/check-lock-order.py:1296-1302 | an edge of the searched graph is a recorded edge between locks that are not ignored, and the other way round |
| LockOrder.GraphOfIsFirst | tools/check-lock-order.py:1296-1302 | the edge kept for a pair of locks is the first one recorded |
| LockOrder.BuildAdjacency | tools/check-lock-order.py:1296-1302 | the adjacency lists hold exactly the edges of that graph |
| LockOrder.SearchFrom | tools/check-lock-order.py:1307-1322 | the stack search from one lock ends, reports only real cycles and misses none of at most seven locks whose smallest lock is the start |
| LockOrder.LockOrderAnalyzer.FindCycles | tools/check-lock-order.py:1292-1323 | every report is a closed simple cycle with edges joining its locks in order; every simple cycle of at most seven locks is reported, none twice under rotation; empty exactly when there is none; over any set of at most seven locks that covers the edges, empty exactly when a ranking exists |
| LockOrder.LessMeans | tools/check-lock-order.py:1307-1322 | the smallest lock, from which each cycle is reported, is by the first character that differs |
| LockOrder.RotatesToTarget | tools/check-lock-order.py:1316-1319 | every cycle rotates to one that starts at its smallest lock and stays a cycle |
| LockOrder.RotationUnique | tools/check-lock-order.py:1316-1319 | two canonical rotations of one cycle are equal, so removing duplicates loses nothing |
| LockOrder.OrderIffNoCycle | tools/check-lock-order.py:1292-1323 | on any finite set of locks a global order exists exactly when there is no cycle |
| LockOrder.EmptyAnswerMeansLockOrder | tools/check-lock-order.py:1292-1323 | with at most seven locks no short cycle is the same as a lock order |
| LockOrder.LongRingIsMissed | tools/check-lock-order.py:1321-1322 | a ring of more than seven locks gives an empty answer although no order exists |
| Bpf.ViewLinear | src/bpf/bpf_filter.c:14-21 | a view of one run stands for that packet |
| Bpf.ViewAdd | src/bpf/bpf_filter.c:23-38 | a run joins the packet the view stands for; refused exactly when the view is full; the lengths wrap at 2^32, and the view stays right exactly while the captured one does not |
| Bpf.ViewAt | src/bpf/bpf_filter.c:44-64 | the run and place of a byte of the scattered packet, with how far the run goes on; nothing exactly past the captured length |
| Bpf.LoadView | src/bpf/bpf_filter.c:67-110 | a big-endian load from scattered runs is the load from the flat packet, or fails exactly when that does |
| Bpf.FilterView | src/bpf/bpf_filter.c:125-324 | the interpreter loop on scattered packets gives the result of the plain semantics on the flat packet |
| Bpf.Validate | src/bpf/bpf_validate.c:13-158 | accepted exactly when the program is not empty nor too long, every instruction is known with its jump, slot and divisor in range, and the last one returns |
| Bpf.ValidStep | src/bpf/bpf_validate.c:13-158 | a step of a validated program stays inside it and meets no bad instruction; division by zero only through X |
| Bpf.ValidatedRunsClean | src/bpf/bpf_validate.c:13-158 | on every packet and register state a validated program returns a length, a short read or a division by zero |
| BpfOpcodes.ArithmeticOpcodes | src/bpf/bpf_filter.c:233-263 | every arithmetic opcode, constant or X: the accumulator becomes the sum, difference, product, quotient, and, or, shift or negative of 32-bit words, told by arithmetic and by bits; only a zero divisor stops |
| BpfOpcodes.JumpOpcodes | src/bpf/bpf_filter.c:265-298 | every conditional jump: taken exactly for equal, greater, not less, or a bit in common; never past the end |
| BpfOpcodes.PacketOpcodes | src/bpf/bpf_filter.c:172-183 | the six packet loads give the big-endian field at k or X + k, or stop on a short packet |
| BpfOpcodes.NibbleOpcode | src/bpf/bpf_filter.c:207-216 | ldx msh gives four times the low nibble of the byte |
| BpfOpcodes.PlainOpcodes | src/bpf/bpf_filter.c:155-316 | constants, lengths, the sixteen slots, moves, returns and the plain jump, by opcode number |
| BpfOpcodes.StartsCleared | src/bpf/bpf_filter.c:125-146 | a program starts with A, X and the slots zero; no program keeps everything |
| BpfOpcodes.LowByteOnly | src/bpf/bpf_filter.c:144-160 | the high byte of an opcode is never looked at |
| BpfOpcodes.AcceptedIff | src/bpf/bpf_validate.c:24-150 | the validator lets in exactly the listed opcode bytes, with slots, divisors and jumps in range |
| BpfCompile.Builder.NewLabel | src/tools/bpffilter.c:70-82 | a fresh label, or label 0 and the overflow flag when the table is full |
| BpfCompile.Builder.Place | src/tools/bpffilter.c:84-88 | the label stands at the next instruction; a number that is no label is ignored |
| BpfCompile.Builder.Emit | src/tools/bpffilter.c:90-108 | the instruction is appended, or the overflow flag set when there is no room |
| BpfCompile.Fixup | src/tools/bpffilter.c:115-172 | succeeds exactly when every jump reaches a placed label forward in range, and then every instruction jumps where its labels stand |
| BpfCompile.Builder.GateProto | src/tools/bpffilter.c:225-244 | emits exactly the specified transport test |
| BpfCompile.Builder.GateHost4 | src/tools/bpffilter.c:247-257 | emits exactly the specified IPv4 address test |
| BpfCompile.Builder.GateHost6 | src/tools/bpffilter.c:261-283 | emits exactly the specified IPv6 address test |
| BpfCompile.Builder.GatePort4 | src/tools/bpffilter.c:290-304 | emits exactly the specified port test behind a variable header |
| BpfCompile.Builder.GatePort6 | src/tools/bpffilter.c:307-317 | emits exactly the specified port test behind a fixed header |
| BpfCompile.GateRuns | src/tools/bpffilter.c:225-317 | the code of any test, run from any registers, continues with the test passed, rejects, or stops on a short packet, as the field comparison says |
| BpfCompile.DispatchRuns | src/tools/bpffilter.c:411-416 | the type dispatch sends each frame to the branch of its type |
| BpfCompile.AssembledDecides | src/tools/bpffilter.c:321-521 | the resolved program decides every packet as the filter does |
| BpfCompile.AssembledIsValid | src/tools/bpffilter.c:321-521 | the resolved program passes the validator |
| BpfCompile.AssembleFits | src/tools/bpffilter.c:321-521 | no filter needs more than 52 instructions or 13 labels, so the fixed tables suffice |
| BpfCompile.FixupSucceeds | src/tools/bpffilter.c:115-172 | every jump the compiler emits can be resolved |
| BpfCompile.Compile | src/tools/bpffilter.c:321-521 | each error exactly when; a result fits, is valid, and on every packet answers the snap length or zero as the filter decides |
| BpfMeaning.AnswerIsMeaning | src/tools/bpffilter.c:321-521 | on every frame, by the numbers of the bytes: yes exactly when type, protocol, either address and either port of a first fragment are as asked; cut short exactly when the frame ends before a field that had to be looked at; no otherwise |
| BpfMeaning.NotIsComplement | src/tools/bpffilter.c:506-510 | a filter and its NOT share the frames between them exactly off the frames cut short, and those are not wanted |
| BpfMeaning.NotDropsCutFrame | src/tools/bpffilter.c:506-510 | twelve zero bytes are no TCP frame, and NOT tcp drops them |
| BpfMeaning.LongFramesAreWhole | src/tools/bpffilter.c:321-521 | a frame of at least 78 bytes is never cut short |
| BpfMeaning.SomeFrameWanted | src/tools/bpffilter.c:347-403 | every combination that is not refused has a frame that satisfies it |
| BpfMeaning.ContradictoryIffNothingWanted | src/tools/bpffilter.c:347-403 | the contradictory combinations are exactly those no frame satisfies |
| BpfMeaning.ImpossibleIsHopelessIff | src/tools/bpffilter.c:347-403 | a refused filter asks for no frame exactly when it is not NOT of a contradiction, which asks for all; a filter not refused keeps some frame |
| BpfMeaning.RefusedAlthoughAlwaysAsked | src/tools/bpffilter.h:90 | NOT of port 80 on ARP asks for every frame and is refused as impossible |
| BpfMeaning.KeptIffWanted | src/tools/bpffilter.c:321-521 | on every frame: without NOT, kept at snap length exactly when wanted; under NOT, exactly when neither wanted nor cut short |
| BpfMeaning.CompileAndFilter | src/tools/bpffilter.c:321-521 | a filter compiled and then run by the interpreter on a scattered frame keeps the snap length exactly for the frames the bytes of the headers say |
| TextConv.DecByte | src/common/textconv.c:113-140 | one byte gives at most the documented number of bytes, one from a settled decoder, and keeps the decoder in range |
| TextConv.Flush | src/common/textconv.c:142-149 | flushing settles the decoder and gives at most one byte |
| TextConv.DecodeChar | src/common/textconv.c:113-140 | every character in the encoding of section 3 of RFC 3629 is decoded to what the codeset shows for it |
| TextConv.DecodeText | src/common/textconv.c:113-140 | so is every text, character by character |
| TextConv.ShownDisplays | src/common/textconv.c:50-87 | what a character shows as: itself, its own UTF-8, the first byte that stands for it, up to eight bytes of look-alike text without controls, or a question mark, each exactly when |
| TextConv.EncodingExamples | src/common/textconv.c:27-47 | the ends of the ranges of section 3 of RFC 3629 and examples of its section 7 |
| TextConv.Utf8PassesThrough | src/common/textconv.c:50-140 | under a UTF-8 codeset text without C1 controls comes out as it went in |
| TextConv.EveryStream | src/common/textconv.c:113-149 | any bytes, decoded and flushed: each character as shown, each broken piece, stray, cut short, overlong or surrogate, as one question mark |
| TextConv.Utf8ToLocal | src/common/textconv.c:151-167 | a beginning of that in whole characters, all of it exactly when it fits |
| TextConv.LocalToUtf8Means | src/common/textconv.c:169-205 | a local byte becomes itself, a question mark, or two or three bytes that carry its code point |
| TextConv.LocalRoundTrip | src/common/textconv.c:13-24 | every byte under every codeset: it survives the trip through UTF-8 exactly when it is ASCII, a control the decoder passes, or the first of the codeset for a character from 0xA0 up that is no surrogate; under a UTF-8 codeset only ASCII does |
| TextConv.SomeByteIsLost | src/common/textconv.c:13-24 | a codeset whose upper bytes stand for an ASCII letter loses its first one |
| TextConv.Latin1RoundTrip | src/common/textconv.c:169-205 | without a table every upper byte survives |
| Sshcs.SshcsOut.EmitByte | clients/dropbear/sshcs.c:23-31 | a byte goes out as it is, or through the decoder |
| Sshcs.SshcsOut.EndOsc | clients/dropbear/sshcs.c:33-38 | the title is delivered exactly for numbers 0 and 2 without overflow and with a receiver |
| Sshcs.SshcsOut.FeedText | clients/dropbear/sshcs.c:57-82 | text and held ESC, as the step function says |
| Sshcs.SshcsOut.FeedNum | clients/dropbear/sshcs.c:84-107 | number state, as the step function says |
| Sshcs.SshcsOut.FeedOsc | clients/dropbear/sshcs.c:84-132 | string states, as the step function says; a byte behind an inner ESC that does not end the string is put back |
| Sshcs.SshcsOut.Run | clients/dropbear/sshcs.c:40-138 | output, titles and state are those of the bytes consumed in one pass; never more than the capacity; stops early only when fewer than CHAR_MAX bytes are left; consumes something when it can |
| Sshcs.ProcessSplit | clients/dropbear/sshcs.c:40-138 | processing two pieces one after the other is processing them together |
| Sshcs.CsWrite | clients/dropbear/amiga_dropbear.c:1428-1443 | ends, and either sends the whole conversion or stops at a refused piece of at most 128 bytes: what was sent and that piece are the conversion of a prefix, whose titles are all delivered |
| SshcsScan.SaturateIsValue | clients/dropbear/sshcs.c:84-90 | the saturating number equals the decimal value below 1000 and is at least 1000 otherwise |
| SshcsScan.OscRuns | clients/dropbear/sshcs.c:84-132 | from ESC ] on the automaton consumes exactly the sequence a scanner finds, emits nothing, and delivers exactly its title |
| SshcsScan.ProcessIsScan | clients/dropbear/sshcs.c:33-134 | whole streams: output is the input with each scanned sequence removed, titles are the scanned ones, in order |
| SshcsScan.UnsearchedStream | clients/dropbear/sshcs.c:49-52 | with OSC sequences left in: no titles, and the output is the input decoded as one stream, or the input itself |
| SshcsScan.PlainPassesIff | clients/dropbear/sshcs.c:33-134 | with conversion off the input passes unchanged, up to one held trailing ESC, exactly when it holds no ESC ] |
| SshcsScan.WrittenShrinks | clients/dropbear/sshcs.c:33-134 | output is never longer than input, and at least two shorter once a sequence begins |
| Console.StepKeeps | clients/dropbear/amiga_dropbear.c:1051-1265 | every step of either task, from any good state, keeps the ring, life-cycle and wakeup invariants |
| Console.EveryStateOk | clients/dropbear/amiga_dropbear.c:1051-1265 | so they hold in every state of every interleaving |
| Console.RingIsQueue | clients/dropbear/amiga_dropbear.c:1073-1083 | bytes read are a prefix of bytes accepted; every unread byte is in its slot; the slot about to be stored holds none of them; the byte about to be read is the oldest; only counted refusals are lost |
| Console.KeysArrive | clients/dropbear/amiga_dropbear.c:1086-1144 | in every reachable state the bytes put and in hand are what the keys read mean, the ring took exactly those not refused, and what was read is a beginning of them |
| Console.KeysMean | clients/dropbear/amiga_dropbear.c:1118-1140 | the 8-bit CSI is ESC [, ASCII and bytes without a codeset are themselves, a high byte is the UTF-8 of its character and comes back exactly when it can |
| Console.ReadGives | clients/dropbear/amiga_dropbear.c:1237-1265 | a read gives out a pending Ctrl-C first, never more than was asked for, and less only when it finds the ring empty |
| Console.BreakKept | clients/dropbear/amiga_dropbear.c:1239-1249 | a Ctrl-C stays pending until a read gives it out, and nothing else gives one out |
| Console.RefusedIffFull | clients/dropbear/amiga_dropbear.c:1073-1083 | a byte is refused exactly when 255 are unread |
| Console.UnreadIffDiffer | clients/dropbear/amiga_dropbear.c:1230-1265 | head and tail differ exactly when something is unread |
| Console.RecordOutlivesChild | clients/dropbear/amiga_dropbear.c:1086-1223 | the child never runs without its record; the record goes only when the child has gone; no start finds one running |
| Console.NoLostWakeup | clients/dropbear/amiga_dropbear.c:1596-1695 | a parent blocked while the console is readable has its signal pending, or the child is a bounded number of unblockable steps from sending it |
| Console.StopEnds | clients/dropbear/amiga_dropbear.c:1211-1228 | a stopping parent can go on, or the child gets nearer its end with every step |
| ScpArgs.AppendShellArg | clients/dropbear/amiga_scp.c:450-481 | succeeds exactly when the argument has no CR or LF and its quoted form and NUL fit; then exactly that form is appended; what was there stays |
| ScpArgs.BuildLine | clients/dropbear/amiga_scp.c:686-712 | the line of a list of arguments with its newline, exactly when all are plain and it fits |
| ScpArgs.ArgvShim.ReadQuoted | clients/compat/amiga_argv.c:292-312 | a quoted word, unescaped, into the buffer |
| ScpArgs.ArgvShim.ReadBare | clients/compat/amiga_argv.c:314-318 | a bare word into the buffer |
| ScpArgs.ArgvShim.Tokenise | clients/compat/amiga_argv.c:279-323 | the words of the line, NUL-terminated one behind the other, with a pointer to each |
| ScpArgs.QuotedSpells | clients/dropbear/amiga_scp.c:450-481 | the quoted form is the one text, between quotes, in which exactly star, quote and dollar stand behind a star |
| ScpArgs.UnquoteQuoted | clients/dropbear/amiga_scp.c:450-481 | unescaping inverts escaping for every argument |
| ScpArgs.TokenRead | clients/compat/amiga_argv.c:279-323 | how any line is read: blanks, then a loose or quoted word with *n and *e, which is the next argument; cut at the end of the buffer, none past the 255th |
| ScpArgs.OpenQuoteRead | clients/compat/amiga_argv.c:292-312 | a quote never closed takes the rest of the line |
| ScpArgs.BlankRead | clients/compat/amiga_argv.c:281-284 | blanks alone are no argument |
| ScpArgs.RoundTrip | clients/dropbear/amiga_scp.c:450-481 | tokenising any line that fits returns its first 255 arguments, byte for byte, empty ones included |
| ScpArgs.HandOver | clients/compat/amiga_argv.c:279-323 | both programs on their buffers: whatever arguments scp accepts, ssh lays out exactly their first 255, each at its start in the vector and ended by a NUL |
| ScpArgs.LineDeterminesArguments | clients/dropbear/amiga_scp.c:450-481 | different argument lists give different lines, of any number and length |
| ScpChild.ScpClient.FdTake | clients/dropbear/amiga_scp.c:234-250 | the first free descriptor, every lower one being taken; refused exactly when none is free |
| ScpChild.ScpClient.StartSsh | clients/dropbear/amiga_scp.c:483-562 | both SegLists and the process, or every SegList loaded is unloaded again |
| ScpChild.ScpClient.DoCmd | clients/dropbear/amiga_scp.c:663-753 | succeeds exactly when no child is active, every call succeeds and two descriptors are free; then exactly the recorded things are held; every failing exit leaves held what was held before |
| ScpChild.StepKeeps | clients/dropbear/amiga_scp.c:564-777 | every call, every load or store of the wait, and every runner step or fault keeps: held is what the record names, nothing held was given back, what the runner uses outlives it |
| ScpChild.EveryStateOk | clients/dropbear/amiga_scp.c:564-777 | so this holds in every state of every run |
| ScpChild.GivenBackOnce | clients/dropbear/amiga_scp.c:564-777 | a SegList, handle or signal bit once given back is never held again |
| ScpChild.RunnerComesFirst | clients/dropbear/amiga_scp_runner.c:25-50 | while the runner is there its segment, handles and record are; nothing is ever released or used when it must not be; no start finds a runner |
| ScpChild.NothingLeft | clients/dropbear/amiga_scp.c:745-777 | with no child active nothing is held |
| ScpChild.CleanupLeavesSignal | clients/dropbear/amiga_scp.c:620-656 | after a cleanup of an active child only its signal bit is held and every descriptor is closed |
| ScpChild.StatusIsResultIff | clients/dropbear/amiga_scp.c:571-771 | the low byte of the status is 0 and the one above it the low byte of what ssh returned, 127 if negative, exactly when the wait did not presume the runner lost or that code reads as 20; so success is reported exactly for codes not negative with low byte 0 |
| ScpChild.StatusLost | clients/dropbear/amiga_scp.c:571-590 | that case is reachable: ssh returns 0 and posts it, and exit code 20 is reported |
| ScpChild.WaitEnds | clients/dropbear/amiga_scp.c:564-615 | each runner step nears its end; once it is gone each step of the wait nears its return, posted or not, exactly unless a later task has its address when scp asks |
| MemPipe.Mempipe.TryRead | clients/dropbear/include/amiga_stdio.h:59-96 | the oldest bytes, as many as there are and are asked for, across the end of the ring and of the 32-bit counters; end or wait exactly when empty; the writer is signalled; this is the read turn of the two-sided machine |
| MemPipe.Mempipe.TryWrite | clients/dropbear/include/amiga_stdio.h:102-141 | what there is room for joins the end and the reader is signalled; refused exactly when the reader closed, waits exactly when full; this is the write turn of the two-sided machine |
| MemPipe.Mempipe.EndReading | clients/dropbear/include/amiga_stdio.h:152-159 | the reader is closed and the writer signalled, wherever the writer is: the close step of the two-sided machine |
| MemPipe.Mempipe.EndWriting | clients/dropbear/include/amiga_stdio.h:161-168 | the writer is closed and the reader signalled, wherever the reader is: the close step of the two-sided machine |
| MemPipe.Joined | clients/dropbear/include/amiga_stdio.h:120-136 | the two copies put the bytes behind the queue and leave the queue as it is |
| MemPipe.NoLostWakeup | clients/dropbear/include/amiga_stdio.h:46-168 | one pipe: in every run a side that waits although it could go on has its signal pending, and both never wait without one |
| MemPipe.RunConserves | clients/dropbear/include/amiga_stdio.h:59-141 | over any run the bytes handed to the reader and those on the way are the bytes taken from the writer, in order |
| MemPipe.DuplexNoLostWakeup | clients/dropbear/amiga_scp.c:535-544 | both pipes on one bit per task, with stray signals of that bit: in every run a wait that could end has its signal pending |
| MemPipe.DuplexStuck | clients/dropbear/amiga_scp.c:535-544 | with both tasks waiting and nothing pending, each waits for data with both pipes empty and open, or each for room with both full |
| Glob.ClassMatch | clients/dropbear/amiga_scp.c:962-999 | a bracket class holds the byte, or not, or is unterminated, exactly as its members say, and where it ends |
| Glob.Fnmatch | clients/dropbear/amiga_scp.c:1001-1036 | ends, and true exactly for names in the language of the pattern as read |
| Glob.PieceMatches | clients/dropbear/amiga_scp.c:962-1036 | on pattern text, before any rest: * lets anything through; ?, a byte plain or escaped, and a class with spans, negation by ! or ^ and a leading ] each take one byte they admit |
| Glob.EndingMatches | clients/dropbear/amiga_scp.c:996-1036 | an empty pattern matches the empty name, a lone backslash itself, a class without its end nothing |
| Glob.EveryPattern | clients/dropbear/amiga_scp.c:962-1036 | every pattern is such pieces and such an ending |
| Glob.MatchesIffInLanguage | clients/dropbear/amiga_scp.c:1001-1036 | matching by trying every split is membership in the language of pieces |
| Glob.StarStar | clients/dropbear/amiga_scp.c:1007-1015 | two stars match what one does |
| Glob.CollapseStars | clients/dropbear/amiga_scp.c:1007-1015 | anywhere among the pieces of a pattern |
| Glob.CollapseStarText | clients/dropbear/amiga_scp.c:1007-1015 | and in its text: wherever a piece begins, two stars may be written as one |
| Glob.EscapedMatchesOnlyItself | clients/dropbear/amiga_scp.c:1030-1033 | a fully escaped name matches that name only |
| Pipes.DbPipe.Read | clients/dropbear/amiga_dropbear.c:182-214 | the front of the queue, as much as there is and is asked for; an empty pipe reads its file, ends, or asks to be tried again |
| Pipes.DbPipe.Write | clients/dropbear/amiga_dropbear.c:216-246 | what fits behind the unread bytes joins the queue, compaction or not; a sink takes nothing; all is reported written |
| Pipes.PipeTable.Pipe | clients/dropbear/amiga_dropbear.c:1733-1751 | the lowest two descriptors from 192 on that nobody holds and an empty queue; refused exactly when every pair has an open end; other pairs untouched |
| Pipes.PipeTable.Close | clients/dropbear/amiga_dropbear.c:248-275 | the end goes, the other stays open with its bytes; other pairs untouched |
| Pipes.PipeTable.ReadFrom | clients/dropbear/amiga_dropbear.c:182-214 | the write end is refused; otherwise what is returned and what stays make up what was there |
| Pipes.PipeTable.WriteTo | clients/dropbear/amiga_dropbear.c:216-246 | the read end is refused; otherwise the accepted part is appended |
| Pipes.RunCalls | clients/dropbear/amiga_dropbear.c:182-246 | any sequence of writes and reads on a pipe: what it gave out and what it holds are those of the queue, together the accepted bytes in order, at most 128 held |
| Pipes.BoundedQueue | clients/dropbear/amiga_dropbear.c:182-246 | that queue never holds more than 128 bytes and loses none it accepted |
| Pipes.DroppedIffFull | clients/dropbear/amiga_dropbear.c:236-246 | a write to it is cut short exactly when it does not fit, and then fills the 128 bytes |
| Pipes.GivenInOrder | clients/dropbear/amiga_dropbear.c:182-205 | a read from it gives the oldest bytes, all asked for or all held |
| ConWrite.Console.Write | clients/dropbear/amiga_dropbear.c:1270-1302 | whatever is flushed when, the bytes written are the CR-inserting transform of the input from the last byte on, which is remembered per descriptor |
| ConWrite.CrlfSplit | clients/dropbear/amiga_dropbear.c:1270-1302 | cutting the stream between two calls changes nothing |
| ConWrite.AnySplit | clients/dropbear/amiga_dropbear.c:1270-1302 | nor does any cutting |
| ConWrite.PairedMeans | clients/dropbear/amiga_dropbear.c:1292-1295 | paired output is output in which every LF follows a CR |
| ConWrite.CrlfPairs | clients/dropbear/amiga_dropbear.c:1292-1295 | output is paired, and exactly paired input goes out unchanged |
| ConWrite.Idempotent | clients/dropbear/amiga_dropbear.c:1292-1295 | writing the output again changes nothing |
| ConWrite.OnlyCrAdded | clients/dropbear/amiga_dropbear.c:1292-1295 | nothing but CRs before LFs is added and nothing is lost |
| ConWrite.OneCrEach | clients/dropbear/amiga_dropbear.c:1292-1295 | one byte is added for each LF without a CR in front, and no other |
| ArgvFilter.NamePrefix | clients/dropbear/amiga_dropbear.c:1337-1342 | true exactly when every byte of the prefix is met up to bit 5 |
| ArgvFilter.SameLetterMeans | clients/dropbear/amiga_dropbear.c:1337-1342 | two bytes are taken for the same exactly when they differ in bit 5 at most |
| ArgvFilter.CaseIgnored | clients/dropbear/amiga_dropbear.c:1337-1342 | a word and the same word with letters in the other case have one role |
| ArgvFilter.RolesUnique | clients/dropbear/amiga_dropbear.c:1468-1505 | the roles are the only ones that fit the words: a value behind a flag that takes one, the command from the second plain word on, flags and keywords by their looks, the host |
| ArgvFilter.Client.TakesNext | clients/dropbear/amiga_dropbear.c:1495-1501 | the next word goes with a word of flags exactly when its last flag takes a value and no earlier one does |
| ArgvFilter.Client.Filter | clients/dropbear/amiga_dropbear.c:1468-1505 | in place, the words left are those that are no keywords by role, and the name is that of the roles; nothing behind the list is touched |
| ArgvFilter.KeywordIff | clients/dropbear/amiga_dropbear.c:1477-1482 | a word is taken out exactly when it is a CHARSET= word, no remote command has begun and it is no flag value |
| ArgvFilter.KeptIsSelected | clients/dropbear/amiga_dropbear.c:1468-1505 | what stays is an in-order selection by role |
| ArgvFilter.CommandKept | clients/dropbear/amiga_dropbear.c:1484-1491 | the remote command stays word for word |
| ArgvFilter.Idempotent | clients/dropbear/amiga_dropbear.c:1468-1505 | a second pass takes nothing out and names nothing |
| ArgvFilter.NamedIsLast | clients/dropbear/amiga_dropbear.c:1479-1480 | the name is the last one that is not empty |
| Ones.AddAroundIsSum | bench/sumcheck.c:37-39 | end-around-carry addition of representatives is the representative of the sum, at any width |
| Ones.FoldIsSum | src/netdev/netdev_verify.c:21-26 | the 16-bit fold of any word is its 16-bit ones-complement representative |
| Ones.RfcIsTotal | include/aminetxduo/anxs2ext.h:13-19 | the word-by-word sum of section 1 of RFC 1071 is the representative of the plain total |
| CopySum.CopySumLongwords | bench/sumcheck.c:27-45 | an exact copy, nothing else changed, and the end-around-carry total of the longwords |
| CopySum.AccumulatorMeans | bench/sumcheck.c:37-39 | that total is the one word congruent to the sum modulo 2^32-1 that is zero only for all zeroes |
| CopySum.AccumulatorLaws | bench/sumcheck.c:37-39 | word order does not matter, and sums of pieces join with one more carry |
| CopySum.LongsLikeLanes | include/aminetxduo/anxs2ext.h:13-19 | longwords carry the 16-bit sum of the halves they are made of, padding included |
| CopySum.CopySumBytes | src/sana2/sana2_copy.c:216-271 | bytewise or by longwords, any length: an exact copy with one and the same accumulator, which folds to the RFC 1071 sum |
| CopySum.CopyPayloadSum | src/netdev/zz9000.c:581-624 | any phase and length: an exact copy, and a sum that folds to the RFC 1071 sum |
| RxVerify.HeaderChecks | src/netdev/netdev_verify.c:47-51 | true exactly when the header checksum is correct |
| RxVerify.Transport4 | src/netdev/netdev_verify.c:64-72 | with a correct header, the frame sum and the pseudo-header total decide the transport checksum |
| RxVerify.RxVerify4 | src/netdev/netdev_verify.c:28-75 | flagged exactly for IPv4 without options, no fragment, right length, both checksums correct, TCP or UDP with a checksum; no byte past the packet is read |
| RxVerify.Transport6 | src/netdev/netdev_verify.c:201-207 | adding the complement of the first eight bytes leaves addresses and segment |
| RxVerify.RxVerify6 | src/netdev/netdev_verify.c:177-209 | flagged exactly for IPv6 with TCP or UDP first, right length, correct checksum that is not zero for UDP |
| RxVerify.RxVerify | src/netdev/netdev_verify.c:212-221 | from any accumulator that folds to the packet sum, flagged exactly when the documented promise holds and the segment has room for its header |
| CertDer.ElementIff | tools/mkcertstore.py:100-122 | a header is read exactly where the encoding of an element with a single-byte tag and at most four length octets stands |
| CertDer.FrontExamples | tools/mkcertstore.py:100-122 | section 8.1.3 of X.690 on a short, a one-octet and a two-octet length |
| CertDer.SubjectNameDer | tools/mkcertstore.py:125-163 | the position-advancing walk is the specified one |
| CertDer.SubjectIff | tools/mkcertstore.py:125-163 | the walk answers exactly when the bytes hold certificate, TBSCertificate, optional version, four fields and subject, and then with that subject |
| CertDer.CertificateSubject | tools/mkcertstore.py:125-163 | of any certificate encoded from the inside out, with anything behind it, the subject comes back byte for byte |
| CertStore.Fnv1a | tools/mkcertstore.py:89-95 | the FNV-1a state of the data, the prime where that is zero |
| CertStore.HashMeans | tools/mkcertstore.py:89-95 | that state begins at 0x811C9DC5, and undoing its last multiplication leaves the one before with the last byte exclusive-ored in, bit by bit |
| CertStore.Collect | tools/mkcertstore.py:205-228 | the dictionary of first certificates by key; partial exactly when some certificate is too big or has no subject |
| CertStore.EntriesMean | tools/mkcertstore.py:205-228 | a key is in the dictionary exactly when some usable certificate has it, and its entry is one of those |
| CertStore.OrderFreeIff | tools/mkcertstore.py:223-228 | every order of the bundle gives one dictionary exactly when no key has two different certificates |
| CertStore.SharedSubjectConflicts | tools/mkcertstore.py:205-228 | any two different certificates with one subject conflict in every bundle that holds both |
| CertStore.RenewedRootConflicts | tools/mkcertstore.py:223-228 | two certificates that differ in their signature only: the dictionary depends on which comes first |
| CertStore.WriteStore | tools/mkcertstore.py:242-255 | the file of the sorted dictionary, or none exactly when a number does not fit 32 bits |
| CertStore.MakeStore | tools/mkcertstore.py:205-264 | from the certificates: a store exactly when there is one, all can be indexed, the roots are as many as asked for and every number fits; never empty or partial |
| CertStore.SortedUnique | tools/mkcertstore.py:242 | a dictionary has one sorted listing |
| CertStore.FileIsOrderFree | tools/mkcertstore.py:242-255 | so one bundle without conflicts gives one file |
| CertStore.FileDetermines | tools/mkcertstore.py:242-255 | two listings with one file are equal |
| CertStore.FileOrderFreeIff | tools/mkcertstore.py:242-255 | a bundle that was written gives the same file in every order exactly when it has no conflict |
| CertStore.RecordReads | tools/mkcertstore.py:248-252 | every record reads back as key, offset and length |
| CertStore.BlobReads | tools/mkcertstore.py:248-252 | and the bytes it points to are its certificate; the blobs lie back to back to the end of the file |
| CertStore.FileLayout | tools/mkcertstore.py:242-255 | the file byte by byte: ACS1, count, 16, where the data begins, twelve bytes a root, and the certificates where they point |
| CertStore.Open | src/tlslib/tls_store.c:172-242 | opened exactly when magic, count of 1 to 1024, index offset and length are right and memory is there; the index is what the records say |
| CertStore.StoreSame | src/tlslib/tls_store.c:282-319 | true exactly when header and every record of the file agree with the index, by sixteens |
| CertStore.Search | src/tlslib/tls_store.c:331-352 | finds an entry of the key; on a sorted index misses none |
| CertStore.Fetch | src/tlslib/tls_store.c:321-384 | only bytes of a record of that key, from a file that is still the indexed one, within the buffer; from a sorted index nothing readable is missed |
| CertStore.Reopened | src/tlslib/tls_store.c:172-242 | a written store opens exactly with 1 to 1024 certificates, and its index is the listing |
| CertStore.StoreRoundTrip | src/tlslib/tls_store.c:321-384 | fetching any key from a written and opened store answers exactly the certificate of that key, or nothing |
| CertStore.BundleRoundTrip | src/tlslib/tls_store.c:321-384 | from bundle to fetch: the answer is the first certificate of the bundle with that key, and nothing exactly when it has none |
| StackDepth.Walker.Depth | tools/stack-depth.py:145-166 | on every graph it ends, leaves the stack set as it was, and answers and remembers what the specified walk does |
| StackDepth.WalkExplained | tools/stack-depth.py:145-166 | on every graph, from any stack and right memo: the answer is a chain of the graph with its cost and lines; a recursion line only as 0 for a function on the stack |
| StackDepth.WalkDeepest | tools/stack-depth.py:145-166 | where what a function leads to can be ranked, the plain definition, memo or not |
| StackDepth.Walker.Report | tools/stack-depth.py:168-176 | on every graph the total is the frame sum of the lines, no line reports a recursion and a chain explains both; where the root reaches no recursion no chain goes deeper, where it reaches one that keeps a frame some chain does |
| StackDepth.RankedIffNoRecursion | tools/stack-depth.py:145-166 | what a root leads to can be ranked exactly when it reaches no recursion |
| StackDepth.NoDeepest | tools/stack-depth.py:149-150 | a root that reaches a recursion on which some frame is kept has chains deeper than any number |
| StackDepth.FigureRightIff | tools/stack-depth.py:145-176 | with every recursion the root reaches keeping a frame, the figure is right exactly when there is none |
| StackDepth.RememberedRightIff | tools/stack-depth.py:145-166 | on every graph: all figures remembered are right exactly when each covers its own calls and jumps by the figures remembered for those |
| StackDepth.FreeRecursionRight | tools/stack-depth.py:149-150 | a function without a frame that calls itself: a recursion, and the right figure |
| StackDepth.FreeRecursionWrong | tools/stack-depth.py:146-147 | a recursion that keeps no frame can leave too small an answer in the memo: five functions, a figure of 100 and a chain of 110 |
| StackDepth.LinesAddUp | tools/stack-depth.py:159 | the lines of any chain add up to its cost |
| StackDepth.ChainWithin | tools/stack-depth.py:145-166 | no chain costs more than the plain definition |
| StackDepth.DeepestIsMaximum | tools/stack-depth.py:145-166 | the plain definition is the maximum over all chains of calls and tail calls |
| StackDepth.OrderIrrelevant | tools/stack-depth.py:155-163 | where the root reaches no recursion, the order in which callees are visited does not matter |
| Crt0.Rev16Means | tools/fix-toolchain-crt0.py:144-152 | an involution that keeps the number of bits and names, in restore order, exactly the registers a save mask names |
| Crt0.ObjectFile.Repair | tools/fix-toolchain-crt0.py:830-901 | answer and file are those of the verdict function; untouched unless patched |
| Crt0.VerdictMeans | tools/fix-toolchain-crt0.py:830-886 | each answer exactly when: a function missing; exit saves nothing and ____start moves nothing; with one save in exit, every movem of ____start naming its registers, or one not and only a check asked for |
| Crt0.MismatchMeans | tools/fix-toolchain-crt0.py:888-896 | an instruction that is not there raises exactly when the file ends before a word that had to be compared |
| Crt0.ObjectFile.PatchFile | tools/fix-toolchain-crt0.py:887-899 | all patches or none reach the file |
| Crt0.OnlyMasks | tools/fix-toolchain-crt0.py:888-898 | only bytes of mask words found wrong differ |
| Crt0.SecondRunOk | tools/fix-toolchain-crt0.py:872-876 | after a patch a second run finds nothing wrong and exit as before |
| Crt0.RepairedFramesAgree | tools/fix-toolchain-crt0.py:868-876 | the repair run on a repaired file answers Ok and changes nothing; if exit restores what it saves, each save of ____start names the registers each restore of exit pops |

## Left out

- CopySum.CopySumLongwords: source and destination are different buffers; overlapping ones are not modelled.
- Pipes.DbPipe.Read: what Read() gives for a drained file is an argument; deleting the file is not modelled.
- StackDepth.FigureRightIff: asks that every recursion the root reaches keeps a frame; past one that keeps none the figure may be right or too small, depending on the order of the visits, and RememberedRightIff decides it from the figures remembered.
- ArgvFilter.Client.Filter: the closing NULL is not stored, the count says where it goes.
- The stack proper, drivers, ThreadX and NetX Duo glue, sockets, DOS and Intuition wrappers: input and output around what is modelled here.
- The source walk, triage table and name normalisers of the lock-order checker: heuristics over text.
- The console's resize notice is one flag, and the exits of select() for hosted descriptors are not modelled.
- The assembly and unrolled forms of copy-and-sum: only the routines written in C are modelled.
- Hardware verdicts and transmit offload in netdev_verify.c: structural tests without arithmetic.
- The issuer walk, fingerprint and digests of tls_store.c, and PEM reading and SHA-256 pinning of mkcertstore.py.
- Name canonicalisation, option parsing and file loading of stack-depth.py: the graph is an argument.
- The two argv repairs of fix-toolchain-crt0.py and its objdump parsing: instruction lists are arguments.
- What happens when two instructions of one listing overlap: SecondRunOk speaks of listings without overlap.
- kill(), the break forwarding and the file closing in scp's wait and cleanup: no held resource depends on them.
- Floating conversions, benchmarks, installers and ABI headers.
