# A verified model of TrustedGRUB's protocol, option, ring, measurement and map code

This project models the parts of GRUB Legacy with the TCG extension where a mistake is silent: a TFTP client used
as a random-access file system, GNU getopt's resumable scanner, two receive rings shared with a network chip, the
measured execution of commands, the device map, and the smaller pieces of arithmetic under them (decimal and
dotted-quad text, the DEPCA address PROM, disk geometry). Each is written in the form the C code has (classes with
the static variables as fields, loops with invariants, arrays changed in place) and proved against an independent
description of what it is for.

The main results:

* **TFTP.** The server is honest (sections 5 and 6 of RFC 1350, the Negotiation Protocol section of RFC 2347); the
  channel may lose packets of either side for good, duplicate and reorder them, a server may send its last packet
  again, requests may be answered more than once, and all of that is a schedule over which every theorem is
  quantified. Every packet heard is answered by exactly one acknowledgement (`HandleAnswers`, `RunAnswers`).
  Accepted blocks are exactly 1..prevblock, each once and in order (`TransferIsSafe`); a file can be fetched over
  some channel if and only if the server's answer suits the client and the file has at most 65535 blocks
  (`FetchableIff`), and for every state a transfer can get into it is proved exactly whether it can still be
  completed (`TransferCanFinishIff`): a timeout after an accepted OACK strands it for good (`TimeoutStrands`,
  `StrandedForGood`); every read at any position, forwards or backwards, hands out exactly the file's bytes
  (`TftpRead`, `OpenSeekRead`), and fails only beyond the end of the file or with an excuse that lies outside the
  client (`RunExcuse`); in a friendly world that has not fallen silent every read within the file succeeds.
* **getopt.** What is written as arguments is read back (`ParseUndoesWrite`): grouped flags, arguments attached,
  separate or left out, long options in every form, operands and errors. A whole run of calls returns the answers of
  a left-to-right reading of the original arguments, leaves argv as its stable partition and optind at the boundary
  (`ScanAll`). Scanning the permuted list again in strict order gives the same answers *if and only if* no option
  lacked its argument while there were non-options for it to take (`RescanAgrees`, `ScanTwice`; `RescanDiffers` is a
  concrete case). `exchange` is an exact rotation with (a + b) - gcd(a, b) swaps.
* **Receive rings.** The 8390's linked pages and the 8139's byte ring with its 32-bit cursor each refine a plain
  queue over every interleaving of chip and driver steps (`RunRing` against `FifoRun`), overrun recovery included.
  About these queues it is proved that frames come out in order, each once (`DeliveredInOrder`), how many polls
  deliver and empty them (`PollsDeliver`, `PollsEmptyIff`), and exactly when the 8390's head can ever come out
  (`HeadOutIff`): a frame of illegal size blocks it for good (`IllegalHeadBlocks`), and so does a full ring whose
  last frame was a damaged one.
* **Measured commands.** Over the command line and menu entries, exactly the measured lines that name a runnable
  builtin are run, each right after its measurement (`Faithful`, kept by every step), with variable expansion as the
  program does it. The register is the replay of the log, and equal registers mean equal logs unless the logs
  themselves exhibit a broken hash or extend operation (`EqualRegisters`). The log tells which commands were run if
  and only if each line does, and a runnable line does if and only if it refers to no variable (`DeterminedIff`,
  `SettledIff`, and `ExpandedSettledIff` for the other lines). Expansion is pinned down on the texts themselves
  (`KnownReplaced`, `UnknownDropped`, `ChainExpands`), and so is the argument a builtin gets (`RunIsWritten`). The
  walk of the command table finds every name if and only if its first occurrences are sorted; the program's own
  table, which its comment calls sorted, is not, and `vbematch` can never be run (`OnlyVbematchIsLost`).
* **DEPCA, device map, BIOS.** The naive signature matcher always holds the longest prefix, because of the
  signature's period; 39 reads suffice from any start. Which lines of a device map are ignored, mapped or malformed
  is stated character by character (`LineMeans`), and removing ignored ones changes nothing (`IgnoredLineRemoved`).
  What `init_device_map` writes is read back, and disagrees with the probed map only in floppies that could not be
  read. The fallback from LBA to CHS happens once, at the first failure, and no CHS call leaves the disk;
  `get_diskinfo` leaves a geometry `biosdisk` can divide by exactly when no emulated disk reports zero heads or
  sectors.

## Files

| file | what it holds |
|---|---|
| `Seqs.dfy` | bytes, options and facts about sequences |
| `Decimal.dfy` | `%d`, `%@`, getdec and inet_aton |
| `Oack.dfy` | reading an option acknowledgement |
| `TftpProtocol.dfy` | server, channel and client as a state machine, and its invariant |
| `TftpCompletion.dfy` | which transfers can be completed |
| `Tftp.dfy` | the client's buffer, window and entry points |
| `GetoptSpec.dfy` | what getopt returns, and the rescan theorem |
| `GetoptWriter.dfy` | options written as arguments are read back |
| `Getopt.dfy` | exchange and the scanner |
| `CircularBuffer.dfy` | reading and writing a byte ring |
| `PageQueue.dfy`, `ByteQueue.dfy` | the two receivers as plain queues, and what comes out of them |
| `Ns8390.dfy`, `Rtl8139.dfy` | the two drivers' receivers, refining these queues |
| `Commands.dfy`, `CommandTable.dfy` | finding a command, and the program's own table |
| `Variables.dfy` | variable expansion |
| `Cmdline.dfy` | measured command execution |
| `Attestation.dfy` | what register and log tell about the commands run |
| `Depca.dfy` | the DEPCA PROM |
| `DeviceMap.dfy` | the device map |
| `DeviceMapLines.dfy` | what its lines mean, character by character |
| `Bios.dfy` | disk geometry and transfers |

`dafny verify dfyconfig.toml` checks everything.

## Model

| member | source | states |
|---|---|---|
| `Decimal.GetdecAt` | netboot/misc.c:248-266 | returns the number the longest run of digits denotes, wrapped to 32 bits, with the pointer behind it; -1 and the pointer unmoved when there is no digit |
| `Decimal.RenderDigits` | netboot/misc.c:148-154 | the decimal numeral of n is a non-empty string of digits without leading zeros that denotes n |
| `Decimal.GetdecUndoesRender` | netboot/misc.c:248-266 | getdec reads back every non-negative int printed anywhere in memory and stops right behind it |
| `Decimal.EmitDigits` | netboot/misc.c:148-154 | the digit loop leaves the characters of any int reversed, within ten characters, with C's truncating division, and nothing before them changes |
| `Decimal.ReverseInPlace` | netboot/misc.c:156-163 | the two-pointer loop reverses exactly the segment and changes nothing else |
| `Decimal.FormatInt` | netboot/misc.c:137-164 | `%d` for every int, with the negation wrapping at INT_MIN |
| `Decimal.FormattedIsTextIff` | netboot/misc.c:137-164 | `%d` prints the sign and the numeral of the int exactly unless it is INT_MIN |
| `Decimal.IntMinIsGarbled` | netboot/misc.c:142-154 | for INT_MIN it prints `-./,),(-*,(` |
| `Decimal.FormatAddress` | netboot/misc.c:165-183 | `%@` yields the four octets with dots between them, for every address |
| `Decimal.InetAton` | netboot/misc.c:223-246 | succeeds exactly when four numbers up to 255 stand there with dots between them, and returns them in network order |
| `Decimal.OctetsIff` | netboot/misc.c:223-246 | a text is accepted as certain octets if and only if they stand at its start as numbers with dots between them |
| `Decimal.AtonUndoesFormat` | netboot/misc.c:223-246 | inet_aton after `%@` is the identity on all addresses |
| `Oack.ScanOack` | netboot/fsys_tftp.c:128-183 | the pointer loop computes the recursive reading of the option list, with its refusals, whatever bytes lie behind the packet |
| `Oack.ParseText` | netboot/fsys_tftp.c:135-179 | any option named blksize or tsize, wherever it stands and whatever its value: the leading digits count, none or a number negative as an int is refused, and so is a block size below 512 |
| `Oack.ParseOther` | netboot/fsys_tftp.c:132-183 | the list ends at its length or at a NUL name and is refused when overrun or at an option of any other name |
| `Oack.EncodedText` | netboot/fsys_tftp.c:135-148 | blksize and tsize on the wire, character by character |
| `Oack.ParseEncoded` | netboot/fsys_tftp.c:132-183 | any list of decimal blksize and tsize options is read as applying the options one after the other |
| `Oack.ReadOackEncoded` | netboot/fsys_tftp.c:128-183 | the same for a whole packet with stale bytes behind it |
| `Oack.ApplyIsLastValues` | netboot/fsys_tftp.c:135-155 | the list is accepted exactly when every blksize is at least 512, and then the last value of each option counts |
| `TftpProtocol.BlockExtends` | netboot/fsys_tftp.c:245-251 | appending the next block keeps the data a prefix of the file, and the block is short exactly when it is the last one |
| `TftpProtocol.AwaitKeeps` | netboot/fsys_tftp.c:68-68 | whatever servers and channel do while the client waits keeps the invariant and the file |
| `TftpProtocol.AcceptKeeps` | netboot/fsys_tftp.c:211-251 | the expected block is acknowledged under its own number and appended, and the invariant survives |
| `TftpProtocol.OackStep` | netboot/fsys_tftp.c:112-188 | any OACK, early, repeated or late, keeps the invariant; filemax becomes the file's size or stays |
| `TftpProtocol.DataStep` | netboot/fsys_tftp.c:189-251 | any data packet, expected, duplicated or old, keeps the invariant; every ACK names the block accepted last |
| `TftpProtocol.HandleAnswers` | netboot/fsys_tftp.c:186-224 | every packet heard, expected, repeated or old, is answered by exactly one packet, the acknowledgement of the block accepted last, and nothing else is acknowledged |
| `TftpProtocol.RunAnswers` | netboot/fsys_tftp.c:57-252 | over any run the acknowledgements sent are one for each packet heard, of the block accepted last at that time, and the repetitions of the timeouts |
| `TftpProtocol.HandleKeeps` | netboot/fsys_tftp.c:103-251 | every deliverable packet keeps the invariant and accepts at most the next block |
| `TftpProtocol.TimeoutKeeps` | netboot/fsys_tftp.c:68-101 | a timeout repeats the packet the client holds at most 20 times and never after an accepted block, from a fresh port where only a request can be answered |
| `TftpProtocol.IterateKeeps` | netboot/fsys_tftp.c:57-252 | one round of buf_fill keeps the invariant, only adds data and moves at most one block on |
| `TftpProtocol.RunKeeps` | netboot/fsys_tftp.c:57-252 | so does any number of rounds |
| `TftpProtocol.TransferIsSafe` | netboot/fsys_tftp.c:57-255 | in every run from a request, the data is a prefix of the file, prevblock equals bcounter as integers, end of file means the whole file, a packet is repeated at most 20 times, and the acknowledgements sent never go back, never skip a block and end with prevblock, every accepted block among them |
| `TftpProtocol.AllAcknowledged` | netboot/fsys_tftp.c:211-224 | acknowledgements that never skip name every block up to the last |
| `TftpProtocol.RequestCoherent` | netboot/fsys_tftp.c:258-299 | sending a request establishes the invariant from any state |
| `TftpProtocol.IterateProgress` | netboot/fsys_tftp.c:57-101 | a round that goes on uses up part of the world's schedule or one retry, so buf_fill ends |
| `TftpProtocol.AbortedRound` | netboot/fsys_tftp.c:226-230 | an aborting round accepts no data, and goes on only where it would have gone on otherwise |
| `TftpProtocol.AbortStops` | netboot/fsys_tftp.c:212-230 | when an aborting round stops, the error packet has been sent and the end of the file is set |
| `TftpProtocol.AbortFilemax` | netboot/fsys_tftp.c:151-170 | an aborting round leaves the file size as it was or makes it the right one |
| `TftpProtocol.IterateFailsIff` | netboot/fsys_tftp.c:68-172 | a round fails if and only if the user interrupts, a server reports an error, a first answer does not suit, or time runs out after an accepted block, after 20 repetitions or with no way to send |
| `TftpProtocol.IterateExcuse` | netboot/fsys_tftp.c:68-172 | a round fails only after silence, an interrupt, a failed send, a server error or unsuitable options |
| `TftpProtocol.RunExcuse` | netboot/fsys_tftp.c:57-255 | the same for a whole run of buf_fill |
| `TftpProtocol.FriendlyExcuse` | netboot/fsys_tftp.c:68-172 | without trouble, server errors and unsuitable options, the only way to fail is a world that has fallen silent |
| `TftpCompletion.RunLive` | netboot/fsys_tftp.c:57-255 | in every run some server session is as far as the client, whatever has been lost, and every session can send its last packet again |
| `TftpCompletion.AnsweredCompletes` | netboot/fsys_tftp.c:57-252 | from any state of an answered transfer whose answer suits the client and whose file has at most 65535 blocks, some schedule leads to the end of the file |
| `TftpCompletion.RequestedCompletes` | netboot/fsys_tftp.c:57-252 | so it does while the request waits for an answer, with any answer that suits |
| `TftpCompletion.RepeatCompletes` | netboot/fsys_tftp.c:73-84 | and while the request can be repeated |
| `TftpCompletion.RunHopeless` | netboot/fsys_tftp.c:57-255 | otherwise no run reaches the end of the file |
| `TftpCompletion.CanFinishIff` | netboot/fsys_tftp.c:57-255 | an unfinished transfer can be completed by some schedule if and only if the answer given will do, or some answer would and the request waits or can be repeated |
| `TftpCompletion.TransferCanFinishIff` | netboot/fsys_tftp.c:57-299 | the same for every state reached from a request, over every schedule |
| `TftpCompletion.SomeAnswerIff` | netboot/fsys_tftp.c:432-436 | some answer would do if and only if the file has at most 65535 blocks of the size asked for |
| `TftpCompletion.FetchableIff` | netboot/fsys_tftp.c:205-213 | with a given answer some channel lets the client fetch the whole file if and only if the answer suits it and the file has at most 65535 blocks |
| `TftpCompletion.TimeoutStrands` | netboot/fsys_tftp.c:73-84 | a timeout after an accepted OACK that goes on leaves the client stranded: the request is gone, and what it repeats is the acknowledgement |
| `TftpCompletion.StrandedForGood` | netboot/fsys_tftp.c:57-101 | a stranded client accepts nothing more and never reaches the end of the file, whatever happens |
| `Tftp.TftpClient.Append` | netboot/fsys_tftp.c:245-247 | the payload lands behind the buffered data |
| `Tftp.TftpClient.Accept` | netboot/fsys_tftp.c:237-251 | accepting a block updates exactly prevblock, retry, bcounter, the end flag and the buffer |
| `Tftp.TftpClient.AcknowledgeBlock` | netboot/fsys_tftp.c:211-251 | the in-place code does what the protocol's acknowledging step does, and the buffer grows by exactly the accepted payload |
| `Tftp.TftpClient.Timeout` | netboot/fsys_tftp.c:68-101 | the in-place code does what the protocol's timeout step does |
| `Tftp.TftpClient.Round` | netboot/fsys_tftp.c:59-251 | one pass of the loop body refines one round of the protocol |
| `Tftp.TftpClient.CheckedRound` | netboot/fsys_tftp.c:59-251 | and keeps the buffer the tail of the data received |
| `Tftp.TftpClient.BufFill` | netboot/fsys_tftp.c:50-255 | it is a run of the protocol; on success the buffer is full or the whole file has arrived; failure has an excuse; with abort nothing is accepted, and unless the buffer had no room the error packet has been sent |
| `Tftp.TftpClient.SendRrq` | netboot/fsys_tftp.c:258-299 | forgets the transfer, empties the window and sends the request from a fresh port |
| `Tftp.TftpClient.WindowIsFile` | netboot/fsys_tftp.c:357-389 | buf[0..buf_read) is file[saved_filepos..saved_filepos + buf_read), within the buffer |
| `Tftp.TftpClient.Slide` | netboot/fsys_tftp.c:375-382 | moving half the buffer down keeps the window exact |
| `Tftp.TftpClient.CopyOut` | netboot/fsys_tftp.c:366-369 | the bytes handed out are the file's at filepos, and nothing else at addr changes |
| `Tftp.TftpClient.Serve` | netboot/fsys_tftp.c:359-389 | a round hands out file bytes and advances filepos, or empties the window up to filepos |
| `Tftp.TftpClient.Refill` | netboot/fsys_tftp.c:391-396 | refilling grows the window; without new data the whole file has been received |
| `Tftp.TftpClient.Reopen` | netboot/fsys_tftp.c:328-355 | a backward seek gives a fresh window at the start of the same file |
| `Tftp.TftpClient.ReadRound` | netboot/fsys_tftp.c:357-404 | a round that hands out nothing brings the window nearer to filepos; failure means the end of the file or an excuse |
| `Tftp.TftpClient.ReadForward` | netboot/fsys_tftp.c:357-406 | the loop ends by the measure (size, distance to the window's end) and delivers exactly size bytes |
| `Tftp.TftpClient.TftpRead` | netboot/fsys_tftp.c:318-407 | returns size with file[filepos..filepos + size) stored and filepos advanced, or 0 with an error, which happens only beyond the end of the file or with an excuse, and is a write error only on a seek backwards |
| `Tftp.TftpClient.CountRound` | netboot/fsys_tftp.c:462-474 | every byte received is counted once |
| `Tftp.TftpClient.CountBytes` | netboot/fsys_tftp.c:455-478 | the counting loop ends, and sets filemax to the file's length |
| `Tftp.TftpClient.OpenAndFill` | netboot/fsys_tftp.c:427-453 | a first request and fill from any state, with the window at the start of the file |
| `Tftp.TftpClient.TftpDir` | netboot/fsys_tftp.c:411-485 | asked for completions it changes nothing; otherwise on success filemax is the file's exact length, with or without tsize, and the file is open at its start; failure has an excuse, and is a write error when the request cannot be sent |
| `Tftp.TftpClient.TftpClose` | netboot/fsys_tftp.c:488-497 | nothing more is accepted, the buffer is empty, and an unfinished transfer is ended by an error packet unless there is an excuse |
| `Tftp.SeekAndRead` | netboot/fsys_tftp.c:318-407 | a read after an arbitrary seek answers with the file's bytes there, or with nothing for a reason |
| `Tftp.OpenSeekRead` | netboot/fsys_tftp.c:318-485 | for any even buffer that holds a packet, any run of one open and arbitrary seeks and reads: the size is exact and every answer is the file's bytes; in a friendly world that has not fallen silent every read within the file is answered |
| `GetoptSpec.LookupFollowsRule` | lib/getopt.c:652-743 | first exact name, else the only abbreviation, else ambiguous or unknown |
| `GetoptSpec.DecodeIgnoresNext` | lib/getopt.c:719-733 | an option that takes no separate argument decodes the same whatever follows it |
| `GetoptSpec.MissingNeedsNext` | lib/getopt.c:943-961 | an option that lacked its argument takes the next element as soon as there is one, with another answer |
| `GetoptSpec.PartitionPermutes` | lib/getopt.c:171-178 | the final argv is a permutation of the original |
| `GetoptSpec.RescanAgrees` | lib/getopt.c:556-613 | scanning the permuted list in strict order gives the same answers and boundary if and only if no missing-argument error met a non-option to take |
| `GetoptSpec.RescanDiffers` | lib/getopt.c:943-962 | `a -x` where -x wants an argument: an error first, option -x with argument a the second time |
| `GetoptWriter.NamesAreFound` | lib/getopt.c:652-743 | the first option of exactly that name, else the only one it begins, is found; a name that begins several or none is ambiguous or unknown |
| `GetoptWriter.ReadFlag` | lib/getopt.c:772-791 | a flag is answered by itself; a colon or a character that is not in the option string by `?` with it in optopt; the element ends with its last character |
| `GetoptWriter.ReadArgument` | lib/getopt.c:919-962 | an option with an argument takes exactly the text behind it; without one, `::` leaves it out and `:` takes the next element, or is answered `:` or `?`, by the first character of the option string, with the option in optopt |
| `GetoptWriter.ReadLong` | lib/getopt.c:637-743 | `--name`, `--name=value` and `--name value`, exact or abbreviated, with one dash where long_only allows it: return value or 0, argument, longind; an unwanted value, an ambiguous and an unknown name are errors with the right optopt |
| `GetoptWriter.ReadLacking` | lib/getopt.c:719-733 | a long option at the end that lacks its argument is answered `:` or `?` with its value in optopt |
| `GetoptWriter.ReadFallsThrough` | lib/getopt.c:745-768 | with long_only and one dash, what no long name begins like is read as a short option |
| `GetoptWriter.ParseUndoesWrite` | lib/getopt.c:514-967 | any list of options written as grouped flags, attached, separate or left-out arguments, long options in every form, operands and one of five endings is read as exactly those options, arguments, indices and errors, in either ordering |
| `GetoptWriter.PartitionOfWritten` | lib/getopt.c:556-590 | the permuted list is the words of the options in order, and behind them the operands in order |
| `Getopt.GcdIsGreatest` | lib/getopt.c:343-379 | the number in the swap count is the greatest common divisor of the two lengths |
| `Getopt.SwapBlocks` | lib/getopt.c:352-358 | the inner loop swaps two equally long blocks and nothing else, with one swap for each element |
| `Getopt.RotateStep` | lib/getopt.c:343-379 | one round keeps the rotation still to be done, the surroundings and the gcd, and shrinks the rest by the swaps it made |
| `Getopt.Rotate` | lib/getopt.c:343-379 | argv[first..last) and argv[last..optind) change places, the rest stays, with (a + b) - gcd(a, b) swaps, counted where they are made |
| `Getopt.FindLong` | lib/getopt.c:649-675 | the search loop computes the declarative lookup |
| `Getopt.Scanner.ShortOption` | lib/getopt.c:772-966 | answer, optarg, optopt, optind and nextchar are those of decoding one short option, which ReadFlag and ReadArgument state on the option string |
| `Getopt.Scanner.FoundLong` | lib/getopt.c:688-743 | the same for a long option that has been found, its argument and its errors |
| `Getopt.Scanner.LongOptionBranch` | lib/getopt.c:637-768 | the same for the whole long-option branch, with its fall-through to short options |
| `Getopt.Scanner.DecodeOption` | lib/getopt.c:622-966 | decoding in place equals the specification's decoding of the element and its successor |
| `Getopt.Scanner.Initialize` | lib/getopt.c:393-423 | ordering from the environment and an empty range of non-options at optind |
| `Getopt.Scanner.Exchange` | lib/getopt.c:307-385 | rotates exactly the two ranges and relocates both indices |
| `Getopt.Scanner.Gather` | lib/getopt.c:561-564 | afterwards all options passed stand before all non-options passed, each in original order |
| `Getopt.Scanner.SkipNonOptions` | lib/getopt.c:566-571 | passes the non-options ahead and no more |
| `Getopt.Scanner.EndAtDashes` | lib/getopt.c:574-590 | `--` goes with the options, all behind it with the non-options, and the partition is final |
| `Getopt.Scanner.Advance` | lib/getopt.c:545-620 | either the scan is over with the final partition, or nextchar stands at the next option element |
| `Getopt.Scanner.NextAnswer` | lib/getopt.c:622-966 | one more answer of the reading of the original arguments, with optind or nextchar strictly further |
| `Getopt.Scanner.GetoptInternal` | lib/getopt.c:514-967 | each call keeps first_nonopt <= last_nonopt <= optind <= argc and the arrangement of argv, adds one answer and strictly decreases what is left; -1 means the whole list was read |
| `Getopt.ScanAll` | lib/getopt.c:514-967 | calling until -1 ends; the answers are those of the original argv, argv is its stable partition, optind the boundary |
| `Getopt.ScanTwice` | lib/getopt.c:514-967 | a PERMUTE run and a strict run on its result agree in answers and optind exactly under RescanAgrees' condition |
| `CircularBuffer.ReadSplit` | netboot/rtl8139.c:421-434 | reading a ring in two parts is reading it in one |
| `CircularBuffer.ReadBack` | netboot/rtl8139.c:407-434 | what was written is read back, wrapped or not |
| `CircularBuffer.AppendRing` | netboot/rtl8139.c:407-441 | writing behind the bytes in use appends to them and leaves them alone |
| `CircularBuffer.ReadWindow` | netboot/ns8390.c:483-498 | a ring at the end of memory is read as one piece or as two |
| `Ns8390.FrameInMemory` | netboot/ns8390.c:467-498 | where a frame's one or two pieces lie, the first of two being of even length |
| `Ns8390.HeadFacts` | netboot/ns8390.c:447-516 | the header at the page after BOUND gives the head frame's length, its bytes and the page of the next one, which is cyclically nearer to CURR |
| `Ns8390.StoresPages` | netboot/ns8390.c:449-455 | the cyclic distance from the next page to CURR is the number of pages the queued frames take up |
| `Ns8390.Driver.Reset` | netboot/ns8390.c:218-282 | the ring is empty with BOUND the cyclic predecessor of CURR |
| `Ns8390.Driver.CopyOut` | netboot/ns8390.c:108-146 | rounding the count up in 16-bit mode copies the bytes asked for and nothing before them |
| `Ns8390.Driver.ReadFrame` | netboot/ns8390.c:481-498 | the one or two copies are the circular reading behind the header |
| `Ns8390.Driver.Release` | netboot/ns8390.c:512-515 | BOUND becomes the cyclic predecessor of the link |
| `Ns8390.Driver.TakeHead` | netboot/ns8390.c:449-516 | delivers the head of the queue without its check sequence exactly when its size is legal, and brings BOUND nearer to CURR |
| `Ns8390.Driver.Poll` | netboot/ns8390.c:431-517 | recovers from an overrun first; otherwise delivers the head exactly when the receive status and its size allow it |
| `Ns8390.Driver.RxOverrun` | netboot/ns8390.c:290-334 | the recursion ends one level deep, and the queue is emptied up to the first frame of illegal size |
| `Ns8390.TakeStep` | netboot/ns8390.c:431-517 | one arrival or poll is one step of the plain queue |
| `Ns8390.RunRing` | netboot/ns8390.c:431-517 | from any state, any interleaving of arrivals and polls gives the outputs and the state of the plain queue |
| `PageQueue.DrainedIs` | netboot/ns8390.c:325-330 | recovery from an overrun throws away exactly the frames of legal size at the head |
| `PageQueue.DrainedIsEmptyIff` | netboot/ns8390.c:325-330 | it empties the ring exactly when every frame in it is of legal size |
| `PageQueue.LegalIff` | netboot/ns8390.c:475-476 | a frame is legal if and only if it has 60 to 1514 bytes |
| `PageQueue.DeliveredInOrder` | netboot/ns8390.c:431-517 | from any state, frames queued and stored are those gone followed by those still queued; delivered ones are among those gone, in order and once; without overflow they are all of them |
| `PageQueue.IllegalHeadBlocks` | netboot/ns8390.c:475-479 | a frame of illegal size at the head blocks the ring for good: every continuation delivers nothing and keeps the queue as a prefix |
| `PageQueue.PollsDeliver` | netboot/ns8390.c:447-516 | k polls deliver the first k frames of legal size at the head, and none while the last frame heard was damaged |
| `PageQueue.PollsEmptyIff` | netboot/ns8390.c:447-516 | k polls empty the ring exactly when PRX is set, all frames are legal and there are at most k |
| `PageQueue.HeadOutIff` | netboot/ns8390.c:440-479 | some continuation that leaves the queue alone delivers the head exactly when it is legal and either PRX is set with no overrun pending or another frame still fits |
| `Rtl8139.CursorAdvances` | netboot/rtl8139.c:440-440 | after any delivery, also across 2^32, the cursor stays a multiple of four and its ring offset is the next frame's |
| `Rtl8139.AdvanceFacts` | netboot/rtl8139.c:440-441 | and the chip's register names the same offset, with the bytes in use shrunk by the frame's |
| `Rtl8139.HeadInRing` | netboot/rtl8139.c:407-434 | a header never straddles the end of the ring, and its frame is the circular reading behind it |
| `Rtl8139.Driver.Reset` | netboot/rtl8139.c:285-292 | the cursor is zero and the ring empty |
| `Rtl8139.Driver.ChipUsed` | netboot/rtl8139.c:395-397 | the bytes in use the chip derives from its registers are those of the queued frames, so RxBufEmpty means an empty queue |
| `Rtl8139.Driver.CopyFrame` | netboot/rtl8139.c:421-434 | the one or two copies are the circular reading of rx_size - 4 bytes |
| `Rtl8139.Driver.Advance` | netboot/rtl8139.c:440-441 | chip and driver agree on the next frame's start |
| `Rtl8139.Driver.Poll` | netboot/rtl8139.c:389-447 | delivers the head without its check sequence exactly when status and size allow it, and otherwise leaves an empty ring |
| `Rtl8139.RunRing` | netboot/rtl8139.c:389-447 | from any state, any interleaving of arrivals and polls, for any number of frames, gives the outputs and the state of the plain queue |
| `ByteQueue.DeliveredInOrder` | netboot/rtl8139.c:389-447 | frames come out in order and once, and those gone were all delivered exactly when all of them were deliverable |
| `ByteQueue.GoodStatusIff` | netboot/rtl8139.c:412-412 | the status is good if and only if none of the five error bits 0x20, 0x10, 8, 4 and 2 is set |
| `ByteQueue.DeliverableIff` | netboot/rtl8139.c:412-413 | a frame is handed out if and only if none of these bits is set and it has, without its check sequence, 56 to 1514 bytes |
| `ByteQueue.PollsDeliver` | netboot/rtl8139.c:407-446 | k polls deliver the first k deliverable frames at the head; the poll after them empties the ring |
| `ByteQueue.PollsEmptyIff` | netboot/rtl8139.c:407-446 | so the ring never stays blocked: k polls empty it exactly when there are at most k frames or one of the first k cannot be delivered |
| `Commands.SkipTo` | stage2/cmdline.c:75-89 | the rest of the text behind the first word and the blanks after it |
| `Commands.WordIsLongest` | stage2/cmdline.c:78-81 | the first word is the longest prefix without blanks |
| `Commands.DropBlanksIsSuffix` | stage2/cmdline.c:83-86 | what is left is the longest suffix not starting with a blank |
| `Commands.SkipWritten` | stage2/cmdline.c:75-89 | of a line written as name, blanks and rest, the word is the name and skipping to the second word leaves exactly the rest |
| `Commands.StrcmpTransitive` | stage2/char_io.c:988-1002 | the comparison, with plain chars signed, is transitive |
| `Commands.StrcmpFlips` | stage2/char_io.c:988-1002 | and antisymmetric |
| `Commands.StrcmpDecides` | stage2/char_io.c:988-1002 | behind a common beginning the first chars decide, taken as signed, with zero for the end of a string |
| `Commands.Walk` | stage2/cmdline.c:118-131 | for any table, entry i is found if and only if it has the name and every entry before it precedes the name |
| `Commands.FindCommand` | stage2/cmdline.c:103-137 | names the entry the walk finds for the line's first word, and leaves every byte of the line as it was |
| `Commands.FoundIff` | stage2/cmdline.c:118-131 | a name in the table is found if and only if the entries before its first one all precede it |
| `Commands.EveryEntryFoundIff` | stage2/builtins.c:6271-6272 | every entry is found under its name if and only if the table is strictly sorted |
| `Commands.EveryNameFoundIff` | stage2/builtins.c:6271-6272 | every name is found if and only if the table is sorted but for entries that repeat an earlier name |
| `CommandTable.OnlyVbematchIsLost` | stage2/builtins.c:6271-6369 | with the program's table every command is found, except vbematch, which never is |
| `CommandTable.VbematchIsLost` | stage2/builtins.c:6366-6369 | the same for the table of any configuration, which therefore is not sorted |
| `Variables.VarSprintOnce` | stage2/builtins.c:5421-5470 | one round is what KnownReplaced, UnknownDropped and PlainStays say about the text |
| `Variables.KnownReplaced` | stage2/builtins.c:5421-5470 | `pre$(name)post`, with no reference opened in pre, becomes pre, the value of name and the expansion of post |
| `Variables.UnknownDropped` | stage2/builtins.c:5440-5463 | without a value the reference disappears, and the next character is copied unread |
| `Variables.PlainStays` | stage2/builtins.c:5421-5470 | a text without a reference stays as it is |
| `Variables.VarSprint` | stage2/builtins.c:5472-5505 | rounds are made until nothing changes, ten at most |
| `Variables.RoundsAreTimes` | stage2/builtins.c:5472-5505 | stopping when nothing changes is making all the rounds |
| `Variables.ChainExpands` | stage2/builtins.c:5472-5505 | a chain of at most ten variables, each the value of the one before, is expanded to its end, and a longer one is left at its eleventh variable |
| `Variables.RoundsSettle` | stage2/builtins.c:5481-5495 | the result is reached by a chain of rounds and is its own expansion, unless all ten were needed |
| `Variables.UnchangedIff` | stage2/builtins.c:5421-5505 | a text is its own expansion whatever the variables, if and only if it has no reference |
| `Cmdline.EqualPcrEqualLogs` | stage2/cmdline.c:33-69 | if two logs replay to the same value they are equal, or at the same distance from their ends they have two different lines with the same hash or two different pairs of register and hash that extend to the same value, or a part of one of them leads back to the start |
| `Cmdline.ReplayGoesOn` | stage2/cmdline.c:33-69 | replaying no line leaves the register, one line extends it by its hash, and two logs one after the other are replayed one after the other |
| `Cmdline.FaithfulStep` | stage2/cmdline.c:281-324 | a measured line followed by its run keeps the trace faithful, with the variables the builtins have left |
| `Cmdline.FaithfulIdle` | stage2/cmdline.c:281-316 | so does a measured line that names no runnable builtin |
| `Cmdline.RunIsWritten` | stage2/cmdline.c:219-323 | whatever a faithful trace ran on a text written as name, blanks and rest is the builtin of that name with exactly the rest as argument |
| `Cmdline.EntriesOfScript` | stage2/cmdline.c:255-281 | the entries of a script are the lines it was written from |
| `Cmdline.Shell.InitCmdline` | stage2/cmdline.c:139-157 | no error and no kernel loaded; log and register stay |
| `Cmdline.Shell.ExtendCmdline` | stage2/cmdline.c:33-69 | the line's hash is extended when a TPM is present, and the register stays the replay of the log |
| `Cmdline.Shell.CommandLine` | stage2/cmdline.c:180-224 | a typed line is run exactly when it is not empty and names a runnable builtin, with the argument RunIsWritten states, and measured before exactly then |
| `Cmdline.Shell.EnterCmdline` | stage2/cmdline.c:162-225 | the log grows by exactly the runnable lines, in order, up to the escape key or the first command that never returns |
| `Cmdline.Shell.ScriptLine` | stage2/cmdline.c:281-324 | an entry is measured as written, and its expansion with the variables of the time is run exactly when it names a runnable builtin |
| `Cmdline.Shell.RunEntries` | stage2/cmdline.c:237-325 | the log grows by exactly the entries up to the first that fails, is unknown or never returns, each expanded with the variables the ones before have left |
| `Cmdline.Shell.RunScript` | stage2/cmdline.c:230-326 | and by the implicit boot exactly when all entries completed and the last left a kernel loaded, none being loaded at the start; the return value says which |
| `Attestation.EqualRegisters` | stage2/cmdline.c:33-69 | equal registers of two machines mean equal logs of measured lines, unless the logs themselves exhibit a broken hash or extend operation |
| `Attestation.FaithfulExplained` | stage2/cmdline.c:212-220 | in a faithful trace, what was run for a measured line is what its text names, the text being the line or an expansion of it |
| `Attestation.DeterminedIff` | stage2/cmdline.c:281-324 | a log tells which commands were run if and only if each of its lines does |
| `Attestation.SettledIff` | stage2/cmdline.c:212-285 | a line that can be run as it stands tells it if and only if it refers to no variable: typed it runs as it stands, in a menu entry expanded, measured alike |
| `Attestation.ExpandedSettledIff` | stage2/cmdline.c:281-324 | a line that cannot be run as it stands tells it if and only if no expansion of it is ever run or all its expansions are the same |
| `Attestation.PlainCommandSettledIff` | stage2/cmdline.c:281-324 | a line whose first word is free of `$` and followed by a blank tells it if and only if it refers to no variable or is not run |
| `Attestation.LeadingReferenceHides` | stage2/cmdline.c:281-324 | a line that begins with a reference never tells it, as long as there is a command to run |
| `Attestation.CommandStays` | stage2/builtins.c:5421-5505 | expansion does not change a first word free of `$` and followed by a blank |
| `Attestation.LogHidesTheKernel` | stage2/cmdline.c:212-285 | the log line `kernel $(k)` does not tell which command was run |
| `Attestation.AttestedRuns` | stage2/cmdline.c:33-69 | equal registers and no reference in the log mean that the same commands were run, unless the logs exhibit a broken hash or extend operation |
| `Depca.TrackIsLongest` | netboot/depca.c:680-686 | after every byte j is the length of the longest signature prefix the stream ends with |
| `Depca.FindSignature` | netboot/depca.c:680-688 | stops right behind the first occurrence, or there is none in the bytes read |
| `Depca.ReadsSuffice` | netboot/depca.c:657-662 | wherever the counter of a 32-byte PROM starts, a signature in it shows up within 39 reads |
| `Depca.OccurrenceIsSignature` | netboot/depca.c:657-662 | an occurrence in the reads is a signature in the PROM |
| `Depca.ProbeProm` | netboot/depca.c:657-688 | the probe succeeds exactly when the PROM holds the signature, with the counter right behind it |
| `Depca.Checksum` | netboot/depca.c:698-708 | for any number of words the sum is the doubling sum modulo 65535 |
| `Depca.SumOfAddress` | netboot/depca.c:698-704 | for the six octets of an address the doubling sum is four times the first word, twice the second and the third |
| `DeviceMap.ParseLine` | lib/device.c:533-599 | classifies a line as ignored, malformed or an entry, as LineMeans states it, with strtoul's signs, blanks and overflow |
| `DeviceMapLines.LineMeans` | lib/device.c:533-599 | character by character: a line is ignored if and only if it starts with `#`, holds only blanks or names a drive above 127; it maps a drive to a name if and only if it is `(fdN) name` or `(hdN) name` between blanks with N up to 127, whatever follows behind a blank; every other line is malformed |
| `DeviceMapLines.PieceTaken` | lib/device.c:521-523 | how fgets takes a file apart: a line with its newline, or 1023 characters of a longer one, or what is left |
| `DeviceMapLines.LinesJoin` | lib/device.c:521-523 | behind a newline the rest of a file is read by itself |
| `DeviceMapLines.IgnoredLineRemoved` | lib/device.c:533-543 | without a line that is ignored the file is accepted exactly as before and makes the same map |
| `DeviceMap.AddEntry` | lib/device.c:601-609 | an entry is added exactly when it is well formed and its drive is free |
| `DeviceMap.ReadDeviceMap` | lib/device.c:494-613 | succeeds exactly when no line is malformed and no drive is named twice; the map then has exactly the file's drives; on failure exactly the lines before the bad one count |
| `DeviceMap.StrtoulUndoesRender` | lib/device.c:560-561 | strtoul reads back a printed number |
| `DeviceMap.ClassifyUndoesPrint` | lib/device.c:533-599 | a printed line is read as the drive and name it was printed for |
| `DeviceMap.ReadBack` | lib/device.c:523-613 | any list of drives with names free of blanks is read back from its printed form |
| `DeviceMap.NamesTried` | lib/device.c:290-412 | the names of all candidates, written out |
| `DeviceMap.LineWritten` | lib/device.c:672-673 | the lines of the file, written out |
| `DeviceMap.Prober.ProbeFloppies` | lib/device.c:664-682 | every floppy is written, those that can be read are mapped |
| `DeviceMap.Prober.ProbeDisk` | lib/device.c:718-733 | a disk that can be read gets the next number, in the map and in the file |
| `DeviceMap.Prober.ProbeController` | lib/device.c:787-804 | the logical drives of one controller are tried in order |
| `DeviceMap.Prober.ProbeHardDisks` | lib/device.c:717-807 | all candidates are tried in order, and numbers are contiguous from 0 |
| `DeviceMap.FileAgrees` | lib/device.c:664-815 | the written file is acceptable, and read back gives every probed drive the same name and beyond that only floppies |
| `DeviceMap.ProbeThenRead` | lib/device.c:615-815 | probing and then reading the file just written: success, the same name for every drive of the map, extra drives only floppies that could not be read |
| `Bios.SplitInverts` | stage2/bios.c:105-113 | the CHS split inverts back to the sector, and lies on the disk exactly when the sector is below C*H*S |
| `Bios.LinearSplits` | stage2/bios.c:105-113 | every position on the disk is the split of its sector |
| `Bios.Geometry.GetCdinfo` | stage2/bios.c:122-180 | a CD-ROM without emulation gets LBA, an emulated disk its geometry with the total C*H*S |
| `Bios.Geometry.GetDiskinfoStandard` | stage2/asm.S:1241-1302 | the last cylinder and head and the number of sectors pack back into the registers the BIOS returned; zero sectors are an error, and the rest fits the standard service |
| `Bios.Geometry.GetDiskinfo` | stage2/bios.c:184-314 | on success the geometry is fit for biosdisk exactly unless an emulated disk reports no heads or no sectors; the CD-ROM flag implies LBA; with LBA and no CD-ROM the total is the one reported when that is between 1 and 2^32 - 1, for a reported zero the product of the geometry modulo 2^32 or else the standard capacity, and otherwise the total modulo 2^32 |
| `Bios.TotalIsReported` | stage2/bios.c:258-272 | the total stored for an answer of the BIOS, case by case |
| `Bios.Geometry.Biosdisk` | stage2/bios.c:47-119 | LBA is given up exactly when the extensions fail on anything but a CD-ROM, total_sectors then being C*H*S; by position the request is refused exactly when its sector is at least C*H*S |
| `Bios.CallNumbers` | stage2/bios.c:47-119 | functions 0x42 and 0x43 of the extensions, 2 and 3 of the standard service, and the block, drive, count and segment asked for |
| `Bios.RunRequests` | stage2/bios.c:47-119 | over any sequence of transfers the fallback is one-way and at the first failure, every result is that of the service in force, every call asks for its request's sector and no CHS call leaves the disk |
| `Bios.UnfitGeometry` | stage2/bios.c:164-175 | an emulated floppy without heads: success, and a zero divisor |

## Left out

- The code of `buf_fill` under CONGESTED, and the exact bytes and length resent when a timeout follows an OACK: that packet is modelled as the acknowledgement of block 0, sent from a fresh port.
- Client ports are taken to be fresh for every request; their reuse after 65536 requests is not modelled.
- ARP, IP and UDP (`udp_transmit`, `await_reply`) are channel steps; the text of the request packet is not modelled.
- Decimal: negating INT_MIN is taken to wrap around, as it does on the machine; the hexadecimal conversions only add easy members.
- Depca.ProbeProm: the checks of the card's state and memory between search and checksum are hardware and not part of it.
- Getopt.Scanner.GetoptInternal: excludes option strings starting with `+` or `-` (only the first call skips that character, later ones read it as an option), the `W;` extension, and callers that move optind back between calls; so do the members below.
- Getopt.ScanAll: as GetoptInternal.
- Getopt.ScanTwice: as GetoptInternal.
- Getopt.Scanner.NextAnswer: as GetoptInternal.
- Getopt.Scanner.DecodeOption: as GetoptInternal.
- Getopt.Scanner.ShortOption: does not model the `W;` extension.
- Getopt.Scanner.Initialize: does not read the `+` and `-` prefixes.
- getopt: the flags shared with GNU libc and the text of error messages.
- 8390 and 8139: the chips' own side (`FrameArrives` stores a frame at the tail when it fits, and the 8390 otherwise flags an overrun) is an assumption of the model, not code of the repository; port I/O, timers, transmitting, the 3c503 and WD variants, and all other network drivers. The chip is what it writes to memory and its registers; a reset of the 8139 is taken to set its read pointer to 0xFFF0, sixteen below the ring's start.
- Cmdline: SHA-1, line editing and what the builtins do are parameters; the implicit boot either does not return or fails. The comment in the code names PCR 14 where the code, and this model, use the command line register.
- Variables: the capacities of the buffers (700, 1000 and 1024 bytes) are not modelled, nor that the code reads on behind the terminating NUL when a text ends in a reference to an unknown variable; the C string it leaves is the one modelled.
- DeviceMap: devfs, systems other than GNU/Linux, and what makes a device readable.
- DeviceMap.ProbeThenRead: excludes more than 128 readable disks and more than 128 floppies, for which the code writes outside their part of the map; so do the members below.
- DeviceMap.FileAgrees: as ProbeThenRead.
- DeviceMap.Prober.ProbeFloppies: as ProbeThenRead.
- DeviceMap.Prober.ProbeDisk: as ProbeThenRead.
- DeviceMap.Prober.ProbeController: as ProbeThenRead.
- DeviceMap.Prober.ProbeHardDisks: as ProbeThenRead.
- Bios: INT 13 itself, and transfers whose sectors after the first leave the disk; NO_INT13_FALLBACK and NO_BUGGY_BIOS_IN_THE_WORLD are undefined, as in the code. A 32-bit unsigned long is assumed here and in the device map.
- Everything else in GRUB: the other file systems, the menu, the shell's curses front end, `stage1`, the TCG BIOS calls.
