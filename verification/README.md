# Verified models of SzOS and the GRUB tree it carries

This project models, in Dafny, the parts of the repository whose behaviour
stretches over many calls, and proves what they promise over whole runs.

| files | component |
|---|---|
| `GetoptSpec`, `Rotation`, `GetoptScanner`, `GetoptLaws`, `GetoptForms` | GNU getopt: the scanner that permutes `argv` in place while it reads |
| `TftpOack`, `TftpProtocol`, `TftpMachine`, `TftpTracks`, `TftpReader`, `TftpCount`, `TftpDirectory`, `Tftp`, `TftpSupply`, `TftpRuns`, `TftpLaws`, `TftpAnswers` | the TFTP client: block transfer under a buffer that slides over the remote file |
| `Fifo`, `Ring`, `Rtl8139`, `Rtl8139Runs`, `Ns8390`, `Ns8390Runs` | two receive rings: a byte ring and a page ring |
| `Terminal`, `Screen` | the kernel's text console |
| `Decimal`, `Ascii`, `Etherboot`, `EtherbootForms`, `DeviceMap` | numerals: the kernel's conversion, the etherboot formatter and its parsers; the device map file |
| `Signature`, `Chs` | the PROM signature search; sector addressing |
| `Bytes`, `Options`, `Folding` | shared helpers |

How the pieces are stated:

* **getopt.** `Parse` reads a command line from left to right and never moves
  anything. The scanner is a class with getopt's variables; `Total()` is what
  the whole run will have found, computed from the current, partly permuted
  array. Each call takes one report off the front of `Total()` and changes
  nothing else of it, so a run reports what `Parse` says about the original
  line and leaves it partitioned. Reading the permuted line again is *not*
  always the same: `PermutedLineReadsTheSame` says exactly when it is. What a
  line means is also said without any reading: it is written as a list of items
  (`GetoptForms`), each with its reports, and every line is such a list.
* **TFTP.** The network is an arbitrary sequence of replies, one sequence for
  each request. The class `Client` has the variables of the source; its methods
  are proved to do, for all packet sequences, what the functions of
  `TftpMachine`, `TftpReader`, `TftpCount` and `TftpDirectory` say, and the
  properties are proved about those: safety and termination for all packets,
  contents and sizes for an honest server. An honest server sends DATA in which
  number k carries block k, uses a block size agreed on by an OACK (between 512
  and the 1432 asked for) or 512, and names the right size if any; it may also
  send errors and packets of other kinds. Success is promised whenever the
  packets needed arrive (`Serves`), repeated or mixed with old ones as they may be.
  `UseFile` opens a file and serves any mix of seeks and reads. `TftpAnswers`
  says what the server is told, up to a server in lock step (`LockStep`).
* **Receive rings.** The chip is part of the class: it writes records, maintains
  its own registers and decides whether there is room. `View` turns the ring so
  that it starts at the reader; `Laid` says which records lie there. `Run`
  connects any interleaving of arrivals and polls with an abstract queue.
* **Console.** The unbounded terminal is a tape that only grows; the screen shows
  its last 25 rows. Between calls the cursor exists only in the two registers.

Where the code and what is said about it differ, the model follows the code:

* `ns8390_poll` prints that it ignores a bogus packet, but does not pass it
  (`BogusBlocks`, `OverrunEmpties`).
* `print_char` is meant to mark invalid coordinates; in `kprint_at` the mark
  replaces the first character only, and the rest of the string is printed
  where the coordinates come to when counted through (`Printed`).
* `int_to_ascii` negates its argument, which the least int does not survive
  (`TextIsRight`, with negation that wraps around as in two's complement).
* Block numbers of TFTP do not wrap in the client (`TransferableIff`).
* `tftp_dir` counts forever when the server makes the client agree on blocks
  larger than its buffer and does not name the size (`EndlessIff`), and doubles
  a size that the packets name after the count has begun, and not again
  (`SizeFound` in `DirHonest`, `SizeDoubled`).
* The names in an OACK are case-insensitive in RFC 2347; the client refuses any
  but lower-case ones (`OtherName`).
* `getdec` is right for numbers below 2^31 only (`ReadDecIff`), so `inet_aton`
  takes 4294967297.0.0.0 for 1.0.0.0 (`AddressIsRight`, `AddressWraps`); `%d` for
  all ints but the least (`IntTextIff`), which comes out as `-./,),(-*,(`; a format must not end inside a conversion
  (`RenderIff`).
* `init_device_map` stores past its table when more than 128 disks are found
  (`InitDeviceMap`), and the reader ignores their lines (`MapRoundTrip`); it takes
  some negative numbers for drives, -4294967295 for 1 (`DriveNumberIff`).

## Model

| member | source | states |
|---|---|---|
| Rotation.Rotate | legacy/SZoS/grub-0.97/lib/getopt.c:307-385 | The two adjacent blocks change places in place, everything else stays, and the number of element swaps is the sum of the two lengths less their greatest common divisor. |
| Rotation.SwapBlocks | legacy/SZoS/grub-0.97/lib/getopt.c:353-359 | The inner loops exchange two disjoint blocks of equal length, element by element, and count the swaps they make. |
| Rotation.Subtract | legacy/SZoS/grub-0.97/lib/getopt.c:343-379 | One round of the exchange is a step of subtractive Euclid: the two block lengths keep their common divisors. |
| Rotation.EuclidEnds | legacy/SZoS/grub-0.97/lib/getopt.c:343-379 | What is left when one block is empty is the greatest common divisor of the two original lengths. |
| Rotation.RotatedParts | legacy/SZoS/grub-0.97/lib/getopt.c:307-385 | After an exchange the second block stands at the start and the first behind it, each in its own order. |
| GetoptScanner.Scanner.constructor | legacy/SZoS/grub-0.97/lib/getopt.c:130-158 | A new scanner is going to find what a left-to-right reading of argv[1..] finds. |
| GetoptScanner.Scanner.Exchange | legacy/SZoS/grub-0.97/lib/getopt.c:307-385 | The options since the last skipped argument move in front of the skipped ones, and the bounds of the skipped ones are relocated. |
| GetoptScanner.Scanner.Begin | legacy/SZoS/grub-0.97/lib/getopt.c:523-554 | First-call set-up, and clamping after the caller moved optind back, change nothing that the whole run will find. |
| GetoptScanner.Scanner.Settle | legacy/SZoS/grub-0.97/lib/getopt.c:558-564 | Moving options forward changes nothing that the whole run will find, and leaves no option behind a skipped argument. |
| GetoptScanner.Scanner.SkipArguments | legacy/SZoS/grub-0.97/lib/getopt.c:566-571 | Passing over arguments changes nothing that the whole run will find, and stops at an option element or at the end. |
| GetoptScanner.Scanner.PassTerminator | legacy/SZoS/grub-0.97/lib/getopt.c:574-590 | The element -- counts as an option and everything behind it as arguments. |
| GetoptScanner.Scanner.BackUp | legacy/SZoS/grub-0.97/lib/getopt.c:592-602 | At the end argv holds all options, then all arguments, each in their original order, and optind is the first argument. |
| GetoptScanner.Scanner.Advance | legacy/SZoS/grub-0.97/lib/getopt.c:545-620 | Moving to the next element either ends the run with argv partitioned or stops in front of the next option element. |
| GetoptScanner.FindLong | legacy/SZoS/grub-0.97/lib/getopt.c:652-675 | The scan over the option table with its exact, first and ambiguous flags finds what Resolve defines. |
| GetoptScanner.Scanner.DecodeLong | legacy/SZoS/grub-0.97/lib/getopt.c:637-768 | A long option is reported as LongEvent defines, with optopt, longind and the flag variable set to match, and one or two elements consumed. |
| GetoptScanner.Scanner.DecodeShort | legacy/SZoS/grub-0.97/lib/getopt.c:770-966 | A letter of a cluster is reported as ShortEvent defines, with optopt set to match and optind moved by zero, one or two elements. |
| GetoptScanner.Scanner.GetoptInternal | legacy/SZoS/grub-0.97/lib/getopt.c:514-966 | One call on the permuted array reports the next event of the reading of the original one, or -1 with argv partitioned; nothing else of what the run will find changes. |
| GetoptScanner.ReadArguments | legacy/SZoS/grub-0.97/lib/getopt.c:566-571 | A reading passes over leading arguments. |
| GetoptLaws.ParseAll | legacy/SZoS/grub-0.97/grub/main.c:149-244 | The caller's loop ends, and collects exactly the reports of the reading that the scanner will find. |
| GetoptLaws.ParseCommandLine | legacy/SZoS/grub-0.97/grub/main.c:149-244 | For every argv the reports are those of a left-to-right reading of the unpermuted line, and argv ends up as program name, options, arguments. |
| GetoptLaws.ResolveMeaning | legacy/SZoS/grub-0.97/lib/getopt.c:652-693 | A name resolves to the first exact match, else to the only option it abbreviates; it is ambiguous or unknown otherwise (in each case if and only if). |
| GetoptLaws.MatchMeaning | legacy/SZoS/grub-0.97/lib/getopt.c:655-672 | A name matches the options that begin with it, and exactly the one that is it. |
| GetoptLaws.PartitionIsStable | legacy/SZoS/grub-0.97/lib/getopt.c:545-620 | The original line is an interleaving of the options and the arguments: nothing is lost, invented or reordered within a group. |
| GetoptLaws.RestHoldsNoOptions | legacy/SZoS/grub-0.97/lib/getopt.c:566-590 | Unless the scan met --, no option element is left among the arguments. |
| GetoptLaws.ReportsAreBounded | legacy/SZoS/grub-0.97/lib/getopt.c:545-966 | A line yields at most one report per character, so every parse loop ends. |
| GetoptLaws.LongLooksAhead | legacy/SZoS/grub-0.97/lib/getopt.c:705-733 | Only a long option that wants an argument and has none attached looks at the next element. |
| GetoptLaws.OptionsReadTheSame | legacy/SZoS/grub-0.97/lib/getopt.c:545-966 | The options alone, followed by any other arguments, are read with the same reports. |
| GetoptLaws.WantingTakesMore | legacy/SZoS/grub-0.97/lib/getopt.c:719-733 | If the last option lacks its argument, whatever is put behind it is taken for that argument. |
| GetoptLaws.PermutedLineReadsTheSame | legacy/SZoS/grub-0.97/lib/getopt.c:307-385 | Reading the permuted line again gives the same result if and only if it is not the case that the last option lacks its argument while arguments were skipped. |
| GetoptLaws.PermutedLineDiffers | legacy/SZoS/grub-0.97/lib/getopt.c:948-964 | A concrete line whose permutation is read differently. |
| GetoptForms.KindIs | legacy/SZoS/grub-0.97/lib/getopt.c:779-794 | A letter is unknown if it is not in the option string or a colon; one colon behind its first place there means a required argument, two an optional one, none none. |
| GetoptForms.ItemIsRead | legacy/SZoS/grub-0.97/lib/getopt.c:637-966 | Reading an item and then w gives the item's reports and then those of w: letters one by one; an attached, separate or optional argument exactly as written; `--name=value` the value behind the sign; unknown names, and arguments that are not allowed, as errors with their optopt. |
| GetoptForms.EndIsRead | legacy/SZoS/grub-0.97/lib/getopt.c:574-590 | A line that ends with -- and anything, or with an option whose argument is missing: nothing behind -- is an option, and the missing argument is reported with `:` if the option string begins with one, else `?`. |
| GetoptForms.LineIsRead | legacy/SZoS/grub-0.97/lib/getopt.c:545-966 | A whole line is read as it is written: the reports of its items in order, its options, and its arguments. |
| GetoptForms.EveryLineIsWritten | legacy/SZoS/grub-0.97/lib/getopt.c:545-966 | Every argv is written in these forms, so that LineIsRead says what every line means. |
| GetoptForms.FlagIsStored | legacy/SZoS/grub-0.97/lib/getopt.c:735-742 | A long option with a flag variable stores its value there and touches no other variable. |
| GetoptForms.ParseWritten | legacy/SZoS/grub-0.97/grub/main.c:149-244 | The caller's loop, on a line written in these forms, collects exactly what they report and leaves options, then arguments. |
| GetoptForms.GrubLine | legacy/SZoS/grub-0.97/grub/main.c:70-74 | An instance: `--config-file=menu.lst` and `--config-file menu.lst` both report -5 with `menu.lst`. |
| TftpProtocol.BlockBounds | legacy/SZoS/grub-0.97/netboot/fsys_tftp.c:194-251 | Consecutive blocks cut the file without gap or overlap; a block is full exactly if the file reaches past it. |
| TftpProtocol.DataLengthIs | legacy/SZoS/grub-0.97/netboot/fsys_tftp.c:193-203 | The payload length in 16 bits: a datagram shorter than its header counts as one of more than 65523 bytes. |
| TftpProtocol.WindowGrows | legacy/SZoS/grub-0.97/netboot/fsys_tftp.c:245-251 | Appending the next block extends the window of the file, and a short block means the end of the file. |
| TftpProtocol.NextReply | legacy/SZoS/grub-0.97/netboot/fsys_tftp.c:103-209 | Under an honest server, data is taken only once the block size is agreed, and an OACK agrees on it. |
| TftpProtocol.WindowSlides | legacy/SZoS/grub-0.97/netboot/fsys_tftp.c:375-389 | Dropping a prefix of the buffer moves the window along the file. |
| TftpProtocol.Opening | legacy/SZoS/grub-0.97/netboot/fsys_tftp.c:257-300 | A fresh request starts with an empty window at the start of the file. |
| TftpOack.ReadOptionAt | legacy/SZoS/grub-0.97/netboot/fsys_tftp.c:133-179 | A name with its number, and the skipping of what follows it, are read as OptionOf defines; nothing else is taken for an option. |
| TftpOack.WrittenReadBack | legacy/SZoS/grub-0.97/netboot/fsys_tftp.c:125-184 | The text in which a server writes any list of options is read back as that list, whatever lies behind the packet in memory. |
| TftpOack.BehindIsNoMatter | legacy/SZoS/grub-0.97/netboot/fsys_tftp.c:131-184 | If a text ends with a NUL and is accepted, it is accepted and read the same with anything else behind it in memory, although the comparison of names and getdec may look there. |
| TftpOack.OptionTexts | legacy/SZoS/grub-0.97/netboot/fsys_tftp.c:133-155 | How an option is written: blksize or tsize, a NUL, the number, a NUL. |
| TftpOack.OtherName | legacy/SZoS/grub-0.97/netboot/fsys_tftp.c:133-165 | A text that begins with any other name, one in capitals included, is refused. |
| TftpOack.TooLong | legacy/SZoS/grub-0.97/netboot/fsys_tftp.c:127-130 | A text of more than 1432 bytes, or one that its UDP length puts before the header, is refused. |
| TftpOack.NoMoreText | legacy/SZoS/grub-0.97/netboot/fsys_tftp.c:131-134 | A NUL in place of a name ends the options. |
| Tftp.Client.constructor | legacy/SZoS/grub-0.97/netboot/fsys_tftp.c:37-47 | A new client has its buffer of 32 KiB and stands at the start of the file. |
| Tftp.Client.ParseText | legacy/SZoS/grub-0.97/netboot/fsys_tftp.c:131-184 | The walk over the bytes of the text takes the options in order up to the first that is unacceptable; a text that goes on behind its end is refused. |
| Tftp.Client.ParseOack | legacy/SZoS/grub-0.97/netboot/fsys_tftp.c:125-184 | For every length and whatever bytes: the options are taken in order up to the first that is unacceptable, and the packet is refused exactly if there is one, it is too long, or its text goes on behind its end. |
| Tftp.Client.Append | legacy/SZoS/grub-0.97/netboot/fsys_tftp.c:237-251 | A block goes behind the contents of the buffer, within its bounds, and the end of the file is noticed exactly at a short block. |
| Tftp.Client.Acknowledge | legacy/SZoS/grub-0.97/netboot/fsys_tftp.c:211-251 | For every packet only block prevblock+1 is stored; each acknowledgment names the last block stored, and an aborted transfer is answered with an error. |
| Tftp.Client.ReceiveOack | legacy/SZoS/grub-0.97/netboot/fsys_tftp.c:112-188 | An OACK is taken only before the first data block, and stores nothing. |
| Tftp.Client.ReceiveData | legacy/SZoS/grub-0.97/netboot/fsys_tftp.c:189-206 | A data packet longer than agreed is ignored, any other answered. |
| Tftp.Client.AwaitFailed | legacy/SZoS/grub-0.97/netboot/fsys_tftp.c:68-101 | A timeout is survived only before the first block and a limited number of times. |
| Tftp.Client.Receive | legacy/SZoS/grub-0.97/netboot/fsys_tftp.c:103-251 | One wait for a packet is a step of the abstract transfer. |
| Tftp.Client.BufFill | legacy/SZoS/grub-0.97/netboot/fsys_tftp.c:50-255 | A fill does, for every packet sequence, what Fill says, and keeps what must be kept: see FillKeeps, FillTracks, FilledServes. |
| TftpMachine.FillKeeps | legacy/SZoS/grub-0.97/netboot/fsys_tftp.c:50-255 | Whatever arrives, the buffer does not overflow, the block size is fixed once data has come, no block is acknowledged that was not stored, and a fill that succeeds has used up packets. |
| TftpAnswers.StepAnswers | legacy/SZoS/grub-0.97/netboot/fsys_tftp.c:103-230 | Without abort, every DATA that is not too long, and before the first block every OACK, is answered exactly once: with the number of the last block stored, itself included (so a repeated block with the current one), or with a refusal of the options; nothing else is answered. |
| TftpAnswers.OptionAnswered | legacy/SZoS/grub-0.97/netboot/fsys_tftp.c:133-188 | An OACK with a block size below 512 is refused; any other block size, and any file size, is taken over and acknowledged as block 0. |
| TftpAnswers.FillAnswers | legacy/SZoS/grub-0.97/netboot/fsys_tftp.c:50-255 | Over a fill, whatever comes, the new acknowledgments rise by one block at a time at most and end at the last block stored; only a fill that fails before the first block ends with a refusal. |
| TftpAnswers.LockStep | legacy/SZoS/grub-0.97/netboot/fsys_tftp.c:206-251 | A server that sends block k + 1 on the acknowledgment of block k gets every block of the file acknowledged, once and in order. |
| TftpTracks.StepTracks | legacy/SZoS/grub-0.97/netboot/fsys_tftp.c:103-251 | Under an honest server one packet keeps the buffer a window of the file, and one in turn advances it. |
| TftpTracks.FillTracks | legacy/SZoS/grub-0.97/netboot/fsys_tftp.c:50-255 | Under an honest server a fill keeps the window, and succeeds only with a full buffer, at the end of the file, or because of a packet of another kind. |
| TftpTracks.FilledServes | legacy/SZoS/grub-0.97/netboot/fsys_tftp.c:50-255 | If the packets needed arrive, repeated or mixed with old ones as they may be, a fill succeeds. |
| TftpTracks.EndIsNear | legacy/SZoS/grub-0.97/netboot/fsys_tftp.c:211-251 | A client that has come to the end of a file has a file of at most 65535 blocks, the short one at its end included. |
| TftpTracks.FilledQuits | legacy/SZoS/grub-0.97/netboot/fsys_tftp.c:211-230 | An aborting fill ends the transfer, with an error to the server, if and only if the packets hold one that it would otherwise answer, before one that ends the wait. |
| Tftp.Client.SendRrq | legacy/SZoS/grub-0.97/netboot/fsys_tftp.c:257-300 | A request resets the transfer to the start of the file. |
| Tftp.Client.Slide | legacy/SZoS/grub-0.97/netboot/fsys_tftp.c:375-382 | The second half of the buffer becomes the first, and savedFilepos moves with it. |
| Tftp.Client.Skip | legacy/SZoS/grub-0.97/netboot/fsys_tftp.c:384-389 | The buffer is dropped, and savedFilepos moves behind it. |
| Tftp.Client.Reopen | legacy/SZoS/grub-0.97/netboot/fsys_tftp.c:328-355 | A backward seek, and nothing else, ends the transfer and opens the file again. |
| Tftp.Client.TakeBuffered | legacy/SZoS/grub-0.97/netboot/fsys_tftp.c:359-389 | What is copied to addr is what Take defines, and nothing else of addr changes. |
| Tftp.Client.Refill | legacy/SZoS/grub-0.97/netboot/fsys_tftp.c:391-403 | A refill that leaves the buffer empty is a read error. |
| Tftp.Client.ReadRound | legacy/SZoS/grub-0.97/netboot/fsys_tftp.c:357-404 | A round copies what is buffered and refills the buffer if more is wanted. |
| TftpReader.RoundKeeps | legacy/SZoS/grub-0.97/netboot/fsys_tftp.c:357-404 | A round consumes wanted bytes or packets, so that a read ends for every packet sequence. |
| TftpReader.TakeIsFile | legacy/SZoS/grub-0.97/netboot/fsys_tftp.c:359-389 | What is taken from a buffer that is a window of the file are the bytes of the file at filepos. |
| TftpReader.ReadGivesTheFile | legacy/SZoS/grub-0.97/netboot/fsys_tftp.c:318-407 | Under an honest server a read that succeeds gives exactly file[filepos..filepos+size), through any mix of skips, slides and openings, and keeps the buffer positioned; it succeeds if the range is in the file and the packets needed arrive. |
| TftpReader.ReadKeepsSize | legacy/SZoS/grub-0.97/netboot/fsys_tftp.c:318-407 | Under an honest server no read, also one that opens the file again, loses the size of the file. |
| Tftp.Client.TftpRead | legacy/SZoS/grub-0.97/netboot/fsys_tftp.c:318-407 | A read gives all bytes asked for or none and ends for every packet sequence; if the buffer is positioned, they are the bytes of the file at filepos, which moves by size; nothing behind them is written. |
| Tftp.Client.CountFile | legacy/SZoS/grub-0.97/netboot/fsys_tftp.c:455-478 | For every packet sequence the count comes out as CountLoop says, Endless included. |
| TftpCount.EndlessIsForever | legacy/SZoS/grub-0.97/netboot/fsys_tftp.c:462-475 | The verdict Endless is right: it is given if and only if the loop goes round any number of times. |
| TftpCount.CountSticks | legacy/SZoS/grub-0.97/netboot/fsys_tftp.c:462-475 | The count is endless if and only if, before the first block, the last block size named by an accepted OACK is larger than the buffer. |
| TftpCount.FillTells | legacy/SZoS/grub-0.97/netboot/fsys_tftp.c:144-155 | After a fill that succeeds the size is known if and only if it was before or an option that was read names it. |
| TftpDirectory.CountTotal | legacy/SZoS/grub-0.97/netboot/fsys_tftp.c:461-478 | Under an honest server the count ends, with the length of the file on top of what an option named while counting. |
| Tftp.Client.Open | legacy/SZoS/grub-0.97/netboot/fsys_tftp.c:427-453 | A request and the first fill. |
| Tftp.Client.FindSize | legacy/SZoS/grub-0.97/netboot/fsys_tftp.c:424-484 | Opening, counting and opening again come out as Dir defines, for every packet sequence. |
| Tftp.Client.TftpDir | legacy/SZoS/grub-0.97/netboot/fsys_tftp.c:411-485 | It goes on forever if and only if the packets make the client agree on blocks larger than its buffer before the first one, and do not tell the size; with an honest server it ends, and on success the file is open at its start and filemax its length, or twice that if and only if the packets of the first opening name the size only after one of another kind, and those of the second do not name it in the first fill; a file that was counted has at most 65535 blocks. |
| TftpDirectory.EndlessIff | legacy/SZoS/grub-0.97/netboot/fsys_tftp.c:455-482 | tftp_dir never returns if and only if the packets of the first session are of that kind; it ends for all others. |
| TftpDirectory.CountsForever | legacy/SZoS/grub-0.97/netboot/fsys_tftp.c:455-482 | An instance: a server that agrees on blocks of 40000 bytes and does not name the size. |
| TftpDirectory.ReopenedIff | legacy/SZoS/grub-0.97/netboot/fsys_tftp.c:455-482 | On success the file was opened exactly twice if no option of the first fill named the size, and once otherwise. |
| TftpDirectory.FillLate | legacy/SZoS/grub-0.97/netboot/fsys_tftp.c:50-255 | Under an honest server, whether a fill that succeeds has learned the size is read off the packets to come. |
| TftpDirectory.DirHonest | legacy/SZoS/grub-0.97/netboot/fsys_tftp.c:411-485 | With an honest server filemax is the length of the file, or twice that exactly when the packets of the first session name the size late (Late) and those of the second do not tell it (Told). |
| TftpDirectory.SizeIsRight | legacy/SZoS/grub-0.97/netboot/fsys_tftp.c:411-485 | Without packets of other kinds filemax is the length of the file. |
| TftpDirectory.DirServed | legacy/SZoS/grub-0.97/netboot/fsys_tftp.c:411-485 | If the packets needed arrive in two sessions, tftp_dir succeeds and filemax is the length of the file. |
| TftpDirectory.CountedIsSmall | legacy/SZoS/grub-0.97/netboot/fsys_tftp.c:455-482 | A file that had to be counted has at most 65535 blocks. |
| TftpLaws.SizeDoubled | legacy/SZoS/grub-0.97/netboot/fsys_tftp.c:455-482 | An instance where the size is named after the count has begun: a file of one byte is taken for one of two. |
| Tftp.Client.TftpClose | legacy/SZoS/grub-0.97/netboot/fsys_tftp.c:488-497 | The buffer is discarded; if the transfer was under way, the server is told with an error if and only if the packets hold one that the client would answer; otherwise nothing is sent. |
| TftpSupply.ReadSupplied | legacy/SZoS/grub-0.97/netboot/fsys_tftp.c:318-407 | A read that is supplied succeeds if its bytes are in the file; whether it does or not, what is supplied for later reads stays, less one opening. |
| TftpSupply.DirSupplied | legacy/SZoS/grub-0.97/netboot/fsys_tftp.c:411-485 | If each of enough openings is answered with the packets it needs, tftp_dir succeeds and uses up at most two. |
| TftpRuns.UseFile | legacy/SZoS/grub-0.97/netboot/fsys_tftp.c:318-485 | A whole use of a file with an honest server: after the opening, any sequence of seeks and reads gives, for each read, exactly the bytes of the file at its place, or nothing; if the packets needed arrive, the file is opened and every read within it succeeds. |
| TftpLaws.UndisturbedServes | legacy/SZoS/grub-0.97/netboot/fsys_tftp.c:50-255 | A session in which the block size is agreed on and every block arrives is honest and has all the client needs. |
| TftpLaws.TransferableIff | legacy/SZoS/grub-0.97/netboot/fsys_tftp.c:211-213 | There is an honest session in which the client comes to the end of a file if and only if the file has at most 65535 blocks, the short last one included. |
| TftpLaws.BlocksMakeTheFile | legacy/SZoS/grub-0.97/netboot/fsys_tftp.c:245-251 | The blocks of a transfer, put together, are the file. |
| Ring.StoredView | legacy/SZoS/grub-0.97/netboot/rtl8139.c:71-80 | Writing bytes cyclically changes just that stretch of the ring as seen from a reader. |
| Ring.LaidAppend | legacy/SZoS/grub-0.97/netboot/rtl8139.c:407-441 | A record written behind the others leaves all of them in place. |
| Ring.LaidRest | legacy/SZoS/grub-0.97/netboot/rtl8139.c:440-441 | A reader that moves behind the first record finds the others. |
| Ring.OldestPart | legacy/SZoS/grub-0.97/netboot/ns8390.c:483-498 | Any part of the oldest record lies in the memory in one piece, or in two around the end of the ring. |
| Ring.SplitRead | legacy/SZoS/grub-0.97/netboot/rtl8139.c:421-434 | A stretch of the ring is one piece of memory, or two when it wraps. |
| Rtl8139.Nic.RtlReset | legacy/SZoS/grub-0.97/netboot/rtl8139.c:285-332 | After a reset nothing is left to read and both sides are at the start. |
| Rtl8139.GoodIff | legacy/SZoS/grub-0.97/netboot/rtl8139.c:128-133 | A record is good if and only if none of the bits RxBadAlign, RxCRCErr, RxTooLong, RxRunt and RxBadSymbol is set and the frame has 56 to 1514 bytes, whatever the other bits are. |
| Rtl8139.CellIs | legacy/SZoS/grub-0.97/netboot/rtl8139.c:407-440 | A record begins with status and size, lowest byte first, and takes the least multiple of four bytes that holds header, frame and FCS. |
| Rtl8139.Nic.EmptyMeansEmpty | legacy/SZoS/grub-0.97/netboot/rtl8139.c:395-397 | The chip's empty bit is right although it knows the driver's place in 16 bits only. |
| Rtl8139.PointerKeepsOffset | legacy/SZoS/grub-0.97/netboot/rtl8139.c:407-441 | Neither the 16-bit register nor overflow of the 32-bit count disturbs the place in the ring. |
| Rtl8139.CountMovesOffset | legacy/SZoS/grub-0.97/netboot/rtl8139.c:440 | Rounding the advanced count keeps it a multiple of four and moves the place by the aligned record size. |
| Rtl8139.Nic.HeaderIs | legacy/SZoS/grub-0.97/netboot/rtl8139.c:407-410 | The header never straddles the end of the ring and is that of the oldest record. |
| Rtl8139.Nic.PayloadIs | legacy/SZoS/grub-0.97/netboot/rtl8139.c:421-434 | The oldest frame lies behind its header in one piece or in two. |
| Rtl8139.Nic.CopyFrame | legacy/SZoS/grub-0.97/netboot/rtl8139.c:420-434 | The packet handed over is the frame the chip stored. |
| Rtl8139.RestInRing | legacy/SZoS/grub-0.97/netboot/rtl8139.c:440-441 | A driver behind the oldest record finds the others. |
| Rtl8139.MoreInRing | legacy/SZoS/grub-0.97/netboot/rtl8139.c:407-441 | A record written behind the others joins the queue. |
| Rtl8139.Nic.Consume | legacy/SZoS/grub-0.97/netboot/rtl8139.c:440-441 | The driver moves exactly behind the oldest record. |
| Rtl8139.Nic.RtlPoll | legacy/SZoS/grub-0.97/netboot/rtl8139.c:389-447 | A poll delivers the oldest frame and removes it; nothing if the ring is empty; a bad one resets the ring. |
| Rtl8139Runs.Run | legacy/SZoS/grub-0.97/netboot/rtl8139.c:389-447 | Any interleaving of arrivals and polls hands over the frames that an abstract queue delivers. |
| Rtl8139Runs.RunsKeepOrder | legacy/SZoS/grub-0.97/netboot/rtl8139.c:389-447 | Whatever arrives, frames come out at most once and in order; with good frames only, every accepted one comes out or is still queued. |
| Rtl8139Runs.FirstArrival | legacy/SZoS/grub-0.97/netboot/rtl8139.c:389-447 | From an empty ring, one arrival and one poll deliver a frame of 56 to 1514 bytes without an error bit; any other frame there is room for resets the ring with nothing delivered. |
| Fifo.DeliverKeepsOrder | legacy/SZoS/grub-0.97/netboot/rtl8139.c:419-446 | Taking from the front keeps order and loses nothing. |
| Ns8390.Nic.constructor | legacy/SZoS/grub-0.97/netboot/ns8390.c:238-270 | After the ring set-up the queue is empty. |
| Ns8390.GoodIff | legacy/SZoS/grub-0.97/netboot/ns8390.c:473-476 | A record is taken if and only if its bit PRX is set and the frame has 60 to 1514 bytes. |
| Ns8390.CellIs | legacy/SZoS/grub-0.97/netboot/ns8390.c:467-474 | A record begins with its status, the page of the next one and its size, lowest byte first. |
| Ns8390.CellsAppend | legacy/SZoS/grub-0.97/netboot/ns8390.c:467-515 | What a record adds to the ring goes behind what the others put there. |
| Ns8390.ChainAppend | legacy/SZoS/grub-0.97/netboot/ns8390.c:467-515 | Appending a record to the page ring leaves the chain of next pages intact. |
| Ns8390.OldestHeader | legacy/SZoS/grub-0.97/netboot/ns8390.c:467-474 | The header at the driver's page is that of the oldest record and names the page behind it. |
| Ns8390.OldestFrame | legacy/SZoS/grub-0.97/netboot/ns8390.c:483-498 | The oldest frame lies behind its header, split at the end of the ring if need be. |
| Ns8390.LiesRest | legacy/SZoS/grub-0.97/netboot/ns8390.c:512-515 | Moving to the page named leaves the other records in order. |
| Ns8390.Nic.CopyFrame | legacy/SZoS/grub-0.97/netboot/ns8390.c:481-499 | The packet handed over is the frame stored, also when it wraps. |
| Ns8390.Nic.SetBound | legacy/SZoS/grub-0.97/netboot/ns8390.c:512-515 | BOUND stays in the ring and the next page to read is the one named. |
| Ns8390.Nic.TakeOldest | legacy/SZoS/grub-0.97/netboot/ns8390.c:467-515 | A good oldest record is delivered and passed; a bogus one changes nothing. |
| Ns8390.Nic.Poll | legacy/SZoS/grub-0.97/netboot/ns8390.c:431-517 | A poll handles an overrun first, else delivers the oldest frame if the last and the oldest are good. |
| Ns8390.Nic.Overrun | legacy/SZoS/grub-0.97/netboot/ns8390.c:290-334 | Draining ends, does not re-enter itself, and leaves what follows the first record that is not good. |
| Ns8390Runs.Run | legacy/SZoS/grub-0.97/netboot/ns8390.c:431-517 | Any interleaving of arrivals and polls hands over the frames that an abstract queue delivers, overruns included. |
| Ns8390Runs.RunsKeepOrder | legacy/SZoS/grub-0.97/netboot/ns8390.c:431-517 | Whatever arrives, frames come out at most once and in order. |
| Ns8390Runs.LosslessWithoutOverrun | legacy/SZoS/grub-0.97/netboot/ns8390.c:431-517 | Without an overrun every accepted frame comes out or is still queued. |
| Ns8390Runs.BogusBlocks | legacy/SZoS/grub-0.97/netboot/ns8390.c:475-479 | A record taken for bogus is never passed: from then on nothing is delivered. |
| Ns8390Runs.FirstArrival | legacy/SZoS/grub-0.97/netboot/ns8390.c:442-515 | From an empty ring, one arrival and one poll deliver a frame of 60 to 1514 bytes with PRX set; after any other frame nothing is ever delivered again. |
| Ns8390Runs.OverrunEmpties | legacy/SZoS/grub-0.97/netboot/ns8390.c:325-329 | The drain empties the ring if and only if it was empty or all its records, and the last one received, were good. |
| Terminal.ScreenFollowsTape | legacy/kernel-c/drivers/screen.c:52-82 | Writing a character with scrolling does to the screen what it does to the end of an unbounded tape. |
| Terminal.PutShows | legacy/kernel-c/drivers/screen.c:56-79 | A character takes one cell with its attribute behind it, a newline the rest of the row; all else stays, and a new row is blank. |
| Terminal.TypedText | legacy/kernel-c/drivers/screen.c:28-37 | Text without newlines stands, white on black, in the cells from the cursor on. |
| Terminal.TypeConcat | legacy/kernel-c/drivers/screen.c:28-37 | Printing two strings one after the other is printing their concatenation. |
| Terminal.HistoryStands | legacy/kernel-c/drivers/screen.c:65-79 | What stands before the cursor, scrolled off or not, never changes. |
| Screen.Console.GetCursorOffset | legacy/kernel-c/drivers/screen.c:85-92 | The offset read back from the two cursor registers. |
| Screen.Console.SetCursorOffset | legacy/kernel-c/drivers/screen.c:94-101 | An even offset survives in the two byte registers. |
| Screen.Coordinates | legacy/kernel-c/drivers/screen.c:115-117 | Row and column are the coordinates of an offset, and back. |
| Ascii.PutDigits | legacy/kernel-c/kernel/util.c:17-19 | The digits come out lowest first; of the least int only one character, which is not a digit. |
| Ascii.ReverseStart | legacy/kernel-c/kernel/util.c:24-28 | The in-place loop reverses the first i characters and touches no others. |
| Ascii.IntToAscii | legacy/kernel-c/kernel/util.c:13-29 | The text of n and a NUL, in at most twelve characters, and nothing behind them. |
| Ascii.TextIsRight | legacy/kernel-c/kernel/util.c:13-29 | The text can be read back as n if and only if n is not the least int. |
| Decimal.SignedReadBack | legacy/kernel-c/kernel/util.c:13-29 | A numeral with its sign is read back as the number, so no two numbers have the same text. |
| Decimal.TensAndOnes | legacy/kernel-c/kernel/util.c:17-19 | What a numeral means: the ten digits stand for 0 to 9, and each place counts ten times the next. |
| Decimal.NoLeadingZero | legacy/kernel-c/kernel/util.c:17-19 | Numerals have no leading zeros. |
| Screen.Console.MemoryCopy | legacy/kernel-c/kernel/util.c:3-10 | The byte loop copies a block downwards and touches nothing else. |
| Screen.Console.Scroll | legacy/kernel-c/drivers/screen.c:65-76 | All rows move up by one and the last is blank. |
| Screen.Console.PutCell | legacy/kernel-c/drivers/screen.c:56-79 | A character at an offset has the effect of PutOnScreen. |
| Screen.Console.PrintChar | legacy/kernel-c/drivers/screen.c:41-83 | Prints at the coordinates or the cursor; off the screen, a red E appears in the last cell and the cursor stays. |
| Screen.Console.ClearScreen | legacy/kernel-c/drivers/screen.c:103-112 | The screen is blank and the cursor at its start. |
| Screen.Console.AlwaysATerminal | legacy/kernel-c/drivers/screen.c:16-25 | Every screen with its cursor on it is the end of some tape. |
| Screen.Console.Kprint | legacy/kernel-c/drivers/screen.c:37 | The screen shows the end of the tape after typing the string. |
| Screen.Console.KprintAt | legacy/kernel-c/drivers/screen.c:16-35 | The same from given coordinates; off the screen the first character is lost to an E and the rest goes where the coordinates count through to. |
| Screen.StepOffScreen | legacy/kernel-c/drivers/screen.c:45-50 | How printing goes on after a character off the screen. |
| Signature.Search | legacy/SZoS/grub-0.97/netboot/depca.c:680-688 | The loop stops behind the first occurrence of the signature that ends within the limit, and finds one if there is one. |
| Signature.FallBack | legacy/SZoS/grub-0.97/netboot/depca.c:682-685 | After a mismatch no more than one byte of the signature can still be matched. |
| Signature.Overlap | legacy/SZoS/grub-0.97/netboot/depca.c:669 | Two matches that end together expect the same next byte. |
| Etherboot.FormatDigits | legacy/SZoS/grub-0.97/netboot/misc.c:148-163 | Digits produced backwards and turned around in place are those of the number, at most ten. |
| Etherboot.ReverseInPlace | legacy/SZoS/grub-0.97/netboot/misc.c:156-163 | The in-place loop reverses the digits. |
| Etherboot.FormatDecimal | legacy/SZoS/grub-0.97/netboot/misc.c:137-164 | The text of %d for every int, sign included, in at most eleven bytes. |
| Etherboot.IntTextIff | legacy/SZoS/grub-0.97/netboot/misc.c:137-164 | The text of an int can be read back if and only if it is not the least one. |
| Etherboot.FormatHex | legacy/SZoS/grub-0.97/netboot/misc.c:121-136 | The hexadecimal digits, highest first, in two's complement. |
| Etherboot.HexIs | legacy/SZoS/grub-0.97/netboot/misc.c:121-136 | The k hexadecimal digits denote the number modulo 16^k. |
| Etherboot.FormatIp | legacy/SZoS/grub-0.97/netboot/misc.c:165-183 | The text of %@ fits the scratch area, the NUL of the nested call included. |
| Etherboot.FormatEther | legacy/SZoS/grub-0.97/netboot/misc.c:184-193 | The text of %! fits the scratch area, the NUL of the nested call included. |
| Etherboot.FormatItem | legacy/SZoS/grub-0.97/netboot/misc.c:92-201 | For every conversion the item is the one defined and stays within the 20 bytes. |
| Etherboot.Vsprintf | legacy/SZoS/grub-0.97/netboot/misc.c:73-209 | The output is the text of the format with its arguments, taken from left to right. |
| Etherboot.RenderIff | legacy/SZoS/grub-0.97/netboot/misc.c:79-203 | What a format prints is defined if and only if its end cuts off no conversion and the arguments suit its letters. |
| Etherboot.CutOff | legacy/SZoS/grub-0.97/netboot/misc.c:87-121 | Formats that are cut off, whatever the arguments. |
| EtherbootForms.FormIsRendered | legacy/SZoS/grub-0.97/netboot/misc.c:79-203 | A form of a format prints what it means and then the rest: %x all of an int in 8 digits, %hx its lower half in 4, %hhx its lowest byte in 2, in the case of the letter and with 0x or 0X for #; %d a decimal numeral without leading zeros; %@ four of them with dots; %! six times two digits with colons; %c, %s and any other letter themselves. |
| EtherbootForms.OneHexText | legacy/SZoS/grub-0.97/netboot/misc.c:121-136 | The hexadecimal numeral with given number, width and case is the only one. |
| EtherbootForms.SixteenDigits | legacy/SZoS/grub-0.97/netboot/misc.c:135 | Which digit stands for which number. |
| EtherbootForms.FormatIsRendered | legacy/SZoS/grub-0.97/netboot/misc.c:79-203 | A format prints what its forms mean, one after the other, if and only if there are arguments for them, of the kinds they ask for. |
| EtherbootForms.EveryFormatIsWritten | legacy/SZoS/grub-0.97/netboot/misc.c:79-121 | Every format that is not cut off is written in these forms, so that FormatIsRendered is about all of them. |
| EtherbootForms.FormsAreComplete | legacy/SZoS/grub-0.97/netboot/misc.c:79-121 | No format written in these forms is cut off. |
| Decimal.BelowLeast | legacy/SZoS/grub-0.97/netboot/misc.c:142-163 | What comes out for the least int, literally. |
| Etherboot.GetDec | legacy/SZoS/grub-0.97/netboot/misc.c:248-266 | Reads the longest run of digits in 32-bit arithmetic, or -1 without moving. |
| Decimal.ReadDecIff | legacy/SZoS/grub-0.97/netboot/misc.c:248-266 | The number is read right if and only if it is below 2^31. |
| Etherboot.InetAton | legacy/SZoS/grub-0.97/netboot/misc.c:223-246 | Accepts exactly four numbers that getdec reads as 0 to 255, with dots between them, and stores the first in the first byte. |
| Etherboot.AddressIff | legacy/SZoS/grub-0.97/netboot/misc.c:223-246 | An address is accepted, as these four bytes, if and only if the text begins with four longest runs of digits with dots between them, whose numbers are the bytes in 32-bit arithmetic. |
| Etherboot.AddressIsRight | legacy/SZoS/grub-0.97/netboot/misc.c:223-266 | An accepted address is the one written if and only if all four numbers are below 2^31. |
| Etherboot.AddressWraps | legacy/SZoS/grub-0.97/netboot/misc.c:223-266 | Addresses taken for others: the first number too large by 2^32. |
| Decimal.ReadBack | legacy/SZoS/grub-0.97/netboot/misc.c:248-266 | A numeral followed by anything but a digit is read back, and consumed exactly. |
| Etherboot.DecimalRoundTrip | legacy/SZoS/grub-0.97/netboot/misc.c:137-266 | What %d prints for a number that is not negative is read back by getdec as that number and consumed exactly, whatever follows but a digit. |
| Etherboot.AddressRoundTrip | legacy/SZoS/grub-0.97/netboot/misc.c:165-246 | What %@ prints for an address is read back as that address. |
| DeviceMap.ParseLine | legacy/SZoS/grub-0.97/lib/device.c:528-596 | The pointer walk reads a line as ReadLine defines; EntryIff and IgnoredIff say which lines have an entry and which are passed over, and any other is bad. |
| DeviceMap.IgnoredIff | legacy/SZoS/grub-0.97/lib/device.c:528-570 | A line is passed over if and only if it starts with #, has only spaces, or has the form: spaces, (fd or (hd, what strtoul takes for a number above 127. |
| DeviceMap.EntryIff | legacy/SZoS/grub-0.97/lib/device.c:528-596 | A line has an entry if and only if it has the form: spaces, (fd or (hd, what strtoul takes for a number up to 127, ), spaces, a name, and nothing or a space behind it. |
| DeviceMap.LineLengthIff | legacy/SZoS/grub-0.97/lib/device.c:519 | The next piece goes up to 1023 characters, the end of the file or the first newline, whichever comes first. |
| DeviceMap.EveryFileIsCut | legacy/SZoS/grub-0.97/lib/device.c:519 | Every file is cut into such pieces. |
| DeviceMap.SpacesAre | legacy/SZoS/grub-0.97/lib/device.c:533-535 | What counts as a space. |
| DeviceMap.DriveNumberIff | legacy/SZoS/grub-0.97/lib/device.c:553-568 | For which numbers, with or without a minus sign, a line is about a drive, and about which; and for which it is bad. |
| DeviceMap.ReadDeviceMap | legacy/SZoS/grub-0.97/lib/device.c:492-610 | The file is accepted, with the map ReadMap defines, or refused. |
| DeviceMap.AcceptedIff | legacy/SZoS/grub-0.97/lib/device.c:519-609 | A file is accepted if and only if none of the pieces fgets cuts it into, the last one included however it ends, is bad and no two entries are for the same drive; the map then has exactly the entries. |
| DeviceMap.InitDeviceMap | legacy/SZoS/grub-0.97/lib/device.c:660-772 | The map built by probing and the text written on the way: floppies listed whether present or not, disks numbered in the order found; the code stays within its table if and only if at most 128 disks, and no floppy beyond the table, are found. |
| DeviceMap.FoundInOrder | legacy/SZoS/grub-0.97/lib/device.c:660-772 | A floppy that answers has its own number, a disk that answers the number of those found before it. |
| DeviceMap.WrittenText | legacy/SZoS/grub-0.97/lib/device.c:668-669 | An instance of the text written, literally. |
| DeviceMap.LineReadBack | legacy/SZoS/grub-0.97/lib/device.c:668-669 | A written line is read as the entry it was written for, or ignored if its number is above 127. |
| DeviceMap.ReadMapConcat | legacy/SZoS/grub-0.97/lib/device.c:519-607 | Reading one text after another continues with the map of the first. |
| DeviceMap.MapRoundTrip | legacy/SZoS/grub-0.97/lib/device.c:492-772 | Reading the written file succeeds and gives the first 128 of the disks found and of the floppies listed; these are all disks found if and only if there are at most 128. |
| Chs.LocateIsRight | legacy/SZoS/grub-0.97/stage2/bios.c:106-114 | A sector has a place if and only if it lies below cylinders * heads * sectors; the place is in range and determines the sector. |
| Chs.LocateReachesAll | legacy/SZoS/grub-0.97/stage2/bios.c:106-114 | Every place on the disk is the place of its sector number. |
| Chs.Geometry.Biosdisk | legacy/SZoS/grub-0.97/stage2/bios.c:48-122 | The calls made and the error returned; after a failed linear call the fallback is taken once and linear calls are given up, except on CD-ROMs. |

## Left out

- getopt: the orderings other than PERMUTE (a leading `+` or `-`, `POSIXLY_CORRECT`), `long_only`, entries with `W;`, and the printing of messages; long options whose value is -1 without a flag variable are excluded because the caller could not tell them from the end. Characters count as their code, so codes above 127 are not sign-extended.
- TFTP: `await_reply` and `udp_transmit` are a sequence of replies and say nothing about time; the contents of a repeated request are not modelled. `filemax` is an unbounded integer.
- TFTP: a DATA datagram is assumed to hold what its UDP length says (`WellFormed`); `netboot/main.c:844-933` never compares the two, so that line 246 of `fsys_tftp.c` can copy from behind a packet whose length says more, up to the block size agreed on. Behind the memory modelled for an OACK stands a NUL.
- Receive rings: interrupt status bits other than the overrun, transmission, timers, and the choice between memory and port access. Frames lost when a ring is full are the chip's decision.
- Rtl8139.Nic.RtlPoll: a record whose status or size is bad is modelled as stored in full before the driver resets the ring.
- Console: the attribute is always the one `kprint_at` passes, except in `PrintChar`; integer overflow of coordinates.
- Etherboot: printing to the screen instead of a buffer. Overflow of an `int` wraps around.
- Etherboot.Vsprintf: requires a format that does not end inside a conversion and arguments that suit, because the code reads past the end of any other; `RenderIff` says exactly which these are.
- DeviceMap: opening and probing devices, the branch for systems with devfs, and written names with spaces or longer than a line of the buffer. An `unsigned long` has 32 bits.
- Signature: the rest of the DEPCA probe and the checksum of the address.
- Chs: the contents of the BIOS calls; `get_diskinfo`.
- The other network drivers, file systems, interrupt set-up, memory allocation and the EFI code: they would add only easier members.
