# Models of the algorithms in UNIX Network Programming

The programs under `unpv13e/` are mostly networking calls around a few algorithms and
protocols. This project models those in Dafny and proves what they are for: address text
that survives printing and scanning, queues shared by threads and signal handlers,
request and reply over a lossy network, descriptor passing between processes, copying
through non-blocking descriptors, list expansion while walking the list, line input, the
Internet checksum, and three bookkeeping loops around `select` and a bitmap.

`dafny verify dfyconfig.toml` checks all of it.

| file | what it models |
|---|---|
| `Basics.dfy` | bytes, options, the line buffer size |
| `TextFields.dfy` | text split at a separator, and joined |
| `Ipv4Text.dfy` | `inet_pton4`, `inet_ntop4`, `inet_aton` |
| `Ipv6Text.dfy` | `inet_pton6`, `inet_ntop6` |
| `Ipv6Standard.dfy` | the addresses of RFC 1884, and which accepted texts are among them |
| `Ipv6Case.dfy` | upper and lower case, and the plain form of what is printed |
| `Histories.dfy` | the share of one worker in a history |
| `AcceptRing.dfy` | the ring of accepted descriptors shared by threads |
| `SigioQueue.dfy` | the datagram queue between a signal handler and the main loop |
| `Prefork.dfy` | the parent that passes descriptors to preforked children |
| `Rtt.dfy`, `ReliableUdp.dfy` | the round-trip estimator; request and reply over UDP |
| `NonblockCopy.dfy` | the client that copies through two buffers |
| `AddrList.dfy` | the address list of `getaddrinfo` and its expansion by service |
| `Readline.dfy` | buffered and one-byte `readline` |
| `SelectServer.dfy` | the client table of a `select` server |
| `WebClient.dfy` | the web client with a bounded number of connections |
| `PingTable.dfy` | the duplicate table of `ping` |
| `Checksum.dfy` | `in_cksum` |

## How it is modelled

- Code that works on buffers, tables and lists in place is a method, or a class with
  methods, that works on arrays, fields and linked nodes. Each is proved against a
  function or predicate: a grammar, a sum, an expansion of lists, the rest of a stream. For
  the fields of `rtt_info` and the indices of the accept ring that function is the same
  computation on values, and what it is good for is proved of it in lemmas.
- Protocols with several parties are state machines: a state, the steps of every party and
  of the environment, a step function that follows the source statement by statement, an
  invariant that every step keeps, and theorems about every finite run. The parts of these
  protocols that one party runs alone (`AcceptRing.Shared`, `SigioQueue.Queue`,
  `Prefork.Table`, `Rtt.RttInfo`, `ReliableUdp.Client`) are also given as imperative methods tied to the same
  steps.
- The kernel, the network, the scheduler and the clock may do anything the interface
  allows: `read` and `write` split data as they like, `select` reports any subset of what
  is ready, signals and wakeups (also spurious ones) come at any permitted point, and
  datagrams are lost, repeated and reordered.
- C strings are the characters before the NUL. Integer widths are written out where they
  matter: the 32-bit sequence numbers, time stamps and checksum sum, the 16-bit `icmp_seq`,
  and `u_long`, which is a parameter of `inet_aton` (32 or 64 bits).
- Floating-point values of the estimator are reals.
- Automatic induction is switched off on every lemma; each inductive proof is spelled out.

## Where code and comments differ

The models follow the code. Each departure comes with its exact condition and an input.

- `inet_pton6` is said to accept the addresses of section 2.2 of RFC 1884. It accepts all of
  them, with the value the standard gives them, and more texts: `StandardExactly` says that
  an accepted text is an address of the standard if and only if no group has more than four
  digits, the text ends in a colon only with `::`, and `::` stands for enough pieces. RFC
  1884 says multiple groups, which is at least two here; section 2.2 of RFC 4291, which took
  its place, says one or more. The theorem holds for both. `TrailingColon` shows how a colon
  too many goes unnoticed; "::1:", "::00001" and "1:2:3:4:5:6:7::8" are accepted and fail one
  clause each. What `inet_ntop6` prints is an address by both (`PrintedIsStandard`).
- Its comment says that `::` in a full address is silently ignored. In fact the part behind
  it is replaced by zeros, so it is ignored exactly when that part is zero
  (`FullAddressGap`); in "1:2:3:4:5:6:7::8" the last group is lost (`FullGapText`).
- `inet_aton` accepts empty fields, fewer than four fields, and fields whose value wraps
  around to at most 255. `StrictIsLenient` says exactly which of its texts `inet_pton4`
  accepts; "4294967296" is 0.0.0.0 where `u_long` has 32 bits (`WrappingText`).
- `in_cksum` returns the checksum exactly when the sum of the words fits 32 bits
  (`InCksum`); up to 65537 words always fit, and 65538 words of ones do not
  (`WrappedBuffer`).
- The two `readline` functions store the same bytes, but count differently exactly when the
  stream ends, without a newline, after at least one byte and before the limit
  (`CountsAgree`, `UnfinishedLine`). Both return one more than they stored when cut off by
  the limit.
- `sig_io` ends the program with "receive overflow" in every run exactly when, at some point
  while it is at work, the datagrams queued and waiting are at least as many as the slots
  (`EndsAfter`, `EndsFrom`), also when they just fit (`EndsWithNothingLost`). If nothing
  arrives while the handler runs, that is decided when it starts (`EndsExactly`); an arrival
  can make the difference (`ArrivalDecides`). So the last cell of its histogram is never used
  (`FullQueueNeverLeft`).
- `str_cli` returns on end of file from the socket without writing what it has buffered for
  standard output; output is complete exactly when that buffer is empty (`StrCli`), and
  `OutputLost` is a run that loses a byte.
- Sequence numbers of `dg_send_recv` protect the first 2^32 calls (`OwnEcho`); every later
  call can be answered by the reply to the one 2^32 calls before it (`WrapsAround`), and only
  by one with its own number (`SameNumber`).
- The received count of `ping` is the number of different numbers answered exactly when no
  number was answered, sent again and answered again (`CountExactly`). With replies only to
  numbers already sent that cannot happen within 65536 sends (`DistinctAnswers`); with one
  send more it can (`SecondTurn`), and so it can with a reply that comes before its number is
  sent (`EarlyReply`).
- With a constant round-trip time the retransmission timeout settles at that time, within
  its limits (`TimeoutSettles`), but not monotonically (`TimeoutOvershoots`).

## Model

| member | source | states |
|---|---|---|
| `Ipv4Text.ScanQuad` | unpv13e/libfree/inet_pton.c:95-121 | the scanning loop accepts exactly four non-empty digit runs between dots, each worth at most 255, and returns their values |
| `Ipv4Text.InetPton4` | unpv13e/libfree/inet_pton.c:86-125 | the same for the whole function, and the destination is untouched unless the text is accepted |
| `Ipv4Text.RoundTrip4` | unpv13e/libfree/inet_ntop.c:91-100 | scanning the printed form of any four bytes gives them back |
| `Ipv4Text.Ntop4Length` | unpv13e/libfree/inet_ntop.c:92-94 | the printed form fits the buffer sized for the longest quad |
| `Ipv4Text.QuadCharacters` | unpv13e/libfree/inet_pton.c:98-119 | accepted texts consist of digits and dots |
| `Ipv4Text.InetAton` | unpv13e/libfree/inet_aton.c:22-75 | the loop, the normalising shift and the store give the lenient reading: at most four digit runs, possibly empty, each at most 255 after wrapping, with zero octets for missing fields |
| `Ipv4Text.StrictIsLenient` | unpv13e/libfree/inet_aton.c:25-74 | a text is a strict quad if and only if it is lenient, has four non-empty fields and none wraps; then both scanners give the same address |
| `Ipv4Text.WrappingField` | unpv13e/libfree/inet_aton.c:42-56 | the decimal text of any octet plus any multiple of the range of `u_long` is accepted as that octet, and is no quad |
| `Ipv4Text.WrappingText` | unpv13e/libfree/inet_aton.c:42-56 | with a 32-bit `u_long` "4294967296" is accepted as 0.0.0.0 |
| `Ipv6Text.GapUnique` | unpv13e/libfree/inet_pton.c:175-182 | a text has at most one reading: the place of `::` is determined |
| `Ipv6Text.EmbeddedQuad` | unpv13e/libfree/inet_pton.c:191-197 | the branch for a dot accepts exactly when the current field up to the end is a quad that still fits, and otherwise no reading of the text exists |
| `Ipv6Text.LastGroup` | unpv13e/libfree/inet_pton.c:199-204 | the pending group is stored when it fits, and otherwise no reading of the text exists |
| `Ipv6Text.StoreWord` | unpv13e/libfree/inet_pton.c:185-186 | the two stores append the group, high byte first |
| `Ipv6Text.ScanFields` | unpv13e/libfree/inet_pton.c:152-204 | the automaton rejects only texts without a reading, and otherwise holds the bytes before and after the gap of the only one |
| `Ipv6Text.ShiftTail` | unpv13e/libfree/inet_pton.c:205-218 | the overlapping shift in place puts the bytes behind the gap at the end and zeros between, or wipes them when the buffer was full |
| `Ipv6Text.InetPton6` | unpv13e/libfree/inet_pton.c:140-224 | accepts exactly the texts that denote an address by the field grammar and stores that address; otherwise the destination is untouched; what a digit is worth is in the `Ipv6Case` rows |
| `Ipv6Text.FillWords` | unpv13e/libfree/inet_ntop.c:132-134 | the byte loop gives the eight words of the address |
| `Ipv6Text.FindRun` | unpv13e/libfree/inet_ntop.c:135-156 | finds the leftmost of the longest runs of at least two zero words, or that there is none |
| `Ipv6Text.BestUnique` | unpv13e/libfree/inet_ntop.c:135-156 | that choice is unique; it is the one of section 4.2 of RFC 5952 |
| `Ipv6Text.InetNtop6` | unpv13e/libfree/inet_ntop.c:132-187 | the formatting loop writes the fields of the address joined by colons, with the best run as an empty field and the quad forms for embedded addresses |
| `Ipv6Text.RoundTrip6` | unpv13e/libfree/inet_ntop.c:132-187 | for every address the text denotes that address again, with a leading, middle, trailing or absent `::` and with embedded quads |
| `Ipv6Text.PrintedLength` | unpv13e/libfree/inet_ntop.c:122-187 | no text is longer than 39 characters, so it fits its buffer |
| `Ipv6Text.PrintThenScan` | unpv13e/libfree/inet_ntop.c:109-187 | the two methods composed: the printed text is accepted and gives back the 16 bytes |
| `Ipv6Text.FullAddressGap` | unpv13e/libfree/inet_pton.c:134-218 | with `::` in a full address the bytes behind it become zero; the address is as if `::` were absent if and only if they were zero |
| `Ipv6Standard.StandardExactly` | unpv13e/libfree/inet_pton.c:127-224 | a text denotes an address by section 2.2 of RFC 1884, or of RFC 4291, if and only if the scanner reads it as that address and its fields are strict: groups of at most four digits, a last colon only with `::`, and `::` standing for at least two pieces, or one |
| `Ipv6Standard.PrintedIsStandard` | unpv13e/libfree/inet_ntop.c:132-187 | every printed text denotes its address by both standards |
| `Ipv6Standard.TrailingColon` | unpv13e/libfree/inet_pton.c:175-190 | one colon behind a group changes nothing, with or without `::`, and never gives an address of the standard |
| `Ipv6Standard.ExtraColonText` | unpv13e/libfree/inet_pton.c:175-204 | "::1:" is read as "::1" and is no address of the standard |
| `Ipv6Standard.LongGroupText` | unpv13e/libfree/inet_pton.c:167-174 | "::00001" is read as "::1" and is no address of the standard |
| `Ipv6Standard.FullGapText` | unpv13e/libfree/inet_pton.c:205-218 | "1:2:3:4:5:6:7::8" is read with zeros for its last group and is no address of the standard |
| `Ipv6Case.DigitText` | unpv13e/libfree/inet_pton.c:145-174 | every digit of either table behind "::" is the address of fifteen zero bytes and the digit's index |
| `Ipv6Case.OnlyTables` | unpv13e/libfree/inet_pton.c:145-167 | the digits are the characters of the two tables and no others |
| `Ipv6Case.CaseIgnored` | unpv13e/libfree/inet_pton.c:165-169 | every text denotes what it denotes in lower case, or neither denotes an address |
| `Ipv6Case.PrintedPlain` | unpv13e/libfree/inet_ntop.c:157-187 | every field printed is in lower case and has no leading zeros |
| `Ipv6Case.DecimalPlain` | unpv13e/libfree/inet_ntop.c:91-94 | a printed decimal number has no leading zeros |
| `Ipv6Case.PrintedForms` | unpv13e/libfree/inet_ntop.c:135-180 | a printed address shows a gap if and only if two adjacent words are zero, and a quad if and only if ten zero bytes are followed by ff ff, or by two zero bytes and a word that is not zero |
| `AcceptRing.Shared.constructor` | unpv13e/server/pthread08.h:7-8 | the ring starts empty, as the state machine does |
| `AcceptRing.Shared.Put` | unpv13e/server/serv08.c:40-44 | the accept loop's update of the ring is its two steps, and it quits exactly when the indices meet |
| `AcceptRing.Shared.Take` | unpv13e/server/pthread08.c:24-26 | a worker gets the descriptor at `iget` and the ring advances by one step |
| `AcceptRing.ExclusiveStep` | unpv13e/server/pthread08.c:20-32 | every step keeps: whoever is between lock and unlock owns the mutex, and nobody else is |
| `AcceptRing.InOrderStep` | unpv13e/server/serv08.c:35-47 | every step keeps: the cells from `iget` on hold the accepted descriptors not handed out yet, in order |
| `AcceptRing.HandedStep` | unpv13e/server/pthread08.c:24-27 | every step keeps: the k-th descriptor handed out is the k-th accepted, and a worker that has read the ring holds the next |
| `AcceptRing.CountedStep` | unpv13e/server/pthread08.c:28-31 | every step keeps: a worker's counter is the number of descriptors it was handed |
| `AcceptRing.AwakeStep` | unpv13e/server/pthread08.c:22-23 | every step keeps: while a worker sleeps, the awake contenders cover the queued descriptors |
| `AcceptRing.RunKeepsInv` | unpv13e/server/serv08.c:35-47 | all of the above holds in every state of every run with any number of workers |
| `AcceptRing.EachOnceInOrder` | unpv13e/server/pthread08.c:20-32 | in every run each descriptor handed out goes to one worker, in accept order, the ring holds exactly the rest, and holds at most MAXNCLI - 1 unless the server is about to quit |
| `AcceptRing.NoLostWakeup` | unpv13e/server/serv08.c:40-46 | in every run, while a worker sleeps and the main thread is not between a put and its signal, at least as many workers contend as descriptors are queued |
| `AcceptRing.NeverStuck` | unpv13e/server/pthread08.c:20-32 | in every run, with a descriptor queued and the mutex free, some worker can take the mutex now, or all are serving |
| `AcceptRing.StageStep` | unpv13e/server/pthread08.c:22-31 | a worker that finds a descriptor queued goes one stage further with each of its own steps, and no step of another thread sets it back |
| `AcceptRing.TakesNext` | unpv13e/server/pthread08.c:22-31 | in every run such a worker, by its own next five steps, reads and takes the next descriptor in accept order, unlocks, counts, serves it and comes back, whatever the others do between |
| `AcceptRing.HandsAllOut` | unpv13e/server/serv08.c:35-47 | any sequence of descriptors, however long, is handed out in some run, each once and in accept order |
| `AcceptRing.QueuedThenHandedOut` | unpv13e/server/pthread08.c:20-32 | any fewer than MAXNCLI descriptors can all be queued before the first is handed out, and all be handed out then |
| `SigioQueue.FillInPlace` | unpv13e/sigio/dgecho01.c:89-99 | the slot the handler fills holds no datagram still queued or being sent |
| `SigioQueue.HandlerInv` | unpv13e/sigio/dgecho01.c:85-107 | every step of the handler keeps the queue invariant |
| `SigioQueue.MainInv` | unpv13e/sigio/dgecho01.c:57-73 | every step of the main loop keeps the queue invariant; the decrement of `nqueue` is a read and a store |
| `SigioQueue.HandlerDrains` | unpv13e/sigio/dgecho01.c:85-107 | the handler returns with the socket empty, or ends the program |
| `SigioQueue.Queue.constructor` | unpv13e/sigio/dgecho01.c:38-43 | the queue starts as the state machine does |
| `SigioQueue.EndsExactly` | unpv13e/sigio/dgecho01.c:85-107 | when nothing arrives while the handler runs, it ends the program if and only if the queued and the waiting datagrams are at least as many as the slots; it has then filled the queue, and otherwise emptied the socket |
| `SigioQueue.Queue.SigIo` | unpv13e/sigio/dgecho01.c:78-108 | the handler as a loop over the arrays, for a socket to which nothing arrives while it runs, leaves exactly the data its steps lead to, and quits if and only if the queue length and the waiting datagrams make up at least the slots |
| `SigioQueue.RunKeepsInv` | unpv13e/sigio/dgecho01.c:57-108 | the queue invariant holds in every run, with signals at any unblocked point |
| `SigioQueue.EchoesInOrder` | unpv13e/sigio/dgecho01.c:57-73 | in every run what has been echoed are the first arrivals, each once and in order, and the queue holds the next ones |
| `SigioQueue.NeverOverwrites` | unpv13e/sigio/dgecho01.c:64-72 | in every run no handler step changes the slot being sent or any queued one, also after `iget` moved and before `nqueue` is decremented |
| `SigioQueue.NeverForgotten` | unpv13e/sigio/dgecho01.c:58-59 | in every run, a datagram in the socket while the main loop sleeps has a signal that can be delivered or a handler at work |
| `SigioQueue.SleepsOnlyWhenEmpty` | unpv13e/sigio/dgecho01.c:58-59 | in every run, while the main loop sleeps and no handler runs, the queue is empty |
| `SigioQueue.NearerToEcho` | unpv13e/sigio/dgecho01.c:57-73 | with a datagram queued and not echoed, each step of the main loop is one nearer to its echo, and no other step takes it further away |
| `SigioQueue.EchoesNext` | unpv13e/sigio/dgecho01.c:57-73 | in every run, from such a state the first datagram not yet echoed is echoed after a fixed number, at most nine, of the main loop's own steps, whatever arrives and however often the handler runs |
| `SigioQueue.DecrementIsWhole` | unpv13e/sigio/dgecho01.c:71-72 | in every run `nqueue` does not change between the read and the store of its decrement, since the signal is blocked |
| `SigioQueue.HangupHarmless` | unpv13e/sigio/dgecho01.c:58-59 | a SIGHUP during the sleep makes the main loop look once more and sleep again, with nothing changed |
| `SigioQueue.CutFits` | unpv13e/sigio/dgecho01.c:91-99 | a slot holds the sender and the first MAXDG bytes of a datagram |
| `SigioQueue.FullQueueNeverLeft` | unpv13e/sigio/dgecho01.c:86-107 | in every run the handler leaves only with a free slot, so the last histogram cell stays 0 |
| `SigioQueue.DoomedStep` | unpv13e/sigio/dgecho01.c:85-106 | with the handler at work and as many datagrams queued and waiting as slots, each of its steps is one nearer to the end of the program, and no arrival changes that |
| `SigioQueue.EndsAfter` | unpv13e/sigio/dgecho01.c:85-106 | in every run, from such a state the handler never returns and the program ends after a fixed number of the handler's steps, whatever arrives |
| `SigioQueue.EndsFrom` | unpv13e/sigio/dgecho01.c:86-87 | in every run the program ends only from such a state |
| `SigioQueue.ArrivalDecides` | unpv13e/sigio/dgecho01.c:85-95 | with one datagram less than slots the handler would return; after one arrival it ends the program |
| `SigioQueue.EndsWithNothingLost` | unpv13e/sigio/dgecho01.c:86-87 | a run in which eight datagrams find the queue empty, all are read, and the program still ends |
| `SigioQueue.TalliedStep` | unpv13e/sigio/dgecho01.c:101-107 | every step keeps: the histogram and the handler's own count together account for every datagram read |
| `SigioQueue.Histogram` | unpv13e/sigio/dgecho01.c:107-107 | in every run, between two signals the histogram weighted by its index is the number of datagrams read |
| `Prefork.OwingStep` | unpv13e/server/serv05.c:53-80 | every step keeps: a busy child owes exactly one descriptor or ready byte, an idle one nothing |
| `Prefork.FreshStep` | unpv13e/server/serv05.c:65-80 | every step keeps: children left in the last report have their byte waiting, none was assigned since, and `nsel` counts them |
| `Prefork.AvailableStep` | unpv13e/server/serv05.c:45-62 | every step keeps: `navail` is the number of idle entries, and positive whenever the parent looks for one |
| `Prefork.ConservedStep` | unpv13e/server/child05.c:40-50 | every step keeps: each child has served, serves or is about to read exactly what it was passed, in order |
| `Prefork.FoundFirst` | unpv13e/server/serv05.c:54-62 | in every state the protocol reaches, the search ends at the first idle child, marks it and changes no other entry |
| `Prefork.CollectedCount` | unpv13e/server/serv05.c:71-80 | the scan returns to `select` with `navail` raised by the number of reported children |
| `Prefork.CollectedAll` | unpv13e/server/serv05.c:71-80 | the scan frees exactly the reported children and takes one byte from each, despite its early exit |
| `Prefork.Table.constructor` | unpv13e/server/serv05.c:30-39 | the table starts with every child idle, as the state machine does |
| `Prefork.Table.Assign` | unpv13e/server/serv05.c:54-62 | the search and marking on the arrays lead to what the parent's steps lead to, including the exit |
| `Prefork.Table.Collect` | unpv13e/server/serv05.c:71-80 | the scan on the arrays, with its early exit, leads to what the parent's steps lead to |
| `Prefork.RunKeepsInv` | unpv13e/server/serv05.c:43-81 | all of the above holds in every run with any number of children |
| `Prefork.Bookkeeping` | unpv13e/server/serv05.c:43-81 | in every run `navail` is the number of idle children, a busy child owes exactly one thing, and the exit for want of a child is never taken |
| `Prefork.StaleSetIsSafe` | unpv13e/server/serv05.c:71-76 | in every run the parent reads a pipe only when its byte is there, and never frees a child assigned since the `select` |
| `Prefork.NothingSkipped` | unpv13e/server/serv05.c:66-79 | in every run, when the parent returns to `select` everything reported has been handled |
| `Prefork.EachOnce` | unpv13e/server/child05.c:40-50 | in every run the k-th accepted descriptor is the k-th passed, and each child works through its own share in order |
| `Prefork.ChildServes` | unpv13e/server/child05.c:40-50 | in every run a child with a descriptor in its pipe reads it with its own next step and has served it and reported ready with the one after, whatever the others do |
| `Prefork.ServesAll` | unpv13e/server/serv05.c:43-81 | any sequence of connections is accepted, passed and served in order in some run, after which all children are idle again |
| `Rtt.MinMax` | unpv13e/lib/rtt.c:12-20 | the result is the argument within the limits and the limit passed outside them |
| `Rtt.MinMaxNearest` | unpv13e/lib/rtt.c:12-20 | the result is the permitted value nearest to the argument, and the only one |
| `Rtt.RttInfo.Init` | unpv13e/lib/rtt.c:22-35 | the fields become the initial estimators; the retransmission count is left alone |
| `Rtt.RttInfo.NewPacket` | unpv13e/lib/rtt.c:56-60 | the structure becomes that of a new packet |
| `Rtt.RttInfo.Stopped` | unpv13e/lib/rtt.c:80-102 | the fields become the estimators after one more sample |
| `Rtt.RttInfo.TimedOut` | unpv13e/lib/rtt.c:111-119 | the fields become those after a timeout, and the result says whether to give up |
| `Rtt.StopBounded` | unpv13e/lib/rtt.c:80-102 | the mean stays in [0, largest sample], the deviation in [0, max(0.75, largest sample)] |
| `Rtt.TimeoutScale` | unpv13e/lib/rtt.c:111-119 | a timer between 2 * 2^k and 60 * 2^k seconds is next between 2 * 2^(k+1) and 60 * 2^(k+1) |
| `Rtt.StartNearest` | unpv13e/lib/rtt.c:62-67 | the alarm is the whole number of seconds nearest to the timeout, halves up |
| `Rtt.StartScale` | unpv13e/lib/rtt.c:62-67 | rounding keeps those bounds, so the alarm is never armed with 0 |
| `Rtt.FirstTimeouts` | unpv13e/lib/rtt.c:30-34 | without a sample the first timeout is the 3 seconds announced, and the k-th alarm 3 * 2^k |
| `Rtt.ConstantPathMean` | unpv13e/lib/rtt.c:93-94 | with a constant round-trip time the error of the mean after n samples is (7/8)^n of the first |
| `Rtt.ConstantPath` | unpv13e/lib/rtt.c:93-101 | the mean and the mean deviation after n such samples in closed form |
| `Rtt.ConstantPathTimeout` | unpv13e/lib/rtt.c:93-101 | the timeout in closed form; its distance from the round-trip time, taken within the limits, stays below a bound that shrinks by 7/8 per sample |
| `Rtt.PowVanishes` | unpv13e/lib/rtt.c:94-94 | that bound falls below every positive number and stays there |
| `Rtt.TimeoutSettles` | unpv13e/lib/rtt.c:93-101 | for every tolerance there is a number of samples from which on the timeout is that close to the round-trip time, taken within the limits |
| `Rtt.TimeoutOvershoots` | unpv13e/lib/rtt.c:93-101 | the distance may grow first: 11 and then 16.875 seconds for a round trip of 10 |
| `ReliableUdp.NetworkStep` | unpv13e/rtt/dg_send_recv.c:60-86 | every step keeps: each datagram under way goes back to a copy that was sent, and a match carries the sequence number of the call |
| `ReliableUdp.StampedStep` | unpv13e/rtt/dg_send_recv.c:60-61 | every step keeps: the stamp of a copy is its sending time relative to its call's base |
| `ReliableUdp.FinishHonest` | unpv13e/rtt/dg_send_recv.c:86-92 | what a call returns is the echo of a copy of a call with its number; among the first 2^32 calls of its own, and its sample is the time since that copy was sent, modulo 2^32 |
| `ReliableUdp.HonestStep` | unpv13e/rtt/dg_send_recv.c:32-92 | every step keeps that for all calls so far |
| `ReliableUdp.FewCopiesStep` | unpv13e/rtt/dg_send_recv.c:54-78 | every step keeps: no call has more than four copies, and the current one has one per timeout and one more once the latest is out |
| `ReliableUdp.TimedStep` | unpv13e/rtt/dg_send_recv.c:54-90 | every step keeps the bounds of timer and estimators |
| `ReliableUdp.RunKeepsInv` | unpv13e/rtt/dg_send_recv.c:26-92 | all of the above holds in every run of client, echo server and network |
| `ReliableUdp.OwnEcho` | unpv13e/rtt/dg_send_recv.c:32-92 | in every run each answered call among the first 2^32 returns the echo of its own request, all of it when it fits the buffers, and samples the copy that was answered |
| `ReliableUdp.TimersAndEstimators` | unpv13e/rtt/dg_send_recv.c:54-90 | in every run at most four copies per call, the k-th timer in [2 * 2^k, 60 * 2^k], the estimators within the samples seen |
| `ReliableUdp.RemembersStep` | unpv13e/rtt/dg_send_recv.c:26-90 | every step keeps: the estimators are those of the samples taken since the last call that gave up, and the timer is doubled per timeout of the current call |
| `ReliableUdp.EstimatorsFold` | unpv13e/rtt/dg_send_recv.c:26-90 | that holds in every run |
| `ReliableUdp.TakeFits` | unpv13e/rtt/dg_send_recv.c:46-49 | a buffer of n bytes takes the first n bytes of a payload, or all of it |
| `ReliableUdp.SameNumber` | unpv13e/rtt/dg_send_recv.c:81-92 | in every run every answered call, however late, returns the echo of a copy of an earlier or the same call with the same number modulo 2^32 |
| `ReliableUdp.ManyCalls` | unpv13e/rtt/dg_send_recv.c:68-79 | after any number of calls that gave up, the reply to any one of them may still be under way |
| `ReliableUdp.WrapsAround` | unpv13e/rtt/dg_send_recv.c:32-86 | the bound is exact: for every call from 2^32 + 1 on there is a run in which it returns the echo of the call 2^32 before it |
| `ReliableUdp.LastAnswer` | unpv13e/rtt/dg_send_recv.c:81-92 | in every reachable state the last call, if answered and among the first 2^32, returned its own echo |
| `ReliableUdp.Net.Run` | unpv13e/rtt/dg_echo.c:10-15 | time, the echo server and stray datagrams act as the steps of the state machine, and leave the client alone |
| `ReliableUdp.Client.constructor` | unpv13e/rtt/dg_send_recv.c:7-13 | the zeroed static data is the client's part of the initial state |
| `ReliableUdp.Client.Begin` | unpv13e/rtt/dg_send_recv.c:26-54 | the start of a call on the static data is exactly the call step of the state machine |
| `ReliableUdp.Client.SendAgain` | unpv13e/rtt/dg_send_recv.c:60-63 | sending on the static data is exactly the send step, and the alarm is set to its timer |
| `ReliableUdp.Client.Expired` | unpv13e/rtt/dg_send_recv.c:68-79 | the timeout branch is exactly the expiry step; it gives up at the fourth alarm of a call |
| `ReliableUdp.Client.Rang` | unpv13e/rtt/dg_send_recv.c:68-79 | an alarm gives up, or sends one more copy and waits again |
| `ReliableUdp.Client.Deal` | unpv13e/rtt/dg_send_recv.c:68-92 | one event: a match not followed at once by the alarm ends the call with its bytes, the fourth alarm ends it without, and anything else leaves it waiting |
| `ReliableUdp.Client.Finished` | unpv13e/rtt/dg_send_recv.c:88-92 | stopping the timer and taking the sample is exactly the finish step, and returns the bytes it logs |
| `ReliableUdp.Client.DgSendRecv` | unpv13e/rtt/dg_send_recv.c:26-92 | the function with its retransmission loop, against any events: it returns the bytes of the first matching reply that is not followed at once by the alarm if that comes before the fourth alarm, fails if four alarms come first, and otherwise still waits; it logs that outcome, stays within the reachable states, and among the first 2^32 calls returns a prefix of its own request's echo, all of it when it fits |
| `NonblockCopy.Copier.constructor` | unpv13e/nonblock/strclinonb.c:22-24 | the copier starts valid with nothing read or written |
| `NonblockCopy.Copier.NeverWaitsOnNothing` | unpv13e/nonblock/strclinonb.c:28-39 | in every valid state `select` has a descriptor to wait for |
| `NonblockCopy.Copier.ReadStdin` | unpv13e/nonblock/strclinonb.c:42-62 | exactly what was ready and fits is appended to the outgoing buffer and nothing else moves; end of file is remembered, and answered with SHUT_WR if all is sent |
| `NonblockCopy.Copier.ReadSocket` | unpv13e/nonblock/strclinonb.c:64-86 | exactly what was ready and fits is appended to the incoming buffer; end of file ends the loop, prematurely unless standard input ended before |
| `NonblockCopy.Copier.WriteStdout` | unpv13e/nonblock/strclinonb.c:89-103 | as much as there is room for is written from the front of the incoming buffer |
| `NonblockCopy.Copier.WriteSocket` | unpv13e/nonblock/strclinonb.c:105-122 | as much as there is room for is written from the front of the outgoing buffer; SHUT_WR only after end of input with everything sent, and nothing is sent after it |
| `NonblockCopy.Copier.Iterate` | unpv13e/nonblock/strclinonb.c:27-123 | one turn keeps both streams in order, takes exactly what was ready and fits, offers it for writing in the same turn, and ends exactly on the conditions of the source |
| `NonblockCopy.SentOnce` | unpv13e/nonblock/strclinonb.c:42-122 | a turn only adds to the streams; after its end standard input is not read again, and once all of it is sent nothing more is |
| `NonblockCopy.TurnEnds` | unpv13e/nonblock/strclinonb.c:42-86 | a turn ends the loop without an error if and only if the socket is at end of file and standard input has not failed before it; it returns exactly if standard input has ended by then |
| `NonblockCopy.TurnWrites` | unpv13e/nonblock/strclinonb.c:89-122 | what is read or was reported writable is written in the same turn as far as there is room |
| `NonblockCopy.StrCli` | unpv13e/nonblock/strclinonb.c:4-124 | against any kernel: every turn does exactly what its reports and answers allow; sent followed by the buffer is what was read, likewise for the other direction; SHUT_WR once at most, exactly when input ended and all is sent; output is complete exactly when its buffer is empty |
| `NonblockCopy.OutputLost` | unpv13e/nonblock/strclinonb.c:69-74 | two turns after which the function has returned with a received byte unwritten |
| `AddrList.GaClone` | unpv13e/libgai/ga_clone.c:8-30 | the list has a new node behind the given one, equal to it but for the clone flag and the name, with a socket address of its own |
| `AddrList.SetPort` | unpv13e/libgai/ga_port.c:47-62 | only this entry gets the type and, if it has one, the port; which port an entry ends up with is stated field by field in `ExpansionCovers` |
| `AddrList.PortOne` | unpv13e/libgai/ga_port.c:38-62 | one turn turns one entry into one or two as the expansion says, and goes on behind them |
| `AddrList.GaPort` | unpv13e/libgai/ga_port.c:30-65 | the walk over the growing list ends, leaves the expansion of the list, returns the number of ports set, and shares no node or address between entries |
| `AddrList.PortGrouped` | unpv13e/libgai/ga_port.c:37-64 | a pass with a further type adds one entry to the group of every host and sets one port per host |
| `AddrList.OneEntryPerHostAndType` | unpv13e/libgai/ga_port.c:37-64 | passes with pairwise distinct types leave exactly one entry per host and type, grouped in host order, and each returns the number of hosts |
| `AddrList.GroupedAt` | unpv13e/libgai/ga_port.c:37-64 | where each entry of the result is, and that there are no others |
| `AddrList.GaAistruct` | unpv13e/libgai/ga_aistruct.c:8-61 | the list has one more entry at its end, marked for cloning exactly when no socket type was given |
| `AddrList.RunPasses` | unpv13e/libgai/ga_serv.c:18-47 | a sequence of passes leaves the iterated expansion and the total count |
| `AddrList.GaServ` | unpv13e/libgai/ga_serv.c:8-57 | which passes are made for which hint and service, and which code is returned |
| `AddrList.TwoTypes` | unpv13e/libgai/ga_serv.c:23-31 | two passes give every host both entries and count each |
| `AddrList.NumericService` | unpv13e/libgai/ga_serv.c:16-31 | a port number without a type gives every host a stream and a datagram entry |
| `AddrList.LookupValues` | unpv13e/libgai/ga_serv.c:15-48 | the passes chosen leave a group per host with an entry per service, or with a socket type given the hosts with that service's port |
| `AddrList.ServicesExactly` | unpv13e/libgai/ga_serv.c:16-48 | a number counts for the type asked for, or for both; a name for stream sockets with its tcp port and for datagram sockets with its udp port, as far as known and asked for |
| `AddrList.ServiceExamples` | unpv13e/libgai/ga_serv.c:23-47 | the services of a number, and of a name known to both, without a type |
| `AddrList.OneService` | unpv13e/libgai/ga_serv.c:18-47 | with a socket type there is at most one service, of that type |
| `AddrList.GroupedEntry` | unpv13e/libgai/ga_port.c:37-62 | without a type, which place the entry of a host and service has, and its family, address, type, protocol and port |
| `AddrList.ExpansionCovers` | unpv13e/libgai/ga_port.c:47-62 | for every hint, every host and service have an entry with the host's address and the service's type and port |
| `AddrList.PositionOnto` | unpv13e/libgai/ga_port.c:37-64 | every place holds the entry of some host and service |
| `AddrList.ExactlyOne` | unpv13e/libgai/ga_port.c:37-64 | with different hosts and types, each host and type have exactly one entry |
| `AddrList.HostList` | unpv13e/libgai/getaddrinfo.c:133-137 | appending the hosts one by one gives the list of their entries, in order, sharing nothing |
| `AddrList.Lookup` | unpv13e/libgai/getaddrinfo.c:133-159 | appends and passes composed: the call succeeds if and only if a host and a service are found, and then the list has for every host and service one entry, with the address of the host and the type and port of the service, and no others |
| `Readline.Kernel.Read` | unpv13e/lib/readline.c:14-19 | what a read may do: a part of the rest of the stream, the end, an interrupt or an error |
| `Readline.Reader.MyRead` | unpv13e/lib/readline.c:8-26 | gives the next byte of the stream however it is delivered; buffered plus unread bytes are always the rest of it |
| `Readline.Reader.Refill` | unpv13e/lib/readline.c:12-21 | interrupted reads are repeated, no byte is lost, and it fails if and only if it meets an error |
| `Readline.Reader.ReadLine` | unpv13e/lib/readline.c:28-49 | stores the next line of the stream within the limit, terminated, consumes exactly it, and returns its count; it fails at the first error of a read, and only then, with the bytes gone from the stream in the buffer |
| `Readline.Reader.ReadLineBuf` | unpv13e/lib/readline.c:51-57 | returns how many bytes are read ahead and where they are |
| `Readline.PlainReadLine` | unpv13e/server/readline.c:4-27 | the same line, with one system call per byte and its own count; it fails at the first error or interrupt, and only then, with the bytes gone from the stream in the buffer |
| `Readline.LineShape` | unpv13e/lib/readline.c:35-45 | the line is all of a stream that ends before a newline and the limit; any other line is complete or cut off, and only its last byte can be a newline |
| `Readline.CountsAgree` | unpv13e/server/readline.c:16-26 | the two counts differ if and only if the stream has bytes left, none a newline, and ends before the limit |
| `Readline.UnfinishedLine` | unpv13e/server/readline.c:16-26 | for a stream of one letter the buffered form returns 1 and the one-byte form 2 |
| `Readline.LinesConserve` | unpv13e/lib/readline.c:28-49 | the lines of successive calls together are a prefix of the stream |
| `Readline.BufferedSession` | unpv13e/lib/readline.c:28-49 | successive buffered calls store the lines of the stream |
| `Readline.PlainSession` | unpv13e/server/readline.c:4-27 | successive one-byte calls store the lines of the stream |
| `Readline.SameLines` | unpv13e/lib/readline.c:28-49 | both forms store the same lines for every way the kernel may split the stream or interrupt the buffered form |
| `SelectServer.Server.constructor` | unpv13e/tcpcliserv/tcpservselect01.c:26-31 | the table starts empty with the listening descriptor in the set |
| `SelectServer.Server.AddClient` | unpv13e/tcpcliserv/tcpservselect01.c:48-60 | the connection goes into the first free slot and the set, the bounds still hold; it fails exactly when no slot is free |
| `SelectServer.Server.CloseClient` | unpv13e/tcpcliserv/tcpservselect01.c:72-74 | the slot is free and its descriptor out of the set |
| `SelectServer.Server.ServeReady` | unpv13e/tcpcliserv/tcpservselect01.c:66-81 | despite the early exit every ready client is served exactly once, and those at end of file leave table and set |
| `SelectServer.Server.SweepReady` | unpv13e/tcpcliserv/tcpservselect01.c:66-81 | its loop over the table, from the first slot to the last one used |
| `SelectServer.Server.Round` | unpv13e/tcpcliserv/tcpservselect01.c:35-82 | one turn: the reported clients are served once each, the new one is not; the set is the listening descriptor and the live clients |
| `SelectServer.SweepStep` | unpv13e/tcpcliserv/tcpservselect01.c:66-80 | what one index of the sweep does to table, set and work left |
| `SelectServer.AlwaysASlot` | unpv13e/tcpcliserv/tcpservselect01.c:48-54 | while descriptors stay below FD_SETSIZE a slot is always free |
| `SelectServer.Serve` | unpv13e/tcpcliserv/tcpservselect01.c:35-82 | over any sequence of turns the table stays consistent, every turn serves exactly the clients reported of those then watched, once each, and leaves watched the others, the new one and those not at end of file; the server never quits while descriptors stay below FD_SETSIZE |
| `WebClient.Client.WriteGetCmd` | unpv13e/nonblock/write_get_cmd.c:13-17 | the file is reading and its descriptor watched |
| `WebClient.Client.StartConnect` | unpv13e/nonblock/start_connect.c:12-30 | the file gets its descriptor and becomes connecting or reading, and with the caller's counts the bookkeeping still holds |
| `WebClient.Client.FindUnstarted` | unpv13e/nonblock/web.c:35-39 | while the count says so there is an unstarted file, so "nothing found" cannot happen |
| `WebClient.Client.OpenConnections` | unpv13e/nonblock/web.c:33-43 | connections are opened up to the limit or until none is left, without exceeding it |
| `WebClient.Client.ScanOne` | unpv13e/nonblock/web.c:50-78 | one file moves on as the report says, and counters and sets with it |
| `WebClient.Client.Scan` | unpv13e/nonblock/web.c:49-79 | every file is handled once by the report |
| `WebClient.Client.NeverWaitsOnNothing` | unpv13e/nonblock/web.c:45-47 | with files left and a positive limit `select` has a descriptor to wait for |
| `WebClient.Client.AllDone` | unpv13e/nonblock/web.c:32-81 | the loop ends only with all files done |
| `WebClient.MovesExactly` | unpv13e/nonblock/web.c:49-79 | a turn moves exactly the active files `select` reports: a connecting one when readable or writable, a reading one when readable and at its end |
| `WebClient.NeverBack` | unpv13e/nonblock/web.c:32-81 | over a whole run no file goes back to an earlier state |
| `WebClient.Fetch` | unpv13e/nonblock/web.c:25-81 | against any kernel: every turn opens connections up to the limit and moves every file as reported, until all are done; the counters are the numbers of files in each state, the sets exactly the descriptors in use, and connections stay within a positive limit |
| `PingTable.PackedBits` | unpv13e/ping/bsdping.c:93-97 | setting or clearing a bit of the packed table changes that bit and no other |
| `PingTable.Ping.constructor` | unpv13e/ping/bsdping.c:115-117 | the table starts with no number answered |
| `PingTable.Ping.Pinger` | unpv13e/ping/bsdping.c:416-419 | a send takes the next 16-bit number and forgets its answer |
| `PingTable.Ping.PrPack` | unpv13e/ping/bsdping.c:481-508 | a reply is a duplicate exactly when its number was answered since its last send; received plus repeated counts all replies |
| `PingTable.CountExactly` | unpv13e/ping/bsdping.c:481-508 | in every history the received count is at least the number of different numbers answered, and equal to it if and only if no number was answered, sent again and answered again |
| `PingTable.DistinctAnswers` | unpv13e/ping/bsdping.c:501-508 | with replies only to numbers already sent, and up to 65536 sends, that never happens, and the counts are equal |
| `PingTable.Session` | unpv13e/ping/bsdping.c:416-508 | a run of the program over any sends and replies has the received count of its history: exactly when no number was answered, sent again and answered again it is the number of different numbers answered; received plus repeated is always the number of replies |
| `PingTable.EarlyReply` | unpv13e/ping/bsdping.c:501-508 | a reply before its number is sent, the send and a second reply: two count for one number |
| `PingTable.SecondTurn` | unpv13e/ping/bsdping.c:419-508 | the bound is exact: with 65537 sends two answers to one number both count |
| `Checksum.FoldIsCanon` | unpv13e/libfree/in_cksum.c:27-29 | two folds of any 32-bit sum give its canonical remainder modulo 65535 |
| `Checksum.OnesSumCanon` | unpv13e/libfree/in_cksum.c:16-29 | that is the one's-complement sum with end-around carry, of section 1 of RFC 1071 |
| `Checksum.WordBytes` | unpv13e/libfree/in_cksum.c:16-19 | a word is its two bytes by place value in the order of the machine |
| `Checksum.OddByte` | unpv13e/libfree/in_cksum.c:21-25 | an odd last byte counts as if a zero byte followed it |
| `Checksum.InCksum` | unpv13e/libfree/in_cksum.c:3-32 | the result is the checksum if and only if the true sum fits 32 bits, for every length an int holds; always up to 65537 words |
| `Checksum.WrappedBuffer` | unpv13e/libfree/in_cksum.c:16-31 | 65538 words of ones have checksum 0 and get 1 |
| `Checksum.WrapLoses` | unpv13e/libfree/in_cksum.c:16-25 | a sum that wrapped never folds to the right value |
| `Checksum.StoredChecks` | unpv13e/udpcksum/udpwrite.c:49-52 | with the checksum stored in a zeroed even field, also as 0xffff for 0, the whole checks as 0 |
| `Checksum.OrderIndependent` | unpv13e/libfree/in_cksum.c:16-31 | big-endian and little-endian machines store the same two bytes, also for odd lengths; section 2 (B) of RFC 1071 |

## Left out

- The loops that other parties interrupt (the parent and children of `serv05`, the main loop of `dgecho01` and the threads of `serv08`) are modelled on values, as steps of a state machine; update in place is captured for the parts one party runs alone, which are given as classes.
- Foreign datagrams with a full header: every datagram the UDP client gets is an echo, or too short for a header.
- An alarm that comes before `sigsetjmp` was called in this attempt, and errors other than "would block" of `recvfrom` in the signal handler.
- A child that dies: the parent's exit for end of file on a pipe, and descriptors that `Read_fd` fails to deliver.
- The ENOSPC checks of the address printers, failing allocation, and the address family dispatch around them.
- Local-domain entries of the address list beyond the fact that they have no port, canonical names, an empty service name, and the lookups of hosts and services, which are parameters.
- Rounding of floating-point values in the estimator.
- Liveness under a fair scheduler: the theorems say what a worker, child, handler or main loop has done once it has taken its own next steps, and that runs that serve everything exist, not that the scheduler lets it take them.
- Socket, signal, process and thread wrappers, socket options, multicast, SCTP, daemons, name lookup and all output: thin layers over system calls.
- `threads/web03.c`, which can deadlock, and `threads/web02.c`, which says itself that it does not work right.
- `container/list.c` and its copy, which rely on the contents of fresh memory and read freed nodes.
- The practice programs outside `unpv13e` and small helpers such as `readn`, `writen` and `tv_sub`: they hold no algorithm of their own.
