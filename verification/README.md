# Verified models of the network programming demos

The repository collects socket demos. Six of them contain state machines, data structures or concurrent
threads, and this project models those six and proves what they are for:

- **The incremental HTTP request parser** (`http_parse.cpp`). `HttpConnection.dfy` is the parser as it runs,
  one buffer overwritten in place and four indices kept between `recv` calls. `HttpMachine.dfy` is the same
  as a function on the state. `HttpChunks.dfy` proves that the way the bytes are cut into chunks does not
  matter, `HttpInvariant.dfy` and `HttpRuns.dfy` what holds on every run, `HttpAcceptance.dfy` and
  `RequestLine.dfy` exactly which bytes are accepted, `HttpOutputs.dfy` what is printed for those that are not.
  `CString.dfy` has the C string calls.
- **The growable byte buffer** (`Buffer_old.cpp`). `ByteBuffer.dfy` is the class over a heap array,
  `BufferShape.dfy` the index arithmetic with the amortised cost, `BufferStore.dfy` many buffers at once.
- **The event-select server table** (`AsynNotiEcho.cpp`). `EventTable.dfy` is the scan over a table that
  changes under it, `EventServer.dfy` the two arrays; `EventMeaning.dfy` says what a pass does by what the
  events report, `EventService.dfy` how soon a client is served.
- **The two-semaphore hand-off** (`semaphore.c`), in `HandOff.dfy`, for any number of rounds.
- **The non-blocking multi-connect program** (`nbc.cpp`). `ConnectLoop.dfy` is the program over its slots and
  descriptor sets, `ConnectSpec.dfy` the same as functions, `ConnectRuns.dfy` what holds on every run,
  `ConnectMeaning.dfy` the same in terms of the addresses and of what `select` returns.
- **The object pool** (`Mempool.h`), in `ObjectPool.dfy`.

Run `dafny verify dfyconfig.toml` to check everything.

## How the model relates to the code

The request grammar is the code's dialect of section 3.1.1 of RFC 7230, not the standard's: the method and
the version are compared without case, runs of spaces and tabs separate the words, a bare LF is ordinary
data, and a line is a C string that ends at its first NUL. The received bytes are Dafny characters of any
value; nothing depends on their width. The buffer size is a parameter.

What comes from outside is a parameter over which every statement quantifies: the bytes that arrive and how
`recv` cuts them, the reports of the event calls, the results of `select` and of the connects, the scheduler
of the two threads, what `new` returns. `printf` output is a log. In the pool each locked operation is one
step. A failed `recv` ends the run like the end of the stream.

Two properties that one would expect of `nbc.cpp` are false of the code, and the model keeps the code as it is:

- "Every socket gets one verdict and the loop always ends." A skipped address (lines 80-81 and 91-94) uses up
  a slot but is not counted in `numsock`, so the loops over slots `0..numsock-1` miss the last sockets of that
  host. A skipped slot holds -1 in the first three places and after a failed `socket()`, and 0 otherwise; on -1
  the loops call `FD_ISSET` with a negative descriptor, which has no defined outcome, and the model marks the
  run as undefined. `ConnectRuns.OneVerdictEach` and `ConnectRuns.TerminationExact` say exactly when a run is
  defined and every socket gets one verdict, and when every run is defined and ends: if and only if no socket
  in progress lies behind a skipped address and no visited slot holds -1. `ConnectMeaning.ConditionExact` says
  what this means on the addresses. `ConnectRuns.SkippedHidesSocket` is an input where a socket is
  missed although no negative descriptor is tested, `ConnectRuns.FailedSocketTested` one where -1 is tested
  although no socket is missed.
- "A connect that completes after `select` has timed out is still noticed." `select` clears the set when it
  times out, and line 167 goes back to it without restoring the set, so the message "wait..." promises what
  cannot happen. `ConnectRuns.TimeoutHidesSocket` is an input: the first call times out, every later one would
  return the socket, and it is reported as timed out. `ConnectRuns.NoticedExact` and `ConnectRuns.VerdictOf` say
  exactly when the code does notice a socket: if and only if `select` returns it before the first timeout;
  `ConnectMeaning.NoticedMeans` says the same by the results of `select` alone.

These statements assume of the kernel that it hands out no descriptor twice, none that is negative, and not 0,
which is the standard input.

The comment at line 65 of `http_parse.cpp` speaks of input without CR and LF; in the code an LF that does not
follow a CR is skipped like any other byte, and the model follows the code.

## Model

| member | source | states |
|---|---|---|
| HttpChunks.ChunkIndependence | Linux/LinuxHighPerformanceServerPrograming/http_parse.cpp:130-171 | For every idle parser and every list of chunks, feeding them one at a time until the first verdict other than NO_REQUEST gives the verdict and the whole state (buffer, checked_index, start_line, checkstate, output) of a single call on all the bytes; only the bytes not yet read differ |
| HttpChunks.SplitsAgree | Linux/LinuxHighPerformanceServerPrograming/http_parse.cpp:207-237 | Two ways of cutting the same bytes agree on the verdict, and while it is NO_REQUEST on everything that persists between calls |
| HttpChunks.ContentResumes | Linux/LinuxHighPerformanceServerPrograming/http_parse.cpp:130-171 | A call with more bytes is a call without them followed, if that one asked for more, by a second call with them; a final verdict ignores what comes later |
| HttpChunks.ScanResumes | Linux/LinuxHighPerformanceServerPrograming/http_parse.cpp:38-67 | parse_line can be resumed where it ran out of bytes |
| HttpChunks.ScanFrame | Linux/LinuxHighPerformanceServerPrograming/http_parse.cpp:38-67 | A scan that found a line end or an error does not depend on later bytes |
| HttpChunks.DispatchFrame | Linux/LinuxHighPerformanceServerPrograming/http_parse.cpp:69-128 | The line handlers, with their in-place NULs, ignore bytes received behind their line |
| HttpAcceptance.ExactAcceptance | Linux/LinuxHighPerformanceServerPrograming/http_parse.cpp:69-171 | Both directions: GET_REQUEST iff a valid request line, CR-free non-empty header lines and an empty line; BAD_REQUEST iff a CR without LF or an invalid first line comes first; NO_REQUEST iff neither |
| HttpAcceptance.AcceptedPrints | Linux/LinuxHighPerformanceServerPrograming/http_parse.cpp:69-171 | For every stream and output: accepted with that output iff it splits into a request line with a path, header lines, an empty line and a rest, and the output is the method, that path and what the header lines print, in order |
| HttpOutputs.OpenPrints | Linux/LinuxHighPerformanceServerPrograming/http_parse.cpp:130-171 | For every stream and output: more is asked for with that output iff no line is complete and nothing is printed, or the complete lines are a request line and headers and just they are printed |
| HttpOutputs.RejectedPrints | Linux/LinuxHighPerformanceServerPrograming/http_parse.cpp:130-171 | For every stream and output: rejected with that output iff a CR without LF comes first, or the first line is invalid and the method is printed just if it is GET, or a CR without LF comes behind a request line and headers, which are printed |
| HttpAcceptance.InterpretHeaders | Linux/LinuxHighPerformanceServerPrograming/http_parse.cpp:113-128 | Complete header lines are read one by one, in order, whatever follows them |
| HttpAcceptance.HostExact | Linux/LinuxHighPerformanceServerPrograming/http_parse.cpp:119-123 | A host is printed exactly for lines made of Host: in any case, a run of blanks and the host, and it is that host |
| HttpAcceptance.HeaderExact | Linux/LinuxHighPerformanceServerPrograming/http_parse.cpp:113-128 | In the letters of the line: only the empty line ends the headers; a line that starts with Host: in any case prints one host, every other line one complaint |
| HttpAcceptance.MethodExact | Linux/LinuxHighPerformanceServerPrograming/http_parse.cpp:81-86 | In the letters of the line: anything is printed exactly for lines that start with GET, each letter in either case, and a space or a tab; only such lines are accepted |
| CString.EqNoCaseExact | Linux/LinuxHighPerformanceServerPrograming/http_parse.cpp:81-100 | Ignoring case: two strings match iff they have the same length and at each place the same byte, or an upper-case letter and the lower-case letter 32 above it |
| HttpAcceptance.FirstLinePrints | Linux/LinuxHighPerformanceServerPrograming/http_parse.cpp:81-108 | The method is printed exactly when the first word is GET, even if the line turns out invalid, and the URL exactly when the line is a request line with that path |
| HttpRuns.RunMeaning | Linux/LinuxHighPerformanceServerPrograming/http_parse.cpp:207-237 | Under every chunking the verdict and everything printed are a reading of the received bytes alone, without buffer or indices |
| HttpRuns.RunAccepts | Linux/LinuxHighPerformanceServerPrograming/http_parse.cpp:207-237 | Exact acceptance under every chunking |
| HttpRuns.RunPrints | Linux/LinuxHighPerformanceServerPrograming/http_parse.cpp:207-237 | What a run has printed when it accepts, rejects or asks for more, in both directions, under every chunking |
| HttpRuns.RunConserves | Linux/LinuxHighPerformanceServerPrograming/http_parse.cpp:49-52 | On every run the lines handed to the handlers, each with CRLF put back, followed by the received bytes from start_line on, are the bytes read; bytes from checked_index on are untouched; handed lines have no CR and end in two NULs |
| HttpRuns.RunResumes | Linux/LinuxHighPerformanceServerPrograming/http_parse.cpp:41-66 | When a run asks for more, at most one byte is unscanned and it is a CR; no CR lies before checked_index; checkstate is REQUESTLINE iff start_line is 0 |
| HttpRuns.AcceptedMethod | Linux/LinuxHighPerformanceServerPrograming/http_parse.cpp:81-86 | The bytes of every accepted stream start with GET in one of its eight spellings and a blank |
| HttpRuns.SmallestRequest | Linux/LinuxHighPerformanceServerPrograming/http_parse.cpp:69-128 | The request GET / HTTP/1.1 and an empty line, in the characters themselves, is accepted under every chunking and prints the method and the URL / |
| HttpRuns.RoundTrip | Linux/LinuxHighPerformanceServerPrograming/http_parse.cpp:69-128 | A rendered request with a clean origin-form or http:// target and non-empty CR-free headers is accepted however it is cut and whatever follows it; what is printed is the target's path and the headers in order |
| HttpInvariant.ScanReachable | Linux/LinuxHighPerformanceServerPrograming/http_parse.cpp:41-62 | On reachable buffers parse_line is a search for the first CR: the branch for an LF behind a CR is never taken and a line takes at least two bytes |
| HttpInvariant.ContentMeaning | Linux/LinuxHighPerformanceServerPrograming/http_parse.cpp:130-171 | One call on a reachable state gives the reading of the bytes from start_line on and leaves a reachable state |
| HttpInvariant.DispatchWrites | Linux/LinuxHighPerformanceServerPrograming/http_parse.cpp:69-111 | A handler changes the buffer only inside its own C string, and only to NULs |
| HttpInvariant.LineString | Linux/LinuxHighPerformanceServerPrograming/http_parse.cpp:49-52 | After parse_line the C string at start_line is the received line cut at its first NUL |
| RequestLine.TokeniseExact | Linux/LinuxHighPerformanceServerPrograming/http_parse.cpp:69-111 | The left-to-right split accepts exactly the grammar GET blanks target blanks HTTP/1.1 (words in any case), and the path it finds is the only one the grammar allows |
| RequestLine.TokeniseComplete | Linux/LinuxHighPerformanceServerPrograming/http_parse.cpp:72-96 | The two bytes overwritten are those behind the method and behind the target |
| RequestLine.PathOfExact | Linux/LinuxHighPerformanceServerPrograming/http_parse.cpp:100-107 | The printed URL is the target itself if it starts with a slash, or what follows http:// and a slash-free authority |
| HttpConnection.Connection.ParseLine | Linux/LinuxHighPerformanceServerPrograming/http_parse.cpp:38-67 | The loop over the buffer computes the scan specification, leaves unused bytes alone, and takes at most one iteration more than it advances |
| HttpConnection.Connection.ParseRequestLine | Linux/LinuxHighPerformanceServerPrograming/http_parse.cpp:69-111 | Tokenising in place gives the result of the pure split of the line: verdict, output, state and exactly two overwritten blanks; something is printed exactly for lines that start with GET in any case and a blank |
| HttpConnection.Connection.ParseHeaders | Linux/LinuxHighPerformanceServerPrograming/http_parse.cpp:113-128 | The header handler computes its specification and changes nothing but the output |
| HttpConnection.Connection.ParseContent | Linux/LinuxHighPerformanceServerPrograming/http_parse.cpp:130-171 | The loop terminates and computes the specification of a whole call; scan iterations stay within checked_index plus the number of calls |
| HttpConnection.Connection.Recv | Linux/LinuxHighPerformanceServerPrograming/http_parse.cpp:210-221 | A recv takes over the next bytes sent, at least one unless all have been read or the buffer is full |
| HttpConnection.Connection.Serve | Linux/LinuxHighPerformanceServerPrograming/http_parse.cpp:201-237 | For every stream, capacity and arrival pattern the receive loop ends with the verdict, output and state of one call on the first bytes of the stream, as many as fit the buffer, GET and BAD exactly as the grammar says, the invariant, and scan work at most bytes plus calls; a rendered request that fits the buffer is answered with I get a correct result |
| BufferShape.AmortisedCopying | Windows/WinHttpServer/WinHttpServer/Buffer_old.cpp:50-60 | Over any run of append and consume from a fresh buffer the bytes relocated are at most twice the bytes appended plus the bytes consumed, hence three times the bytes appended |
| BufferShape.TotalsConcat | Windows/WinHttpServer/WinHttpServer/Buffer_old.cpp:85-112 | The totals of bytes appended and consumed add up over any way of cutting a run in two |
| BufferShape.PeakExact | Windows/WinHttpServer/WinHttpServer/Buffer_old.cpp:85-112 | The peak is reached by the live size at some time of the run and never exceeded |
| BufferShape.AppendPays | Windows/WinHttpServer/WinHttpServer/Buffer_old.cpp:85-89 | Potential argument for one append: two units a byte pay for every relocation it causes |
| BufferShape.SlideIsPaidFor | Windows/WinHttpServer/WinHttpServer/Buffer_old.cpp:155-160 | moveHead moves fewer bytes than lie consumed in front of them |
| BufferShape.CapacityBound | Windows/WinHttpServer/WinHttpServer/Buffer_old.cpp:162-172 | Over any run cap_ stays within max(exp_, 4 P + 2) for the largest live size P |
| ByteBuffer.Buffer.MakeRoom | Windows/WinHttpServer/WinHttpServer/Buffer_old.cpp:50-60 | All three branches keep the contents and leave room for len bytes: nothing moves if there is room, a mostly empty array is kept and its bytes go to the front, otherwise a new array of the stated size is used; only the last two copy, and just the live bytes |
| ByteBuffer.Buffer.MoveHead | Windows/WinHttpServer/WinHttpServer/Buffer_old.cpp:155-160 | The forward copy within one array moves the live bytes to the front unharmed |
| ByteBuffer.Buffer.Expand | Windows/WinHttpServer/WinHttpServer/Buffer_old.cpp:162-172 | The live bytes move to the front of a new array, whose size is the largest of exp_, 2 cap_ and size + len |
| ByteBuffer.Buffer.MakeSomeRoom | Windows/WinHttpServer/WinHttpServer/Buffer_old.cpp:62-66 | makeRoom() leaves space if exp_ is positive, and exp_ bytes of it if the array was empty or at least that large; it changes nothing if there was as much before |
| ByteBuffer.Buffer.Append | Windows/WinHttpServer/WinHttpServer/Buffer_old.cpp:85-89 | The contents grow by exactly the appended bytes |
| ByteBuffer.Buffer.Consume | Windows/WinHttpServer/WinHttpServer/Buffer_old.cpp:106-112 | The first len bytes go; an emptied buffer gives up its storage, any other keeps it |
| ByteBuffer.Buffer.Absorb | Windows/WinHttpServer/WinHttpServer/Buffer_old.cpp:114-133 | The other buffer's bytes move behind this one's and it is left empty; both keep exp_, on the swap path as well, and the storages stay apart |
| ByteBuffer.Buffer.CopyFrom | Windows/WinHttpServer/WinHttpServer/Buffer_old.cpp:174-182 | A copy has the same indices and live bytes in storage of its own |
| ByteBuffer.Buffer.Assign | Windows/WinHttpServer/WinHttpServer/Buffer_old.cpp:145-153 | Assignment copies, and self-assignment changes nothing |
| ByteBuffer.RunOnBuffer | Windows/WinHttpServer/WinHttpServer/Buffer_old.cpp:85-112 | A run on the real array is the queue of bytes, with the copying and capacity bounds measured on the copies it makes |
| BufferStore.Store.Do | Windows/WinHttpServer/WinHttpServer/Buffer_old.cpp:50-182 | One command on one of many buffers: what each buffer holds afterwards in terms of what all held before, all buffers not named unchanged, and no two sharing storage |
| BufferStore.StepExact | Windows/WinHttpServer/WinHttpServer/Buffer_old.cpp:50-182 | What each of the ten commands does to the bytes and the suggested size of every buffer |
| BufferStore.AfterExact | Windows/WinHttpServer/WinHttpServer/Buffer_old.cpp:50-182 | The same for the k-th command of any list, on the views before and after it |
| BufferStore.Store.Run | Windows/WinHttpServer/WinHttpServer/Buffer_old.cpp:50-182 | The same for every list of commands over many buffers |
| EventMeaning.PassExact | Windows/TCP-IPNetworkPrograming/AsynNotiEcho/AsynNotiEcho.cpp:61-113 | For every table of a run and all reports: the j-th entry examined is echoed to iff it is a client whose report has data, closed by this pass iff it is a client whose report has a close and no error on reading, and ends the pass iff its report has an error; a connection is accepted iff the pass starts at the listener and the report has an accept; nothing else is echoed to or closed |
| EventMeaning.PassWalks | Windows/TCP-IPNetworkPrograming/AsynNotiEcho/AsynNotiEcho.cpp:61-113 | Which entries a pass examines: afterwards each index from the start on holds the entry examined there, or if that was closed the one behind it, which is skipped; connections accepted on the way are included |
| EventMeaning.InvExact | Windows/TCP-IPNetworkPrograming/AsynNotiEcho/AsynNotiEcho.cpp:52-114 | The table holds the listener and the accepted and not closed connections, and no other, in accept order |
| EventService.BoundedService | Windows/TCP-IPNetworkPrograming/AsynNotiEcho/AsynNotiEcho.cpp:56-113 | A client at index m whose reports have data or a close is examined within m passes, although every close makes the scan skip an entry; in that pass it is echoed to iff data was reported and closed iff a close was |
| EventService.ExaminedAnswered | Windows/TCP-IPNetworkPrograming/AsynNotiEcho/AsynNotiEcho.cpp:87-111 | Whoever is examined with something to do is answered in the same pass |
| EventTable.ScanProgress | Windows/TCP-IPNetworkPrograming/AsynNotiEcho/AsynNotiEcho.cpp:61-112 | In one pass a waiting client is examined or moves to a smaller index, never below 1 |
| EventService.ServiceBoundTight | Windows/TCP-IPNetworkPrograming/AsynNotiEcho/AsynNotiEcho.cpp:56-113 | The bound is exact: for every m there is a run in which the client waits through m - 1 passes without being served |
| EventTable.ScanKeepsPrefix | Windows/TCP-IPNetworkPrograming/AsynNotiEcho/AsynNotiEcho.cpp:61-112 | A scan leaves the entries in front of it alone |
| EventTable.ScanKeepsInv | Windows/TCP-IPNetworkPrograming/AsynNotiEcho/AsynNotiEcho.cpp:61-112 | Every pass keeps the table equal to the listener followed by the accepted and not closed connections, each once, in accept order |
| EventTable.RunKeepsInv | Windows/TCP-IPNetworkPrograming/AsynNotiEcho/AsynNotiEcho.cpp:56-114 | The same over every run of passes |
| EventTable.EchoesReadable | Windows/TCP-IPNetworkPrograming/AsynNotiEcho/AsynNotiEcho.cpp:87-98 | A pass echoes to exactly those of the examined clients whose report had data to read, in order |
| EventTable.InvListenerFirst | Windows/TCP-IPNetworkPrograming/AsynNotiEcho/AsynNotiEcho.cpp:52-54 | The listener stays at index 0 and is nowhere else |
| EventTable.LiveWithout | Windows/TCP-IPNetworkPrograming/AsynNotiEcho/AsynNotiEcho.cpp:106-110 | Closing the connection at a position removes exactly that one from the list of open connections |
| EventServer.CompressSockets | Windows/TCP-IPNetworkPrograming/AsynNotiEcho/AsynNotiEcho.cpp:120-125 | The shift removes exactly the entry at idx |
| EventServer.CompressEvents | Windows/TCP-IPNetworkPrograming/AsynNotiEcho/AsynNotiEcho.cpp:127-132 | The same for the events |
| EventServer.Server.Pass | Windows/TCP-IPNetworkPrograming/AsynNotiEcho/AsynNotiEcho.cpp:61-113 | The loop over the arrays, whose bound grows and shrinks under it, terminates and computes the scan; the reports are those of the events waited on, which stay paired with the sockets; who is echoed to, who is closed and what is accepted follows from the reports alone |
| EventServer.Server.Run | Windows/TCP-IPNetworkPrograming/AsynNotiEcho/AsynNotiEcho.cpp:56-114 | Over every run of passes the arrays hold exactly the open connections in accept order, each socket beside its own event, the listener first |
| HandOff.EveryRun | Linux/TCP-IPNetworkPrograming/semaphore/semaphore.c:9-30 | For all inputs and interleavings: one token in the semaphores or with a thread; exactly 10 N + 2 steps to the end, no deadlock before it; one final state, with every value written and read once in turn and their sum printed |
| HandOff.FinalExact | Linux/TCP-IPNetworkPrograming/semaphore/semaphore.c:9-30 | After every finished run num has been written with each input and read after that, value by value, and the one number printed is the sum |
| HandOff.SumExact | Linux/TCP-IPNetworkPrograming/semaphore/semaphore.c:25-30 | The sum is additive over any split of the inputs, so it is the sum of them all |
| HandOff.Exclusion | Linux/TCP-IPNetworkPrograming/semaphore/semaphore.c:13-16 | sem_one + sem_two + threads between wait and post is 1, and writes are at most one ahead of reads |
| HandOff.NoDeadlock | Linux/TCP-IPNetworkPrograming/semaphore/semaphore.c:24-26 | Some thread can go on unless both are done |
| HandOff.RunInv | Linux/TCP-IPNetworkPrograming/semaphore/semaphore.c:9-41 | Every state of every run satisfies the invariant, and steps taken plus steps left is constant |
| HandOff.Threads.Run | Linux/TCP-IPNetworkPrograming/semaphore/semaphore.c:32-41 | Under every scheduler the two threads finish and print the sum of all inputs, once |
| ConnectRuns.LoopInv | Linux/Demo/DemoProject/DemoProject/nbc.cpp:145-220 | At every loop head, for every result of select: each socket is reported once or in wrfds_orig, n plus the size of wrfds_orig is num_sockets, wrfds is wrfds_orig until the first timeout and empty from then on, sockets resolved in the loop are those closed |
| ConnectRuns.VerdictsExact | Linux/Demo/DemoProject/DemoProject/nbc.cpp:222-232 | The verdicts are one for each created socket, and none about anything else, if and only if no socket in progress lies behind a skipped address |
| ConnectRuns.OneVerdictEach | Linux/Demo/DemoProject/DemoProject/nbc.cpp:176-232 | A run tests no negative descriptor and gives each created socket exactly one verdict if and only if no socket in progress lies behind a skipped address and no visited slot holds -1 |
| ConnectRuns.TerminationExact | Linux/Demo/DemoProject/DemoProject/nbc.cpp:145-220 | For all results the loop ends within TIMEOUT + P - 1 calls of select (P > 0 sockets in progress; none if P = 0) without testing a negative descriptor, if and only if no socket in progress lies behind a skipped address and no visited slot holds -1 or there is nothing to wait for |
| ConnectRuns.TerminationTight | Linux/Demo/DemoProject/DemoProject/nbc.cpp:145-220 | The bound is exact: one call fewer does not end every run |
| ConnectRuns.Forever | Linux/Demo/DemoProject/DemoProject/nbc.cpp:179-219 | With a socket behind a skipped address there is a run that never ends |
| ConnectRuns.AllVisitedExact | Linux/Demo/DemoProject/DemoProject/nbc.cpp:78-96 | No socket in progress is missed if and only if, with k sockets created for a host, all its attempts in progress are among its first k addresses |
| ConnectMeaning.ConditionExact | Linux/Demo/DemoProject/DemoProject/nbc.cpp:78-96 | The condition on the addresses: with k sockets for a host, every attempt in progress is among its first k addresses, no socket() failed among these, and none of them in the first three places is unsupported |
| ConnectMeaning.VisitedExact | Linux/Demo/DemoProject/DemoProject/nbc.cpp:179-181 | What the slots hold that the loops come by: the sockets in them, -1 for a failed socket() and for unsupported addresses among the first three, 0 for others |
| ConnectMeaning.CallsExact | Linux/Demo/DemoProject/DemoProject/nbc.cpp:145-220 | With P > 0 sockets in progress, all visited, P + 9 calls of select always end the loop and P + 8 do not |
| ConnectRuns.SkippedHidesSocket | Linux/Demo/DemoProject/DemoProject/nbc.cpp:78-96 | A concrete host whose skipped fourth address hides the socket of the fifth while no negative descriptor is tested |
| ConnectRuns.FailedSocketTested | Linux/Demo/DemoProject/DemoProject/nbc.cpp:91-94 | A concrete input where a failed socket() makes the loops test -1 although every socket in progress is visited |
| ConnectRuns.NoSkipAllVisited | Linux/Demo/DemoProject/DemoProject/nbc.cpp:78-133 | If every address yields a socket, exactly the created sockets are visited |
| ConnectRuns.NoticedExact | Linux/Demo/DemoProject/DemoProject/nbc.cpp:145-219 | For every run, a visited socket in progress leaves wrfds_orig and is reported as resolved if and only if a call of select returned it and no call before that one had timed out |
| ConnectMeaning.NoticedMeans | Linux/Demo/DemoProject/DemoProject/nbc.cpp:145-219 | By the results of select alone: such a socket is noticed iff some call returns it and every call before that one has returned a socket that it was still asked about |
| ConnectMeaning.ClosedExact | Linux/Demo/DemoProject/DemoProject/nbc.cpp:184-214 | A socket is closed at most once, exactly if it is reported in the loop with the result of getsockopt |
| ConnectMeaning.AtOnceExact | Linux/Demo/DemoProject/DemoProject/nbc.cpp:105-131 | Before the loop exactly the attempts that were over at once are reported, each with its result |
| ConnectRuns.VerdictOf | Linux/Demo/DemoProject/DemoProject/nbc.cpp:145-232 | Such a socket has exactly one verdict: connected or failed if it was returned before the first timeout, timed out otherwise |
| ConnectRuns.TimeoutHidesSocket | Linux/Demo/DemoProject/DemoProject/nbc.cpp:153-168 | A concrete run where every call after the first timeout returns the socket and its one verdict is still timed out |
| ConnectRuns.TimeoutIsFinal | Linux/Demo/DemoProject/DemoProject/nbc.cpp:153-168 | After one timeout of select nothing is reported any more, whatever connects later |
| ConnectLoop.Connector.StartHost | Linux/Demo/DemoProject/DemoProject/nbc.cpp:76-134 | The attempts for one host fill its row of slots, skipped addresses included, and extend the counts, the set and the immediate verdicts |
| ConnectLoop.Connector.Initiate | Linux/Demo/DemoProject/DemoProject/nbc.cpp:71-138 | The first loops fill the slots, count the sockets and build the descriptor set of the sockets in progress |
| ConnectLoop.Connector.CheckAll | Linux/Demo/DemoProject/DemoProject/nbc.cpp:176-216 | The pass over hosts and slots reports, closes and crosses off exactly the ready sockets it visits, and tests -1 exactly when a visited slot holds it |
| ConnectLoop.Connector.SelectLoop | Linux/Demo/DemoProject/DemoProject/nbc.cpp:144-220 | The select loop computes its specification for every list of results |
| ConnectLoop.Connector.ReportTimedOut | Linux/Demo/DemoProject/DemoProject/nbc.cpp:222-232 | The last loops report exactly the visited sockets left in wrfds_orig |
| ConnectLoop.Connector.Run | Linux/Demo/DemoProject/DemoProject/nbc.cpp:66-234 | The whole program's log; it is defined with one verdict for each socket if and only if all sockets in progress are visited and no visited slot holds -1 |
| ObjectPool.EveryRunSafe | Windows/WinHttpServer/WinHttpServer/Mempool.h:23-39 | If clients push only what they hold: no object is with two clients or both held and pooled, allocated = pooled + held, and the objects allocated are exactly the batches that the largest demand takes |
| ObjectPool.PoolSafe | Windows/WinHttpServer/WinHttpServer/Mempool.h:23-39 | The same from any state that satisfies the invariant |
| ObjectPool.PoppedInv | Windows/WinHttpServer/WinHttpServer/Mempool.h:29-39 | pop keeps the invariant; a further batch comes only when every object is held |
| ObjectPool.PushedInv | Windows/WinHttpServer/WinHttpServer/Mempool.h:23-27 | push keeps the invariant |
| ObjectPool.BatchesIs | Windows/WinHttpServer/WinHttpServer/Mempool.h:48-55 | The number of batches is the one that demand needs and no more |
| ObjectPool.PeakExact | Windows/WinHttpServer/WinHttpServer/Mempool.h:23-39 | The peak that decides the batches is the largest number of objects held at once: never exceeded, and reached |
| ObjectPool.Queued | Windows/WinHttpServer/WinHttpServer/Mempool.h:23-39 | First in, first out over every interleaving of pop, push and refill: what was handed out followed by what is free is what was free followed by what came in |
| ObjectPool.Fifo | Windows/WinHttpServer/WinHttpServer/Mempool.h:29-39 | The object at place k of the queue is handed out by the pop behind the next k, and moves up one place with each before that, whatever else is pushed or allocated in between |
| ObjectPool.Mempool.Pop | Windows/WinHttpServer/WinHttpServer/Mempool.h:29-39 | The object that has been free longest, or the first of a fresh batch, never one that is held |
| ObjectPool.Mempool.Alloc | Windows/WinHttpServer/WinHttpServer/Mempool.h:48-55 | Exactly allocSize new, distinct objects join the queue |

## Left out

- HttpConnection.Connection.Serve: argument parsing, bind, listen, accept, the text of the messages printed around the loop and the actual send (the reply is returned).
- The default branch of parse_content that returns INTERNAL_ERROR: checkstate is an enumeration of the two states the code uses, so there is nothing to branch to.
- ByteBuffer.Buffer.Append: the source is a value, so it cannot lie inside the buffer's own storage, as the code demands of its callers.
- Deleting storage: freed arrays are forgotten rather than tracked, so use after free and double delete are not stated.
- BufferShape.AmortisedCopying and BufferShape.CapacityBound: runs of append and consume with a fixed exp_; makeRoom() without argument and setSuggestSize appear in the refinement of BufferStore only.
- EventServer.Server.Run: no connection is accepted when the table already has 64 entries, since the code does not check its array bound there; a full table is otherwise allowed.
- EventServer.Server.Pass: the bytes echoed (only to whom and in what order is stated) and the failing returns of the socket calls other than the error codes in the event record.
- Handle values: sockets are named in the order of acceptance instead of by the numbers the system reuses.
- HandOff.Threads.Run: steps below the level of one statement; sem_init, pthread_create and pthread_join.
- ConnectLoop.Connector.Initiate: the bound of ten slots per host, which the code does not check, and the exits through err and errx.
- ConnectRuns.OneVerdictEach: a process started without a standard input, where descriptor 0 can be a socket and a skipped slot that holds 0 would stand for it.
- ConnectLoop.Connector.CheckAll: what FD_ISSET does on a negative descriptor (the run is only marked as undefined), and descriptors from FD_SETSIZE on.
- ObjectPool.Mempool.Pop: the batch size is fixed and positive; setAllocSize assigns a function name to an integer and cannot be instantiated.
- The select, epoll and poll echo servers, the IOCP server, signals, pipes, multicast, UDP, file copying and the build files: calls to the system with little state of their own.
- HttpCodec.cpp and HttpMessage.cpp: an unfinished stub and map accessors.
- C integer overflow.
