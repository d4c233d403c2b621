# lighttpd fuzzing campaign: models and proofs

A Dafny model of the protocol fixture, the input formats, the fuzzing harness, the campaign
supervisor and the log and build analysers of this repository, and proofs of what they promise.
`dafny verify dfyconfig.toml` checks everything.

- **Connection engine.** `backend-responder.py` serves HTTP, FastCGI and SCGI. A socket is a fixed
  stream of peer bytes and an adversary that picks how many bytes every `recv` and `send` moves
  and when one times out or fails (`Sockets`). Each handler is a method over that socket, proved
  against a function of the stream alone; the results about demultiplexing, lifecycle, round trips
  and cuts are about those functions (`FastCgi*`, `Http`, `Scgi`), and the requests in them are
  given by what their CGI variables mean, character by character (`Gateway`). A mode is chosen by
  an uninterpreted function of the URI and the headers (`Responses`).
- **Bounded-worker server.** `BackendServer` is a state machine of atomic steps of one acceptor,
  any number of workers and a racing `stop` (`Server`), with a class whose methods are those steps.
- **Input formats.** The HPACK and HTTP/2 printers against decoders written from RFC 7541 and
  RFC 9113 (`Hpack`, `Http2`); the multipacket format with its printer and its three parsers
  (`Multipacket`, `Harness`, `Replay`). The C code keeps its array, its offsets and a bounded
  `size_t`, so every unchecked read and every sum is an obligation.
- **Campaign supervisor.** The variables and functions of `run.sh` as a class that records the run
  it makes, a step relation for runs, the restart budget over whole runs (`Campaign`,
  `Supervisor`), and a system of several supervisors, their children and several builders around
  `flock` with descriptors inherited by children (`Exclusion`).
- **Analysers.** The awk automaton and the partition of logs of `asanProcess.sh` (`Suppression`,
  `SanitizerReport`), and evidence, expectations and accounts of `check_build.py` (`ElfEvidence`,
  `BuildReport`).

`Wrappers`, `Bytes` and `Python` hold what the models share: results, octets, dictionaries, `int()`.

Where a promise does not hold of the code, the model keeps the code and states exactly when it does:

- The unfinished-task count of the queue is what is queued plus what workers hold exactly as long
  as `stop` does not hold a connection it has drained (`Server.UnfinishedExactly`); a run where it
  does is `Server.DrainHoldsRun`.
- At most one accepted connection is not closed by the code after `stop`, but it need not be on the
  queue: a `settimeout` that raises `OSError` ends the acceptor, which drops its connection
  (`Server.AtMostOneLeftOpen`; runs to both cases are `Server.DroppedRun` and
  `Server.PutBehindDrainRun`). CPython closes a dropped socket object once nothing refers to it, so
  for that one "not closed" only means that `close()` was not called.
- The upgrade tunnel echoes exactly the first min(available, limit) bytes for every way the header
  reads can fall if and only if the limit is at least what some of them spill past the declared
  body, min(available, max(0, min(4095, 65537 - h) - n)) for h header bytes and n body bytes
  (`Http.EchoExactIff`); `Http.OverEchoes` is a request and a read that echo more.
- A FastCGI reply is missing exactly when an upgrade echo makes the record longer than 65535 bytes
  (`FastCgiTransaction.ReplyShape`).
- A finding line that itself begins with the shutdown tag is dropped from the sanitizer report
  although it belongs to no deliberate shutdown (`SanitizerReport.TaggedFindingIsLost`); the
  findings are exact if and only if there is no such line (`SanitizerReport.ExactUnlessTagged`).

## Model

| member | source | states |
|---|---|---|
| Python.AssignedIsLastWins | backend-responder.py:383-386 | A dictionary filled by assignments has exactly the assigned keys, each with the value of its last pair. |
| Python.AssignedOrder | backend-responder.py:415-418 | Iterating over such a dictionary visits every key once. |
| Python.ParseIntOfDecimal | backend-responder.py:229-232 | `int()` reads back the decimal digits of every number with at most 4300 of them, and nothing longer. |
| Python.ParseIntPadded | backend-responder.py:229-232 | A sign in front of the digits and blanks around them are read as such. |
| Python.NoNumber | backend-responder.py:229-232 | Text without a digit, or with a character that is no digit, blank, sign or underscore, is no number. |
| Python.Underscores | backend-responder.py:229-232 | A single underscore between digits is passed over; two, or one at either end, make it no number. |
| Gateway.NameRoundTrip | backend-responder.py:355-358 | For every header name of lower-case letters, digits and dashes, the variable HTTP_ plus the name in upper case with underscores becomes exactly that name. |
| Gateway.NameMeans | backend-responder.py:355-358 | A variable becomes a header exactly when it begins with HTTP_ and its further characters, lowered and with dashes for underscores, are the name. |
| Gateway.OrderIsIntroduction | backend-responder.py:355-358 | The dictionary iterates over the names in the order of their first pairs. |
| Gateway.GatewayMeans | backend-responder.py:354-358 | A header is passed on exactly when some variable becomes it, with the last value of the variable introduced last among those. |
| Gateway.HeadersMeanOne | backend-responder.py:414-417 | No other headers mean the same variables. |
| Gateway.ValueMeans | backend-responder.py:354 | A variable has the value of its last pair, and its default only when there is none. |
| Sockets.Send | backend-responder.py:174-184 | All of the data goes out, in one call or in calls of at most three bytes, or a prefix of it and a timeout or a failure. |
| Sockets.RecvExact | backend-responder.py:187-194 | The next bytes of the stream, exactly as many as asked for, however the reads fall; the end of the stream is reported only when fewer are left. |
| Sockets.RecvHeaders | backend-responder.py:197-208 | For every split of the stream into reads: the header block or error that the stream alone determines, header plus extra are the bytes consumed, and the end of reading is the one of these sizes. |
| Sockets.HeaderBlockIsShortest | backend-responder.py:204-207 | The header block is the shortest prefix that ends in a blank line, and is found exactly when that ends within the limit plus one. |
| Sockets.HeaderBlockErrors | backend-responder.py:199-208 | The error cases are exactly the streams without such a prefix; the length of the stream alone decides between end of stream and too large. |
| Sockets.StopsWithin | backend-responder.py:199-207 | Whatever the sizes of the reads, they stop behind the header block, at most 4095 bytes, the header limit plus one or the stream beyond it. |
| Sockets.StopReached | backend-responder.py:199-207 | Every stop within that is reached by some sizes. |
| FastCgiParams.PairsRoundTrip | backend-responder.py:265-300 | Decoding the encoding of any list of name-value pairs with lengths below 2^31 gives the list back. |
| FastCgiParams.LengthOnWire | backend-responder.py:265-289 | A byte below 128 is a length; four bytes with the top bit set are one too, and are printed from 128 on. |
| FastCgiParams.PrefixDecodesOnBoundaries | backend-responder.py:276-295 | A prefix of an encoding decodes if and only if it ends on a pair boundary, and then to the pairs before it. |
| FastCgiParams.ReadParams | backend-responder.py:271-300 | The offset loop returns the last-wins dictionary of the decoded pairs, or the error, on every input. |
| FastCgi.FrameOnWire | backend-responder.py:303-307 | The layout of a record: version 1, type, id, length, padding length and a reserved byte, then content and padding. |
| FastCgi.NoRecord | backend-responder.py:325-334 | A stream is refused exactly for another version or the id zero, and short exactly when it ends inside its first record. |
| FastCgi.HandleRefuses | backend-responder.py:336-374 | Exactly which records raise: a bad begin, one for an id that is not open, a stream past the limit, parameters that do not decode, a reply that does not fit; other types are ignored. |
| FastCgi.ServeEnds | backend-responder.py:324-374 | A short stream ends the session with the end of stream and a refused record with an error, and nothing is sent for either. |
| FastCgi.HandleIsLocal | backend-responder.py:336-374 | A record changes and answers only the request with its own id. |
| FastCgi.Demultiplex | backend-responder.py:322-374 | In any run without error or close, what is sent for an id and the state it is left in are those of the run of its records alone. |
| FastCgi.InterleavingIndependent | backend-responder.py:322-374 | Two interleavings of the same per-id streams give each id the same response. |
| FastCgiLifecycle.AnsweredOnce | backend-responder.py:310-319 | A response that does not close early ends with exactly one END_REQUEST, for its own id. |
| FastCgiLifecycle.HandleCounts | backend-responder.py:336-374 | One record keeps begins = responses + aborts + open for every id, and the buffer bounds. |
| FastCgiLifecycle.Lifecycle | backend-responder.py:336-374 | In every reachable loop state the accepted begins of an id are its responses, its aborts and the open one; so none is begun twice while open, and no buffer outgrows the limit. |
| FastCgiLifecycle.OpenThroughout | backend-responder.py:324-374 | Every state passed on the way of an open run is itself reachable and open. |
| FastCgiWire.NextOfWire | backend-responder.py:325-334 | The record reader takes exactly one framed record, whatever its padding, off the front of a stream. |
| FastCgiWire.ServeFrames | backend-responder.py:324-374 | Serving the bytes of some frames is running their records and then serving the rest. |
| FastCgiWire.RecordsRoundTrip | tests/test_backend_responder.py:104-119 | The clients' record decoder gives back exactly the records that were sent. |
| FastCgiTransaction.CutIndependent | backend-responder.py:336-374 | Every cut of params and body into non-empty records gives the reply of the whole request, with the mode of the URI and the headers its variables carry, next to any other open requests. |
| FastCgiTransaction.EndToEnd | backend-responder.py:322-374 | The same over bytes: for any padding, and with anything following, the peer gets that reply and the connection closes or goes on as the mode and the keep flag say. |
| FastCgiTransaction.InterleavedCall | backend-responder.py:336-374 | Among any interleaved records, an id whose records form a whole request is answered as if alone, with the mode its variables select. |
| FastCgiTransaction.ReplyShape | backend-responder.py:303-319 | The reply is one STDOUT record with the page, and the body behind that of an upgrade, then an empty STDOUT and END_REQUEST unless the mode is one of the three that close early; it is missing exactly when an upgrade echo overflows 65535 bytes. |
| Responses.PlanMeans | backend-responder.py:95-171 | An upgrade page is followed by the first megabyte of the echo and no other page is; exactly three modes close early, one writes in small pieces and one upgrades. |
| FastCgiConnection.ReadRecord | backend-responder.py:325-334 | Reading off the socket yields the record, or the error, the rest of the stream begins with, and consumes just it. |
| FastCgiConnection.Respond | backend-responder.py:310-319 | The reply records go out whole, or a prefix of them and a failure, or none and an error; in one call, or in calls of at most three bytes for the mode that asks for it; the result says whether to close. |
| FastCgiConnection.HandleRecord | backend-responder.py:336-374 | One round of the loop has the outcome, the requests and the output of the ideal step. |
| FastCgiConnection.Round | backend-responder.py:324-374 | Reading and handling one record keeps the connection on the way to the end of its ideal session. |
| FastCgiConnection.HandleFastCgi | backend-responder.py:322-374 | Whatever the sizes of reads and writes, the peer gets the replies of the ideal session and the connection ends as it does; after a timeout or failed write, a prefix. |
| FastCgiClient.ServeCall | tests/test_backend_responder.py:104-119 | On a new connection carrying one call, cut and padded in any way, and however reads and writes fall, the client decodes exactly the reply its call should get; a cut-off write leaves a prefix. |
| Http.BodyRoundTrip | backend-responder.py:226-240 | A request whose Content-Length is the decimal length of its body, within the limit, is split into headers, exactly that body and exactly what follows. |
| Http.DeclaredBody | backend-responder.py:229-238 | With a padded or signed number in the header: refused above the limit or below zero, the end of stream when fewer bytes follow, else so many bytes of body. |
| Http.UndeclaredBody | backend-responder.py:229-232 | Without the header, or with one that is no number, the body is empty. |
| Http.BadHead | backend-responder.py:226-228 | A header block that does not parse is refused. |
| Http.EchoExactIff | backend-responder.py:235-257 | For every accepted request: the tunnel echoes exactly the first min(available, limit) bytes for all ways the header reads can fall if and only if the limit is at least the worst spill past the declared body. |
| Http.OverEchoes | backend-responder.py:240-252 | With a limit of one byte, one read of a request to upgrade and two bytes behind it echoes both, while reads that stop at the blank line echo one. |
| Http.Tunnel | backend-responder.py:245-261 | The tunnel echoes what it reads, in order, at most the limit, and all of min(rest, limit) when nothing is cut off; a timeout of a read or a write ends it without an error. |
| Http.ReadRequest | backend-responder.py:226-240 | Mode, error and the bytes behind the declared body depend on the stream alone; how many of them came in with the headers is decided by the sizes of the reads. |
| Http.Answer | backend-responder.py:241-262 | The planned bytes go out, and for an upgrade a prefix of the bytes behind the body, of exact length when nothing is cut off; a failed write leaves a prefix. |
| Http.HandleHttp | backend-responder.py:226-262 | The reply is a function of the stream, and for a tunnel of where the header reads stopped; it goes out in one call, or in calls of at most three bytes in the mode for that; a timeout inside the tunnel is no error, any other cut leaves a prefix of the reply. |
| Scgi.HeadersRoundTrip | backend-responder.py:377-386 | Parsing a printed header block gives the last-wins dictionary of its NUL-free pairs. |
| Scgi.LooseEnds | backend-responder.py:377-386 | A name without a value is an error; the last value may lack its NUL. |
| Scgi.LengthRefused | backend-responder.py:390-402 | The length prefix is refused with a foreign character, no digit or ten digits, and is short when the stream ends in it. |
| Scgi.LengthOfDecimal | backend-responder.py:400-404 | A decimal length is accepted exactly from 1 to 65536. |
| Scgi.BlockRefused | backend-responder.py:405-407 | A block that does not parse, or without a comma behind it, is refused; without anything behind it the stream ends early. |
| Scgi.RequestAsked | backend-responder.py:408-420 | For any printed block: a CONTENT_LENGTH that is no number, negative or above the limit is refused, fewer bytes are the end of the stream, and else the body is so many bytes and the mode that of the URI and headers the variables carry. |
| Scgi.RequestRoundTrip | tests/test_backend_responder.py:122-132 | A printed request with a correct CONTENT_LENGTH is understood as it was meant, with the URI and headers its variables carry and its body, whatever follows it. |
| Scgi.ReadLength | backend-responder.py:390-404 | The byte-wise reading of the length accepts and rejects, and consumes, what the stream alone determines. |
| Scgi.ReadBody | backend-responder.py:408-420 | Behind the headers the body, the mode and the errors are those the stream determines. |
| Scgi.ReadRequest | backend-responder.py:389-420 | The same for a whole request, however the reads fall. |
| Scgi.HandleScgi | backend-responder.py:389-424 | The reply is a function of the stream, however it is read and written, in one call or in calls of at most three bytes as the mode says; a failed write leaves a prefix of it and a timeout nothing. |
| Server.NextKeepsInv | backend-responder.py:478-534 | Every atomic step of acceptor, workers and stop keeps ownership, the queue bound, the unfinished count, the order of close and task_done, and that what is active while stop has the lock is closed or about to be. |
| Server.Ownership | backend-responder.py:478-534 | At every point of every interleaving an accepted connection has at most one holder, and without one it is closed; the queue keeps its bound; the unfinished count is what is queued or taken out. |
| Server.TaskDoneNeverUnderflows | backend-responder.py:511-531 | task_done is only called with a task unfinished, in every interleaving. |
| Server.LockReleasedClosed | backend-responder.py:518-524 | When stop lets go of the lock, every active connection is closed. |
| Server.StopClosesActive | backend-responder.py:513-534 | A connection that is active when stop takes the lock is closed at every later point from the draining of the queue on. |
| Server.LoopsEndOnStop | backend-responder.py:478-502 | The loops of acceptor and workers end at their test exactly when the event is set, and a connection is only turned away from a queue of max(4, 4 * workers). |
| Server.FirstAcceptedFirstServed | backend-responder.py:485-497 | A connection that leaves the queue was accepted before every one queued later. |
| Server.UnfinishedExactly | backend-responder.py:511-531 | The unfinished count is queued plus worker-held if and only if stop holds no drained connection. |
| Server.DrainHoldsRun | backend-responder.py:525-531 | A run in which a task is unfinished that is neither queued nor with a worker. |
| Server.AtMostOneLeftOpen | backend-responder.py:513-534 | When all threads have ended after stop, an unclosed connection is the only one on the queue, or the one the acceptor dropped. |
| Server.DroppedRun | backend-responder.py:478-491 | A run after which all threads have ended and the acceptor has dropped an unclosed connection. |
| Server.PutBehindDrainRun | backend-responder.py:485-529 | A run after which an unclosed connection is on the queue, put there behind the drain. |
| Server.ServedRun | backend-responder.py:478-511 | A run in which a connection is accepted, served, closed and settled. |
| Server.BackendServer.constructor | backend-responder.py:433-448 | The server starts with nothing accepted, an empty queue and idle threads. |
| Server.BackendServer.AcceptorTurn | backend-responder.py:478-491 | Each turn of the acceptor is one of its atomic steps. |
| Server.BackendServer.WorkerTurn | backend-responder.py:493-511 | Each turn of a worker is one of its atomic steps, or waits for the lock and changes nothing. |
| Server.BackendServer.StopTurn | backend-responder.py:513-534 | Each turn of stop is one of its atomic steps. |
| Server.BackendServer.Interleave | backend-responder.py:478-534 | Any interleaving of turns of a new server is a run, so the invariant holds of its fields. |
| Hpack.HpackInteger | normalize-corpus-flags.py:609-619 | The shifting loop prints the integer representation of section 5.1 of RFC 7541. |
| Hpack.IntegerRoundTrip | normalize-corpus-flags.py:609-619 | With clear low bits in the first byte, decoding an encoding followed by anything gives the value and leaves that; the flag bits survive. |
| Hpack.IntegerLength | normalize-corpus-flags.py:610-619 | The length is 1, or 1 more than the base-128 digits of what the prefix cannot hold. |
| Hpack.Appendix | normalize-corpus-flags.py:609-619 | The three examples of appendix C.1 of RFC 7541. |
| Hpack.PrefixFree | normalize-corpus-flags.py:609-619 | No encoding is a proper prefix of another. |
| Http2.StringRoundTrip | normalize-corpus-flags.py:622-623 | A raw string literal decodes to itself (section 5.2 of RFC 7541). |
| Http2.LiteralRoundTrip | normalize-corpus-flags.py:626-627 | A literal with an indexed name decodes to the table's name and the value (section 6.2.2 of RFC 7541). |
| Http2.LiteralNameRoundTrip | normalize-corpus-flags.py:630-631 | A literal with a new name decodes to that name and value. |
| Http2.RequestBlockRoundTrip | normalize-corpus-flags.py:634-642 | The block of any request decodes to :method, :scheme http, :path, :authority localhost and then the extra headers. |
| Http2.FrameLayout | normalize-corpus-flags.py:598-606 | The fields of a frame stand where section 4.1 of RFC 9113 has them. |
| Http2.FrameMade | normalize-corpus-flags.py:598-606 | A payload of 2^24 bytes or more is refused, and the top bit of a stream id is left out. |
| Http2.FramesRoundTrip | tests/test_tools.py:144-164 | Decoding the printed bytes of any frames gives the frames back. |
| Http2.CutAssembles | normalize-corpus-flags.py:677-683 | A block cut anywhere into HEADERS and CONTINUATION frames assembles to itself. |
| Http2.RequestsRoundTrip | normalize-corpus-flags.py:634-644 | Any sequence of requests, each block cut anywhere, decodes to what was meant. |
| Http2.RequestHeadersIsOnePiece | normalize-corpus-flags.py:634-644 | The printer's own output is the one-piece case, one frame of type 1 with flags 4 or 5, for stream ids below 2^31. |
| Multipacket.PacketsIffWellFramed | send-test-case.py:18-34 | Splitting accepts exactly the payloads that are 1 to 64 packets of 1 to 65535 bytes and nothing else, and its packets join to the payload. |
| Multipacket.ValidMultipacket | normalize-corpus-flags.py:779-793 | The corpus tool's validator accepts exactly the well-framed payloads. |
| Multipacket.FuzzerPackets | send-test-case.py:12-34 | The replay tool's parser returns the packets an input means, or the error. |
| Multipacket.Frame | normalize-corpus-flags.py:796-801 | The printer frames any packets of two-byte lengths in order and fails on others. |
| Multipacket.FramingBijection | normalize-corpus-flags.py:796-801 | Printer and parser are mutually inverse between the inputs with the control bit of value 2 and lists of 1 to 64 packets of 1 to 65535 bytes; without the bit the input is one packet. |
| Multipacket.FrameLayout | normalize-corpus-flags.py:796-801 | A packet is framed by its length in two bytes, the higher one first. |
| Multipacket.ControlBits | fuzzer.c:204-250 | The control bits of value 1, 2 and 4 ask for halves, framing and waits, whatever the other bits are. |
| Multipacket.PiecesInOrder | fuzzer.c:126-138 | Packets are handed over one after the other, in two halves when asked and longer than a byte. |
| Multipacket.Normalize | normalize-corpus-flags.py:997-1004 | Returns the input itself exactly when it is usable, else a zero byte and the input. |
| Multipacket.NormalizedIsUsable | normalize-corpus-flags.py:997-1004 | An input comes back unchanged exactly when it is empty, or has a control byte up to 7 and, when flagged, a well-framed payload; normalizing is idempotent and makes every non-empty input one that all parsers accept. |
| Harness.FuzzValidMultipacketData | fuzzer.c:89-109 | The C validator accepts exactly the well-framed payloads, with every read inside the allocation and no size overflow. |
| Harness.SendAll | fuzzer.c:111-124 | Under any short sends and EINTRs the target gets a prefix, all of it exactly when the result is 0. |
| Harness.SendPacket | fuzzer.c:126-138 | The same for a packet handed over in one piece, or in two halves when asked and longer than a byte. |
| Harness.ReadSomeResponse | fuzzer.c:140-156 | Awaits one response and returns 0 exactly when data came. |
| Harness.NextPacketThere | fuzzer.c:161-167 | Inside a validated payload the next two length bytes and the packet they announce are there. |
| Harness.WaitsBetween | fuzzer.c:170-177 | Wait i comes behind packet i when waits are asked for, and there are no others. |
| Harness.SendMultipacketData | fuzzer.c:158-180 | Behind the validator every unchecked read is in bounds; the target gets a prefix of the packets, all of them exactly when the result is 0, each in the pieces asked for; when asked, a response is awaited between any two packets and nowhere else, and only data lets the next packet out. |
| Harness.FuzzServer | fuzzer.c:204-250 | Nothing is connected to for an input the other parsers reject; otherwise the target gets a prefix of what the input means, all of it exactly when sending succeeded, with the waits and the halves its control byte asks for, and then one more response is awaited. |
| Replay.Receive | send-test-case.py:37-48 | Collects what the peer sends until it stops, times out or has sent a megabyte. |
| Replay.ChosenIsNth | send-test-case.py:81-91 | A chosen packet is the n-th of the input, counted from one, and an error when there is none. |
| Replay.SendPackets | send-test-case.py:93-107 | The packets go out in order, halved as the control byte asks; only a socket failure stops it, and leaves a prefix; a response is read behind every packet but the last when asked, and nothing else is. |
| Replay.Replay | send-test-case.py:79-112 | A replayed fuzzer input sends the same bytes as the harness does for it, with the halves and the waits its control byte asks for, and then what comes back is read; a chosen packet sends just that one. |
| Campaign.StepKeepsConsistent | run.sh:529-706 | Every step keeps the per-pid maps and fuzzer_pids on the same keys, at most one tracked child per profile, and the lock of each tracked child's profile. |
| Campaign.RunKeeps | run.sh:651-706 | In every reachable state that holds, with the counters and the budget inequalities for every profile. |
| Campaign.RestartBudget | run.sh:685-706 | Over every run a profile's launches never exceed 6 + 5 times its exits after at least 60 s; without such exits it exits at most 6 times and is gone after the sixth. |
| Campaign.CounterCounts | run.sh:685-692 | In every reachable state the counter of a profile is the number of its exits from its last one after at least 60 s on, that one included, and of all its exits if there is none; it is at most 6. |
| Campaign.PiledNext | run.sh:685-692 | An exit after at least 60 s starts a new pile of one, any other is added to it. |
| Campaign.RelaunchIffNotSix | run.sh:694-705 | Behind an exit the profile may be launched again exactly when fewer than six exits have piled up, so always after at least 60 s. |
| Campaign.RunRemembers | run.sh:611-621 | What is remembered of a running child, its profile, start time and stop signal, is what its launch said. |
| Campaign.BudgetDrops | run.sh:694-705 | A profile with six exits piled up since its last run of at least 60 s has no child and is never launched again. |
| Campaign.RunWithin | run.sh:651-706 | Only selected profiles are ever tracked, launched or restarted. |
| Campaign.LoopEnds | run.sh:717-720 | Once every selected profile is untracked, or has had six exits and none of them long, fuzzer_pids is empty, which ends the loop. |
| Campaign.ExitsAreSelected | run.sh:667-692 | All exits of a run are exits of the selected profiles. |
| Campaign.ShortRunsAreFew | run.sh:685-706 | If every run is shorter than 60 s there are at most 6 exits per selected profile in all. |
| Supervisor.Supervisor.constructor | run.sh:20-33 | The script starts with empty variables and the selected profiles to launch. |
| Supervisor.Supervisor.AcquireConfigLock | run.sh:448-462 | Succeeds exactly when the lock is already held or free, and then holds it. |
| Supervisor.Supervisor.ReleaseConfigLock | run.sh:464-471 | Drops just this profile's lock. |
| Supervisor.Supervisor.Enroll | run.sh:565-621 | The bookkeeping of a launch in all maps and counters. |
| Supervisor.Supervisor.RunFuzzer | run.sh:529-622 | When a child is started, how all variables then stand, and that a failure keeps at most the lock. |
| Supervisor.Supervisor.Strike | run.sh:672-692 | A dead child leaves every map, and its profile's counter is one more than before, or one after at least 60 s. |
| Supervisor.Supervisor.Resettle | run.sh:694-705 | The profile is relaunched while its counter allows and the launch succeeds, else unlocked. |
| Supervisor.Supervisor.Reap | run.sh:669-706 | The whole reaction to a dead child, as an exit followed by a relaunch or an unlock of the recorded run; the profile has a child again exactly when its exits that have piled up are not six and the launch can succeed. |
| Supervisor.CounterDecides | run.sh:687-705 | After an exit the counter is the number of exits that have piled up, one after at least 60 s; the profile has a child again exactly when that is not six and the launch can succeed. |
| Supervisor.Supervisor.WatchOnce | run.sh:667-707 | One pass reaps every child found dead and leaves every other as it was. |
| Supervisor.Supervisor.StartAll | run.sh:651-653 | Either every selected profile has its child, or the campaign ends at the first that cannot be started. |
| Supervisor.Supervisor.Watch | run.sh:656-729 | The loop goes on as long as a pass leaves children and ends with the first that leaves none; every pass that finds a dead child adds an exit. |
| Supervisor.Supervisor.Supervise | run.sh:651-729 | The script only makes runs of the step relation, so its counters count what has piled up and the restart budget holds; when every run is short and every pass finds a dead child, the loop is left within 6 passes per selected profile. |
| Supervisor.Supervisor.Cleanup | run.sh:191-302 | Every child gets the marker of its launch; a stop is confirmed exactly when the signal was delivered, a log exists, and the status is 72 for a TERM and 137 for a KILL; only own pid files are removed. |
| Exclusion.NextKeepsInv | run.sh:448-471 | Every move of a supervisor, a child or a builder keeps lock ownership. |
| Exclusion.ProfilesExcluded | build.sh:361-398 | In every interleaving, whoever crashes, a live child's profile is locked against everybody, no builder works on it, and its tree is the one it was launched from. |
| Exclusion.TrackedProfilesOwned | run.sh:448-471 | A running supervisor owns the lock of every child it tracks, and nobody else tracks or builds that profile. |
| Exclusion.BuildSoftware | build.sh:347-399 | What a builder does to a profile tree in each case, all of it between taking and closing the lock, and nothing when the lock is taken. |
| Suppression.Filter | asanProcess.sh:67-96 | The awk automaton withholds exactly the exits whose nearest launch marker and pid are to be suppressed and the DEADLYSIGNAL runs right behind them, marks the former and prints every other finding. |
| Suppression.IdentityParts | asanProcess.sh:40 | Two identities are equal only if config, launch and pid are. |
| Suppression.FindingConfirmsNothing | asanProcess.sh:99-102 | A finding line is never taken for the confirmation of a candidate. |
| SanitizerReport.CollectCandidates | asanProcess.sh:17-44 | The candidate loop gives each log its identity and collects the set of them. |
| SanitizerReport.PidsAreSuppressible | asanProcess.sh:59-66 | The pairs handed to awk are those of the profile's own candidates. |
| SanitizerReport.ScanErrorLogs | asanProcess.sh:50-98 | The scan is what all error logs print, one behind the other. |
| SanitizerReport.ReadMarks | asanProcess.sh:99-102 | Collects exactly the identities of the tagged lines. |
| SanitizerReport.ConfirmedIffExitSeen | asanProcess.sh:67-102 | A candidate is confirmed if and only if its exit line stands behind its launch in its profile's error log. |
| SanitizerReport.Partition | asanProcess.sh:107-115 | Each log goes to exactly one of the shutdown count and the report list. |
| SanitizerReport.Process | asanProcess.sh:9-115 | The former exactly when its config, launch and pid are candidate and confirmed; a text is a finding exactly when some line of it is not withheld and it does not begin with the tag. |
| SanitizerReport.ReportedUnlessStopped | asanProcess.sh:34-44 | A log is reported unless its stop was recorded, it shows the failed check and the exit callback and no other error, and its exit line stands behind its launch; so one with another error or without a recorded stop always is. |
| SanitizerReport.WithheldIffStop | asanProcess.sh:67-96 | Withheld are exactly the exits of such children, behind their nearest launch marker, and the DEADLYSIGNAL lines right behind them. |
| SanitizerReport.ShownMeans | asanProcess.sh:67-96 | Every other line with a finding is shown as it is. |
| SanitizerReport.TaggedFindingIsLost | asanProcess.sh:103 | A finding beginning with the tag is dropped though it is not withheld. |
| SanitizerReport.ExactUnlessTagged | asanProcess.sh:103 | The findings are exactly the lines not withheld if and only if no finding line begins with the tag. |
| ElfEvidence.ParseElf | build-check/check_build.py:193-234 | One pass computes what the set of lines proves: a definition outranks weak references, and the error and skip cases. |
| ElfEvidence.OrderIrrelevant | build-check/check_build.py:193-234 | Any reordering of the lines leaves the result unchanged. |
| ElfEvidence.ReadingMeans | build-check/check_build.py:193-234 | Exactly when the lines are an error, an LTO object, Rust metadata or evidence. |
| ElfEvidence.EvidenceMeans | build-check/check_build.py:204-226 | Which names the evidence holds: wanted, defined or weakly wanted, a definition whenever one line defines it, non-empty sections, and whether there is a .symtab. |
| ElfEvidence.AtMostMeans | build-check/check_build.py:281 | The order of names is that of their first difference, with prefixes first. |
| ElfEvidence.StateMeans | build-check/check_build.py:276-293 | FOUND exactly with a matching section or reference, or for the driver when its first other match is a definition; NOT-SEEN exactly when nothing matches and there is a symbol table, UNKNOWN without one. |
| ElfEvidence.Detect | build-check/check_build.py:276-293 | The state follows the precedence of sections, references and other symbols, and the proof shown is the first matching name in order. |
| ElfEvidence.MoreEvidence | build-check/check_build.py:276-293 | More evidence never takes back what any check has found, and a check that sees nothing in it has seen nothing in less, conclusively exactly with a symbol table. |
| ElfEvidence.MoreLines | build-check/check_build.py:193-293 | The same from the lines: a file with all the symbols and sections of another keeps every finding of it. |
| BuildReport.LastMatchWins | build-check/check_build.py:110-116 | The last override whose pattern matches the file, or the member in it, and that speaks of a check decides; without one the general mode stands, or the check is ignored. |
| BuildReport.EffectiveModes | build-check/check_build.py:110-116 | The update loop yields that mode for every check. |
| BuildReport.FailsUnlessMet | build-check/check_build.py:297-300 | An item meets an absent expectation exactly when it has a symbol table and no name in it matches, a present one exactly when a section or reference matches or the first match of the driver is a definition, and always an ignored one; it fails a check exactly when it does not. |
| BuildReport.CountItem | build-check/check_build.py:345-369 | The loop over the checks keeps every row right and reports whether the item fails some check. |
| BuildReport.CountUnit | build-check/check_build.py:325-371 | One unit is counted as a code item, metadata or an error, and as a member. |
| BuildReport.CountFile | build-check/check_build.py:323-373 | A file is failing exactly when one of its items fails some check. |
| BuildReport.MakeReport | build-check/check_build.py:302-380 | All counters are the counts of the flat list of items and units; files are failing and readable as defined. |
| BuildReport.ReportMeans | build-check/check_build.py:345-371 | The state counts are the numbers of items with such evidence, and the entries of a check are the files with an item that does not meet it, with the number of these and the first. |
| BuildReport.FilesCounted | build-check/check_build.py:321-373 | A file is failing exactly when one of its units does not meet one of the twelve checks, and inspected exactly when it has no unreadable unit. |
| BuildReport.UnitsCounted | build-check/check_build.py:325-343 | The counts of skipped, unreadable and member units are the numbers of such units. |
| BuildReport.EnforcedIff | build-check/check_build.py:374-380 | A check is enforced exactly when it is not ignored for some item, or by default when there are none. |
| BuildReport.StatesSum | build-check/check_build.py:350-351 | The four state counts of a check sum to the items checked. |
| BuildReport.UnitsAccounted | build-check/check_build.py:325-344 | Every unit is a code item, skipped or an error; every member is inspected or an error. |
| BuildReport.TotalFailures | build-check/check_build.py:396 | The sum over a check's entries is the number of items that fail it under last-match-wins modes. |
| BuildReport.EntryIffFails | build-check/check_build.py:364-369 | A file has an entry under a check exactly when one of its items fails it. |
| BuildReport.FailingFilesAreNamed | build-check/check_build.py:363-373 | With distinct names the failing files are as many as the names in the union of the checks' failure maps. |
| BuildReport.UnenforcedNeverFails | build-check/check_build.py:376-380 | A check that is not enforced has no failure. |

## Left out

- The choice of the response mode (`select_mode` with its URL parsing), the fixed bytes of the pages and the HTTP header parser are parameters; of pages only non-emptiness and a size below 1024 are used.
- Sockets.Send: the pause between partial writes is not modelled; time is not part of this model, and timeouts are arbitrary.
- Sockets.RecvExact: a read that fails other than by a timeout, such as on a reset connection, is not modelled.
- ElfEvidence.MoreEvidence: that the driver check's pattern is one name is taken from CHECKS, since the patterns are predicates.
- Server.Ownership: `start`, a second `stop` and the join timeouts are not modelled; a handler is one step, since the handlers are modelled by themselves.
- The preface and the control frames of HTTP/2, Huffman strings, the dynamic table, padding and priority of HEADERS, and static table entries above 7: nothing the printers produce.
- Http2.RequestsRoundTrip: stream ids below 2^31 only; the mask takes the top bit off larger ones (`Http2.FrameMade`).
- Harness.FuzzServer: connecting, logging and the settle delays are left to the environment; EINTR is raised finitely often.
- Replay.Replay: argument parsing, printing and the final reachability test.
- `stop_previous`, the archiving of logs, ports, the backend responder and packet capture of `run.sh` appear only as answers that let a launch succeed or fail.
- Supervisor.Supervisor.Cleanup: the waiting and killing of groups between signal and wait status; the status is an answer of the environment.
- Supervisor.Supervisor.Supervise: unset array slots are modelled by removal from a sequence; bash skips them.
- Exclusion.ProfilesExcluded: a builder's commands end with it or keep its descriptor open; helpers a supervisor runs besides its children are not modelled.
- Suppression.Filter: lines come classified by the patterns they match; the awk key of launch and pid is the joined string.
- SanitizerReport.Process: the normalizing pipeline behind the partition and the printed totals.
- ElfEvidence.ParseElf: lines come classified by its regular expressions, and the name patterns and `fnmatch` are predicates.
- BuildReport.MakeReport: discovery of artifacts, archive chunks, the order of entries and the Markdown text; a unit's error text is not kept.
- Seeds, configuration templates, coverage reports, toolchain scripts and `status.sh`: finite data or operating system plumbing.
