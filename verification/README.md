# cserve: a verified model

cserve is a multithreaded HTTP/1.1 server written in C++. This project models its byte-stream
codecs and its dispatch loop in Dafny 4.11 and proves what they keep, what they undo and where
they fail. `dafny verify dfyconfig.toml` checks everything.

| file | models |
|---|---|
| `Dispatch.dfy`, `Server.dfy` | the poll loop, the worker loop, the socket lists and the idle queue: a transition system, and the classes whose methods make its steps |
| `Handlers.dfy` | the choice of the request handler |
| `Wrappers.dfy`, `Streams.dfy`, `Numbers.dfy` | results and errors, input streams with their state bits, `safeGetline`, hexadecimal printing and scanning |
| `Letters.dfy`, `Scans.dfy` | the written-out alphabets and blanks, and what the number scanners make of a text |
| `Chunks.dfy`, `ChunkReader.dfy` | reading the chunked transfer coding (section 7.1 of RFC 9112): `readAll`, `getline`, `getc` |
| `FileRanges.dfy`, `Responses.dfy`, `ResponseHeaders.dfy`, `Connection.dfy`, `ResponseReadBack.dfy` | writing a response: buffering, framing, chunks, file ranges; and reading it back |
| `UrlCodec.dfy`, `Triplets.dfy`, `PlusSigns.dfy`, `HeaderText.dfy`, `OptionValues.dfy`, `HttpHelpers.dfy` | percent-encoding (section 2.1 of RFC 3986), query strings, header options |
| `RequestHeaders.dfy`, `HeadFields.dfy`, `PostForms.dfy` | the header block of a request, and the body of a form from its content-type line on |
| `Multipart.dfy`, `Boundary.dfy`, `MultipartBounds.dfy`, `BodyEnds.dfy`, `ChunkedForms.dfy`, `FormRoundTrip.dfy`, `PartHeads.dfy`, `FormCuts.dfy`, `FormFailures.dfy`, `FormReader.dfy` | the streaming multipart/form-data parser (section 5.1.1 of RFC 2046, section 4.1 of RFC 7578) |
| `SockStream.dfy` | the get and put areas between a socket and the standard streams |
| `Base64.dfy` | base64 (section 4 of RFC 4648) |
| `Routes.dfy` | routes as configuration text |

Code that changes variables step by step is modelled by methods and classes with the same fields
and loops. Each such method is proved equal to a function, and the lemmas are about these
functions. What these functions mean is stated against written-out digits, letters and verbs, not
only by their being each other's inverses. A `char` stands for one byte; where the numeric value of
a byte matters it is required to be below 256. An exception is the `Err` of a result.
`NeverReturns`, and None from the decoders, stand for a call that loops for ever. Sockets and files
are scripts of arbitrary answers: every short read, every packet boundary and every refused or
partial send is one of them.

Where the code does not do what its documentation or its callers suggest, the model follows the
code. A lemma says exactly when the expected property holds; unless it never does, another gives an
input for which it fails:

- `urldecode` loops for ever exactly when some '%' met by the scan has fewer than two bytes after
  it (`LoopEndsExactly`), as in "%" (`DanglesWitness`).
- `urldecode` leaves '+' alone after the last triplet: "a+b" stays "a+b" (`PlusWitness`). It decodes
  a form field fully exactly when there is no such '+' (`DecodeIsFullExactly`, `QueryPlusExactly`,
  `QueryMapExactly`); a text that a form sends arrives unchanged exactly when every space in it is
  followed by a byte sent as a triplet (`FormFieldExactly`).
- An option without '=' in a header takes over the value of the last one that had it: "a=1;b"
  (`LeakWitness`). The options come out as meant exactly when no option without '=' that stays in
  the map follows a non-blank value (`OptionsExactly`).
- `readAll` leaves the line end after the last chunk unread, `getc` and `getline` take it
  (`ReadAllDecodes`, `GetAllDecodes`).
- `getline` stops one byte early exactly when a chunk ends between the CR and the LF of the line
  (`SplitLineDiffers`, `SplitLineWitness`), and the LF left behind is an empty line for the next call.
  In a form this matters exactly in front of a part and in the header lines of a file: a form with
  named fields reads back if and only if no chunk ends there (`CutFormReadsBack`), as in
  `CutHeaderWitness`. Without names a cut can go unseen (`NamelessHidesCut`).
- A chunked form need not lie in its body: at the end of the payload the parser goes on with what
  follows on the connection. With no pair cut that matters and no lone CR at the end, an accepted
  form lies in the payload exactly when the payload itself parses (`AcceptedInside`). A file part whose boundary is not found is accepted exactly when
  two calls of `getc` behind the body leave a good stream (`ChunkedWithoutBoundary`, `TailWitness`,
  `UnfoundFormAccepted`); from a plain body it is refused (`NoBoundaryFails`).
- An empty chunked `send` ends the body for the reader. The data before it is all of it exactly when
  nothing non-empty is sent after it (`EmptyChunkEndsBody`, `EmptyChunkWitness`).
- `sendAndFlush` announces the whole buffer but writes its argument (`SendAndFlushWitness`); the two
  agree exactly when the buffer was empty (`SendAndFlushLength`).
- A second file goes out behind a header that does not announce it (`TwoFilesWitness`), and a range
  whose end is the file size leaves a chunked body without its last chunk (`OpenChunksWitness`).
  Over a whole run the framing holds exactly when every call is `Clean` (`CleanExactly`, `Framing`).
- Buffered data that no flush follows is lost, and so is the header (`NothingSent`, `LostWitness`).
  Nothing stays behind exactly when every piece of data has a flush at or after it
  (`NothingUnflushed`).
- `setBuffer` ignores its arguments, and `finalize` adds one more CRLF to every response, after the
  announced length (`UnchunkedReadsBack`).
- A byte range whose end is the file size passes the check but announces one byte too many
  (`RangeExact`), and a range that ends at 0 gives the whole file (`InclusiveRange`, `RangeWitness`).
- The recorded size of an upload counts every restart of the boundary match once more
  (`RecordedSizeExact`): of the content CR two bytes are recorded (`RecordedSizeWitness`).
- A boundary byte above 127 never matches in a file part, because a byte read is compared with a
  signed `char` (`HighUnmatched`): a form reads back exactly when it holds no file or its boundary
  has no such byte (`FormReadsBack`, `HighBoundaryWitness`). From a plain body such a form is refused
  (`HighBoundary`).
- The send loops of SockStream request `n - nn` bytes although `n` is already reduced; they
  succeed exactly when the socket takes everything at the first call (`SendsAllOrNever`,
  `SendLoopWitness`).
- The putback region of SockStream holds bytes that never arrived until as many have been read as
  it is long. After a read that gave nothing the bytes behind the region are still right and, unless
  the area had just its size, those in it have been moved over (`MissedRight`, `MissedFrom`,
  `MissedWitness`); putting a byte back restores the stream exactly when it is the byte delivered
  last, which it is within the right bytes (`Unget`).
- A route survives printing and parsing exactly when it has no colon and a script, and a single
  route only without semicolons (`ParseInvertsPrint`, `ListRoundTrip`); what a colon or a semicolon
  does is in `ColonCuts`, `ColonWitness` and `SemicolonWitness`.

## Model

| member | source | states |
|---|---|---|
| Dispatch.OnePlace | lib/Cserve.cpp:586-815 | an accepted socket is exactly once in polled, waiting, working or closed together; one never accepted is in none |
| Dispatch.StepPartition | lib/Cserve.cpp:603-755 | every event keeps that partition |
| Dispatch.StepThreads | lib/Cserve.cpp:603-755 | every event keeps the thread accounting: idle threads once in the queue with empty pipes, busy ones with one message and one socket, one to one onto the working sockets |
| Dispatch.StepWorkConserving | lib/Cserve.cpp:603-755 | every event keeps "nobody waits while a thread is idle" |
| Dispatch.Reporting | lib/Cserve.cpp:338-387 | a thread whose pipe is readable owns the socket it names, because the worker echoes the message it received |
| Dispatch.ClientGoesTo | lib/Cserve.cpp:711-755 | an accepted client is polled, one that hung up is closed, a readable one goes to the first idle thread or to the end of the queue |
| Dispatch.StatusDecides | lib/Cserve.cpp:338-668 | whatever happens before the report of a request is read: its socket is then polled again if and only if the status was CONTINUE, and closed if and only if it was CLOSE |
| Dispatch.ThreadGoesTo | lib/Cserve.cpp:609-668 | the thread of a report takes the head of the waiting queue, or goes to the end of the idle queue when nobody waits |
| Dispatch.Safety | lib/Cserve.cpp:586-815 | partition, bijection and work conservation in every reachable state, for every number of threads and every order of events |
| Dispatch.ClosedForever | lib/Cserve.cpp:641-755 | a closed socket is closed once and never polled, queued or worked on again |
| Dispatch.QueueStep | lib/Cserve.cpp:609-742 | an event takes the head off the waiting queue if it is a report, and otherwise only appends |
| Dispatch.MovesUp | lib/Cserve.cpp:609-742 | over any run a waiting socket moves up one place per report |
| Dispatch.ServedByReportNumber | lib/Cserve.cpp:609-742 | the socket at place k is given to the reporting thread by exactly the (k+1)-th later report, and to no thread before |
| Dispatch.BacklogCountsSteps | lib/Cserve.cpp:338-387 | without client events every order of thread steps uses up the backlog one by one, so it ends |
| Dispatch.NoDeadlock | lib/Cserve.cpp:338-387 | while the backlog is positive some thread can move |
| Dispatch.Drained | lib/Cserve.cpp:609-668 | the backlog is zero exactly when nobody waits and every thread is idle |
| Server.ThreadControl.constructor | lib/ThreadControl.cpp:22-46 | every thread starts once in the idle queue |
| Server.ThreadControl.ThreadPush | lib/ThreadControl.cpp:55-58 | appends to the idle queue |
| Server.ThreadControl.ThreadPop | lib/ThreadControl.cpp:61-70 | first in, first out; false on an empty queue, which stays |
| Server.ThreadControl.At | lib/ThreadControl.cpp:73-79 | the thread at an index, an exception outside the list |
| Server.ThreadControl.ThreadDelete | lib/ThreadControl.cpp:82-85 | takes one thread off the list, not off the idle queue |
| Server.SocketControl.AddDynSocket | lib/SocketControl.cpp:70-78 | appends to the polled sockets |
| Server.SocketControl.RemoveAt | lib/SocketControl.cpp:81-105 | takes out one position, keeping the order of the others; an exception outside the list changes nothing |
| Server.SocketControl.MoveToWaiting | lib/SocketControl.cpp:107-117 | moves one socket from its position to the end of the waiting queue; an exception outside the list changes nothing |
| Server.SocketControl.GetWaiting | lib/SocketControl.cpp:119-129 | takes the head of the waiting queue, none from an empty one |
| Server.RemoveAtPosition | lib/SocketControl.cpp:81-105 | removing a position removes that socket, when it is listed once |
| Server.MainLoop.AcceptConnection | lib/Cserve.cpp:711-725 | makes the accept step and keeps the invariant |
| Server.MainLoop.ClientInput | lib/Cserve.cpp:726-743 | a readable client goes to the first idle thread, or to the end of the waiting queue; invariant kept |
| Server.MainLoop.ClientHangUp | lib/Cserve.cpp:744-755 | a client that hung up is closed; invariant kept |
| Server.MainLoop.ControlMessage | lib/Cserve.cpp:603-695 | a report puts the socket back or closes it and reuses the thread; invariant kept |
| Server.MainLoop.ProcessRequest | lib/Cserve.cpp:322-387 | a worker takes a message, or answers it with the same socket |
| Server.MainLoop.Loop | lib/Cserve.cpp:586-815 | the loop on its objects refines the transition system for any order of events and keeps the invariant |
| Handlers.GetHandler | lib/Cserve.cpp:196-218 | the longest non-empty route that the URI starts with; the default exactly when there is none |
| Handlers.ServedByOneLength | lib/Cserve.cpp:202-210 | two matching routes of one length are the same, so the order of the map does not matter |
| Streams.InputStream.SafeGetline | lib/HttpHelpers.cpp:28-56 | the byte loop takes one line with the number of bytes taken and the stream state after it, or refuses a long line |
| Streams.ReadLineIs | lib/HttpHelpers.cpp:28-56 | text up to the first CR or LF, with its terminator taken whole |
| Streams.LongLine | lib/HttpHelpers.cpp:52-54 | a line that reaches the limit is refused |
| Streams.LineHasNoEol | lib/HttpHelpers.cpp:28-56 | no line ever contains CR or LF |
| Streams.LineConservation | lib/HttpHelpers.cpp:28-56 | bytes taken and bytes left are the bytes there were; taking nothing leaves a stream at its end |
| Numbers.ScanInvertsPrint | lib/ChunkReader.cpp:45-60 | scanning a printed hexadecimal size gives it back exactly when it fits the type, for both scanners |
| Scans.ScanHexIs | lib/ChunkReader.cpp:49-55 | blanks, a sign, a mark 0x and digits of either case, leading zeros included, scan to the positional value of the digits, whatever follows |
| Scans.NumbersOf | lib/ChunkReader.cpp:49-55 | what the unsigned and the signed type make of it, range errors and the wrapped minus sign included |
| Scans.ScanHexFails | lib/ChunkReader.cpp:49-55 | without a digit there is no number |
| Scans.EverySizeLine | lib/ChunkReader.cpp:114-133 | every such spelling of a size, with any extension, is a size line |
| Scans.CapitalSizeWitness | lib/ChunkReader.cpp:40-243 | a chunk of ten bytes whose size is written "A" or "a" is read by all three entry points |
| Chunks.GetCDelivers | lib/ChunkReader.cpp:196-243 | `getc` gives the next payload byte of any well-formed chunking, then the end of data with the closing line taken |
| Chunks.GetLineDelivers | lib/ChunkReader.cpp:114-193 | text, byte count and next state of `getline` on any chunking |
| Chunks.LineOfPayload | lib/ChunkReader.cpp:114-193 | the text is the payload up to the first CR or LF, and the payload goes on right after the terminator |
| Chunks.GetLineIsSafeGetline | lib/ChunkReader.cpp:114-193 | with no CRLF pair cut, `getline` gives what `safeGetline` gives on the payload |
| Chunks.SplitLineDiffers | lib/ChunkReader.cpp:157-171 | per line: the two agree unless a chunk ends between its CR and LF, and then the count is one less |
| Chunks.SplitLineWitness | lib/ChunkReader.cpp:157-171 | the line "a" with its pair cut counts two bytes instead of three |
| Chunks.InterleavingRefinesCursor | lib/ChunkReader.cpp:114-243 | any interleaving of `getc` and `getline`, up to the first end of data, sees one cursor over the payload |
| Chunks.ReadAllDecodes | lib/ChunkReader.cpp:94-111 | `readAll` gives the payload if it fits the limit and refuses it otherwise, and stops before the closing line |
| Chunks.GetAllDecodes | lib/ChunkReader.cpp:196-243 | repeated `getc` gives the same payload and takes the closing line |
| Chunks.TooBigRefused | lib/ChunkReader.cpp:57-64 | all three entry points refuse a chunk above the limit |
| Chunks.BadSizeRefused | lib/ChunkReader.cpp:49-55 | and a size line that is no number or out of range |
| Chunks.NegativeRefused | lib/ChunkReader.cpp:49-66 | `readAll` refuses a size below zero |
| Chunks.ShortChunkRefused | lib/ChunkReader.cpp:76-81 | and a body that ends within a chunk |
| Chunks.CutOffChunk | lib/ChunkReader.cpp:142-243 | what `getc` and `getline` answer there |
| ChunkReaders.ChunkReader.ReadChunk | lib/ChunkReader.cpp:40-91 | one chunk with all its error cases, as specified by `Chunks.ReadChunk` |
| ChunkReaders.ChunkReader.ReadAll | lib/ChunkReader.cpp:94-111 | the loop over chunks refines `Chunks.ReadAll` |
| ChunkReaders.ChunkReader.GetLine | lib/ChunkReader.cpp:114-193 | the loop refines `Chunks.GetLine`: text, count, fields and stream |
| ChunkReaders.ChunkReader.GetC | lib/ChunkReader.cpp:196-243 | refines `Chunks.GetC`: byte or end, fields and stream |
| Responses.Framing | lib/Connection.cpp:970-1361 | over any calls, `sendFile` included: the header goes out when the calls say so, once and before every body byte; the body is the data handed over, up to the call that sent the header or, chunked, all but what is buffered; announced length and body agree, and a chunked body can be closed, if and only if every call is clean |
| Responses.CleanExactly | lib/Connection.cpp:1078-1361 | the exact condition on the calls: nothing buffered before `sendAndFlush`, no range that ends behind its file, no data behind an unchunked header |
| Responses.RunConserves | lib/Connection.cpp:1078-1407 | bytes on the wire and bytes in the buffer together are the bytes handed over, in order |
| Responses.RunLeaves | lib/Connection.cpp:1325-1361 | what stays in the buffer is the data after the last flush |
| Responses.NothingUnflushed | lib/Connection.cpp:1325-1361 | nothing stays exactly when every non-empty piece of data has a flush at or after it |
| Responses.FinishedForever | lib/Connection.cpp:1078-1361 | a finished response never changes; every later send throws |
| Responses.OpenTakes | lib/Connection.cpp:1078-1361 | an open response refuses data exactly behind an unchunked header, and a file exactly for its range |
| ResponseHeaders.HeadersAre | lib/Connection.cpp:986-1032 | over any run every name has at most one line, with the value set for it last before the header went out, by `header` or `setChunkedTransfer` |
| ResponseHeaders.LateSettings | lib/Connection.cpp:970-1032 | once the header is out, settings are refused and change nothing |
| ResponseHeaders.ChunkedLineStays | lib/Connection.cpp:986-993 | after `setChunkedTransfer` the line says chunked unless a later `header` call replaces it |
| ResponseHeaders.ChunkedHeadWitness | lib/Connection.cpp:986-1105 | `setChunkedTransfer` and `send("a")`: the wire byte by byte |
| Responses.SendAndFlushLength | lib/Connection.cpp:1189-1202 | announced and written lengths agree if and only if the buffer was empty |
| Responses.SendAndFlushWitness | lib/Connection.cpp:1189-1202 | "a" buffered, then "b": two bytes announced, one written |
| Responses.TwoFilesWitness | lib/Connection.cpp:1225-1320 | two files of two bytes: two announced, four written |
| Responses.OpenChunksWitness | lib/Connection.cpp:1241-1320 | a range that ends at the file size: the body ends without its last chunk |
| Responses.ChunkedRoundTrip | lib/Connection.cpp:1078-1455 | after any clean calls with non-empty data and `finalize` both readers decode the body to exactly the blocks of the run, buffered or not |
| Responses.EmptyChunkEndsBody | lib/Connection.cpp:1096-1105 | with empty sends the reader gets the data before the first one, which is all of it if and only if nothing non-empty follows |
| Responses.EmptyChunkWitness | lib/Connection.cpp:1096-1105 | of "a", "" and "b" the reader gets "a"; of "a" and "" too, and nothing is lost |
| ResponseReadBack.HeadIsBlock | lib/Connection.cpp:1410-1440 | the header block as written is a status line and a block that `process_header` reads field by field |
| ResponseReadBack.UnchunkedReadsBack | lib/Connection.cpp:970-1455 | when the calls send an unchunked header, a client that reads with the program's own readers sees the headers they have set, the announced length, exactly the data up to that call, and two more bytes; the head says chunked exactly when a header of the caller does |
| ResponseReadBack.ChunkedReadsBack | lib/Connection.cpp:1078-1455 | when they send a chunked one, the client sees the headers they have set, chunked exactly when one of them says so, and `readAll` gives it the data handed over without what no flush followed: all of it if and only if that is nothing |
| ResponseReadBack.ChunkedSet | lib/Connection.cpp:986-1032 | one does when `setChunkedTransfer` came before the header and its line was not replaced |
| ResponseReadBack.NothingSent | lib/Connection.cpp:1078-1455 | when no call sends the header, only the end of the body reaches the client, and all data stays in the buffer |
| ResponseReadBack.LostWitness | lib/Connection.cpp:1078-1138 | a buffered `send` alone: the client gets one line end |
| FileRanges.InclusiveRange | lib/Connection.cpp:1250-1269 | a range inside the file: announced length and bytes are the inclusive range, if and only if its end is not 0 or the file has one byte |
| FileRanges.AcceptedExactly | lib/Connection.cpp:1250-1269 | which ranges are accepted |
| FileRanges.RangeExact | lib/Connection.cpp:1250-1311 | the bytes sent have the announced length exactly when the end is absent, or inside the file and not before the start by more than one |
| FileRanges.RangeWitness | lib/Connection.cpp:1250-1269 | of two bytes the ranges that end at 0 and at 2 both give the whole file; the second announces three |
| Connections.Connection.constructor | lib/Connection.cpp:143-173 | an open response, buffered exactly for a positive size |
| Connections.Connection.SetBuffer | lib/Connection.cpp:970-982 | makes the specified step and keeps the buffer valid |
| Connections.Connection.SetChunkedTransfer | lib/Connection.cpp:986-993 | makes the specified step |
| Connections.Connection.Header | lib/Connection.cpp:1026-1032 | makes the specified step; refused once the header is out |
| Connections.Connection.AddToOutbuf | lib/Connection.cpp:1392-1407 | the buffer holds what it held and then the data, within its size, which grows by whole increments |
| Connections.Connection.SendHeader | lib/Connection.cpp:1410-1440 | writes the header block piece by piece |
| Connections.Connection.Send | lib/Connection.cpp:1078-1138 | makes the specified step on wire, buffer and flags, or throws without a change |
| Connections.Connection.SendAndFlush | lib/Connection.cpp:1142-1220 | makes the specified step |
| Connections.Connection.Flush | lib/Connection.cpp:1325-1361 | makes the specified step |
| Connections.Connection.WriteBlocks | lib/Connection.cpp:1289-1311 | every block size and every pattern of short reads sends the same bytes in order |
| Connections.Connection.SendFile | lib/Connection.cpp:1225-1320 | the bytes of the range after a header with its length; refused ranges throw without a change |
| Connections.Connection.Finalize | lib/Connection.cpp:1444-1455 | closes a chunked body once and finishes the response |
| UrlCodec.DecodeShrinks | lib/HttpHelpers.cpp:58-103 | the output is no longer than the input |
| UrlCodec.DecodeFailsExactly | lib/HttpHelpers.cpp:62-70 | decoding has no result exactly when a '%' met by the scan has fewer than two bytes after it |
| UrlCodec.LoopEndsExactly | lib/HttpHelpers.cpp:62-103 | the loop ends if and only if no '%' dangles, and then gives the recursive triplet decoding |
| UrlCodec.NoLatePercent | lib/HttpHelpers.cpp:62-70 | it ends when no '%' is in the last two positions |
| UrlCodec.DecodeInvertsEncode | lib/HttpHelpers.cpp:58-124 | decoding inverts encoding for every byte string and both treatments of '+' |
| Triplets.TripletDecodes | lib/HttpHelpers.cpp:62-99 | '%' and two digits in any spelling give their byte, and decoding goes on behind them |
| Triplets.NoTripletCopied | lib/HttpHelpers.cpp:62-99 | a '%' with anything else among its two followers is copied with them |
| Triplets.SlashWitness | lib/HttpHelpers.cpp:62-99 | "%2f" and "%2F" are the slash |
| Triplets.EncodeByte | lib/HttpHelpers.cpp:106-124 | an unreserved byte stays, any other becomes '%' and its two capital digits |
| Triplets.EncodeConcat | lib/HttpHelpers.cpp:106-124 | encoding goes byte by byte |
| Triplets.EncodeKeeps | lib/HttpHelpers.cpp:106-124 | unreserved text stays as it is |
| UrlCodec.QueryRoundTrip | lib/HttpHelpers.cpp:161-201 | parsing encoded pairs joined by '&' gives the map they make |
| UrlCodec.MapRecovered | lib/HttpHelpers.cpp:161-201 | every finite map is recovered from its pairs in any order |
| PlusSigns.DecodeIsFullExactly | lib/HttpHelpers.cpp:58-103 | decoding with '+' as space agrees with the form media type exactly when no '+' comes after the last triplet |
| PlusSigns.PlusWitness | lib/HttpHelpers.cpp:96-103 | "a+b" stays "a+b", also as a query value |
| PlusSigns.QueryPlusExactly | lib/HttpHelpers.cpp:161-201 | a query is read pair by pair as the media type means it exactly when no name and no value has such a '+' |
| PlusSigns.QueryMapExactly | lib/HttpHelpers.cpp:161-201 | the map is as meant exactly when no value that stays in it has such a '+' |
| PlusSigns.FormFieldExactly | lib/HttpHelpers.cpp:58-103 | a text as the form media type serializes it arrives unchanged exactly when every space is followed by a byte sent as a triplet |
| HttpHelpers.StrSplit | lib/HttpHelpers.cpp:16-26 | cuts at the first separator, which the first half does not contain; without one the second half is empty |
| HttpHelpers.UrlDecode | lib/HttpHelpers.cpp:58-103 | the loop gives the triplet decoding; it has no result exactly when a '%' dangles |
| HttpHelpers.UrlEncode | lib/HttpHelpers.cpp:106-124 | the loop refines the encoder that `DecodeInvertsEncode` inverts |
| HttpHelpers.SplitParams | lib/HttpHelpers.cpp:130-142 | the loop gives the pieces between separators, without an empty first or last one |
| HttpHelpers.ParseQueryString | lib/HttpHelpers.cpp:161-201 | refines the parser that `QueryRoundTrip` is about |
| HttpHelpers.ParseHeaderOptions | lib/HttpHelpers.cpp:127-159 | refines the option parser, with its value carried over |
| HeaderText.TrimIdempotent | lib/HttpHelpers.cpp:146-154 | a trimmed text has no blank at its ends, and trimming twice changes nothing |
| Letters.TrimTakes | lib/HttpHelpers.cpp:146-154 | trimming takes exactly the six blanks of the "C" locale off both ends |
| Letters.CaseInsensitive | lib/Connection.cpp:54-57 | texts agree in lower case, and in upper case, exactly when they are the same but for the case of letters |
| HeaderText.FieldLine | lib/Connection.cpp:54-60 | a printed header line is cut into its name in lower case and its value |
| OptionValues.OptionsExactly | lib/HttpHelpers.cpp:127-159 | what the loop stores, and that it is what is meant exactly when no option without '=' that stays in the map follows a non-blank value |
| OptionValues.OptionMeans | lib/HttpHelpers.cpp:143-156 | one option: name in lower case and value, blanks around them not counting |
| OptionValues.ParamsJoined | lib/HttpHelpers.cpp:127-142 | the list of a text: an empty piece in front or at the end does not count, any other does |
| OptionValues.LeakWitness | lib/HttpHelpers.cpp:127-159 | in "a=1;b" the option b gets the value 1 |
| FormRoundTrip.DispositionOptions | lib/HttpHelpers.cpp:127-159 | the options of a printed disposition are the quoted names |
| PartHeads.LineMeans | lib/Connection.cpp:359-407 | what one header line of a part changes, by its name in any case of letters |
| PartHeads.LinesMean | lib/Connection.cpp:358-418 | for any lines in any order: name and file name from the dispositions, type and coding from the last line for them, nothing from any other line |
| PartHeads.UnquoteIs | lib/Connection.cpp:384-401 | quotes around a value are taken off, and nothing else is |
| PartHeads.AnyFormReadsBack | lib/Connection.cpp:328-587 | any preamble, any header lines in every part: a plain form gives the fields and uploads that the lines mean, if and only if its boundary can be found or it has no file |
| RequestHeaders.ScanInvertsDecimal | lib/Connection.cpp:76-79 | scanning a printed decimal length gives it back exactly when it fits the type |
| Scans.ScanDecimalIs | lib/Connection.cpp:75-79 | blanks, a sign and digits scan to their positional value if it fits the type |
| Scans.ScanDecimalFails | lib/Connection.cpp:75-79 | without a digit there is no number |
| RequestHeaders.HeadReadsBack | lib/Connection.cpp:42-87 | a header block printed field by field is read as these fields, and the body is untouched |
| RequestHeaders.HeadMeans | lib/Connection.cpp:60-84 | fields by lower-case name, last one winning; length and host agree with them; chunked if and only if some line says so |
| HeadFields.BlockMeans | lib/Connection.cpp:58-84 | keep-alive, cookies, timeout, length, host and coding are what the last lines for them say, and the starting values without such a line |
| HeadFields.RefusedExactly | lib/Connection.cpp:58-84 | a block is refused exactly at a number that does not scan or a value whose decoding never ends |
| HeadFields.ConnectionWord | lib/Connection.cpp:62-66 | "close" in any case of letters ends the connection, any other single word keeps it |
| HeadFields.KeepAliveTimeout | lib/Connection.cpp:72-76 | "timeout=n" sets the timeout |
| HeadFields.CutOffBlock | lib/Connection.cpp:42-58 | a line that the input ends in is dropped, the lines before it count |
| HeadFields.LongLineRefused | lib/Connection.cpp:42-58 | a line at the limit is refused, wherever it stands |
| RequestHeaders.ReadDecimal | lib/Connection.cpp:75-79 | the scanner for signed decimal numbers with its two errors |
| RequestHeaders.Request.SetField | lib/Connection.cpp:60-84 | what each header field sets |
| RequestHeaders.Request.ProcessHeader | lib/Connection.cpp:42-87 | the line loop refines `ReadHead`: fields and stream |
| PostForms.UrlencodedReadsBack | lib/Connection.cpp:263-303 | a form of encoded pairs arrives as their map, plain or in any chunks |
| PostForms.UrlencodedRefused | lib/Connection.cpp:263-303 | a body announced too long, too short or empty, and chunks above the limit |
| PostForms.TypeDecides | lib/Connection.cpp:262-345 | the first word of the content type chooses the parser; others give no form |
| PostForms.UrlencodedRequest | lib/Connection.cpp:42-303 | header block and encoded pairs together, plain or chunked as the lines say |
| PostForms.CStringKeeps | lib/Connection.cpp:297-299 | the copy through a C string keeps the body exactly when it has no NUL byte |
| PostForms.ReadUrlencoded | lib/Connection.cpp:263-303 | the branch with its limit and read errors |
| PostForms.BoundaryFromHeader | lib/Connection.cpp:310-316 | the boundary is everything after the first '=' of its option |
| PostForms.LastBoundary | lib/Connection.cpp:309-316 | of several boundary options the last one decides |
| PostForms.BareBoundary | lib/Connection.cpp:309-316 | a boundary option without a value gives the bare two dashes |
| PostForms.MultipartRefused | lib/Connection.cpp:304-320 | a negative length or one above the limit, and a missing boundary, are refused |
| PostForms.MultipartReadsBack | lib/Connection.cpp:304-589 | from the content-type value to fields and files: from a plain body exactly when the boundary can be found, and from a chunked one, for named fields, exactly when no harmful pair is cut as well |
| PostForms.PlainRequestReadsBack | lib/Connection.cpp:42-589 | header block and form together, no line saying chunked: what was printed comes back exactly when the boundary can be found |
| PostForms.ChunkedRequestReadsBack | lib/Connection.cpp:42-589 | the same with a line that says chunked and a chunked body, whatever length is announced: for named fields exactly when the boundary can be found and no harmful pair is cut |
| PostForms.ReadMultipart | lib/Connection.cpp:304-345 | the branch with its length check and the missing-boundary error |
| FormReaders.ProcessHeaderValue | lib/Connection.cpp:91-104 | the trimmed pieces between semicolons, at least one |
| FormReaders.FindBoundary | lib/Connection.cpp:310-316 | the last option named boundary decides |
| FormReaders.FormReader.ReadFile | lib/Connection.cpp:484-533 | the byte loop refines `Multipart.CopyFile`: file bytes, size, counter and source |
| FormReaders.FormReader.ReadText | lib/Connection.cpp:420-448 | the line loop of a text value |
| FormReaders.FormReader.ReadHeaders | lib/Connection.cpp:358-418 | the header loop of a part |
| FormReaders.FormReader.ReadForm | lib/Connection.cpp:328-587 | the whole parser refines `Multipart.ParseForm`, with remaining input as measure of every loop |
| Boundary.CopyStopsAtBoundary | lib/Connection.cpp:484-533 | for any stream the matcher writes the bytes before the first boundary and stops just after it |
| Boundary.FilePartCopied | lib/Connection.cpp:484-533 | content without the boundary comes back byte for byte |
| Boundary.RecordedSizeExact | lib/Connection.cpp:497-532 | recorded size is bytes written plus restarts: the file size exactly when there is no restart |
| Boundary.RecordedSizeWitness | lib/Connection.cpp:497-532 | for the content CR the size two is recorded |
| Boundary.NoBoundaryFails | lib/Connection.cpp:484-571 | on a plain body without the boundary, or with a byte above 127 in the boundary, the form is refused |
| Boundary.HighUnmatched | lib/Connection.cpp:497-511 | the signed comparison never completes a pattern with such a byte, whatever the input and the state of the loop in front of it |
| BodyEnds.ChunkedWithoutBoundary | lib/Connection.cpp:484-571 | on a chunked body without a findable boundary the part is accepted if and only if the limit holds and two `getc` calls on what follows the body leave a good stream; what its content is, and when the form is closed |
| BodyEnds.TailWitness | lib/Connection.cpp:484-571 | the chunk "x", then "--" as another chunked body: the upload is accepted and the form closed; the payload alone is refused |
| Boundary.HeaderBoundaryHasUniqueStart | lib/Connection.cpp:310-316 | why the naive restart is sound: CR occurs in the pattern only at its start, because a header line never contains one |
| MultipartBounds.FormBound | lib/Connection.cpp:328-587 | the counter is the bytes read less one per file part, and never above a positive limit |
| MultipartBounds.HighBoundary | lib/Connection.cpp:328-587 | with such a boundary a form that parses from a plain body holds no upload |
| ChunkedForms.ChunkingIsTransparent | lib/Connection.cpp:328-587 | a payload that parses as a form parses the same from any chunking that leaves whole the lines in front of parts and the header lines, in parts without a file name but for the last two; the rest may be cut anywhere |
| ChunkedForms.AcceptedInside | lib/Connection.cpp:328-587 | a form accepted from such chunks, within the limit, lies in the payload if and only if the payload itself parses |
| FormRoundTrip.FormReadsBack | lib/Connection.cpp:304-589 | any list of parts, printed and parsed, gives the same fields and files in order, if and only if there is no file or the boundary has no byte above 127 |
| FormCuts.CutFormReadsBack | lib/Connection.cpp:328-587 | a printed form with named fields reads back from chunks if and only if its boundary can be found and no chunk ends in the pair of a boundary line in front of a part or of a header line of a file |
| FormCuts.PartsCut | lib/Connection.cpp:340-587 | the same for the parts still to come, from any state of the outer loop, with or without an LF left behind |
| FormFailures.CutHeaderDiffers | lib/Connection.cpp:358-418 | a header line with its pair cut ends the headers: the content type behind it is lost |
| FormFailures.CutHeaderWitness | lib/Connection.cpp:358-418 | two header lines, the first one cut: the type is text/plain from the plain body and empty from the chunks |
| FormFailures.HighBoundaryWitness | lib/Connection.cpp:484-571 | a form of one file whose boundary has a byte above 127 does not read back |
| FormFailures.UnfoundFormAccepted | lib/Connection.cpp:484-571 | a chunked form of one file with such a boundary is accepted and closed when two bytes that begin with '-' follow the body |
| FormFailures.NamelessHidesCut | lib/Connection.cpp:355-448 | two fields without a name: a cut in front of the first goes unseen |
| SockStreams.SendsAllOrNever | lib/SockStream.cpp:107-127 | the send loop succeeds exactly when the first call takes everything; else a proper prefix is gone, and it has read outside the buffer exactly when that is more than half |
| SockStreams.SendLoopWitness | lib/SockStream.cpp:107-127 | of three bytes two are taken: the next request is out of bounds |
| SockStreams.PartialNeverDone | lib/SockStream.cpp:141-161 | after a partial send the loop never succeeds |
| SockStreams.ReadTakesFront | lib/SockStream.cpp:83-93 | a read takes the front of what arrives, whatever the packets |
| SockStreams.KeptRight | lib/SockStream.cpp:78-81 | moving the end of the area in front of new bytes keeps its right bytes right, as many as fit |
| SockStreams.MissedRight | lib/SockStream.cpp:76-99 | after a read that gave nothing the right bytes behind the putback region are still right |
| SockStreams.MissedFrom | lib/SockStream.cpp:76-99 | which byte every position of the area holds then: behind the putback region its own, in it the one moved there, which differs when all bytes do and the area has not just its size |
| SockStreams.MissedWitness | lib/SockStream.cpp:76-99 | two bytes of putback and "abc": the area has become "bcc" |
| SockStreams.SockStream.MoveTail | lib/SockStream.cpp:78-81 | the `memmove`, with the bytes in front of the buffer when the area is too short |
| SockStreams.SockStream.Refill | lib/SockStream.cpp:76-99 | delivered bytes and get area stay what arrived; after a refill the putback region is full; after a miss the area is `Missed` and so many bytes are right as `MissedRight` says |
| SockStreams.SockStream.Underflow | lib/SockStream.cpp:71-101 | the next byte, or the end exactly when nothing is pending; what is pending does not change |
| SockStreams.SockStream.Bump | lib/SockStream.cpp:71-101 | takes exactly the first pending byte |
| SockStreams.SockStream.Unget | lib/SockStream.h:54 | moves back over a byte that is the one delivered last if and only if the stream is as before, and is so within the right bytes of the area; at the start it still moves when more is in the area than ever arrived |
| SockStreams.SockStream.Drain | lib/SockStream.cpp:71-101 | reading to the end delivers exactly what the socket gives, for every buffer size and packet size |
| SockStreams.SockStream.Overflow | lib/SockStream.cpp:102-138 | sent bytes and put area stay what was written, exactly unless a part of the area went out |
| SockStreams.SockStream.Sync | lib/SockStream.cpp:140-166 | success exactly when the first send takes the put area, and then everything written is sent |
| SockStreams.SockStream.WriteAndFlush | lib/SockStream.cpp:102-166 | on sockets that take a request whole or fail, success means the peer has every byte |
| Base64.CodeOfLetter | lib/LuaServer.cpp:132-139 | the lookup inverts the alphabet, and its letters are those accepted |
| Base64.AlphabetIs | lib/LuaServer.cpp:132-139 | the 64 letters as RFC 4648 writes them out |
| Base64.Vectors | lib/LuaServer.cpp:142-229 | test vectors of section 10, and the last two letters |
| Base64.PaddingUnused | lib/LuaServer.cpp:212-226 | what a padded position looks up never reaches an output byte |
| Base64.FrontStops | lib/LuaServer.cpp:194 | decoding ends at the first character outside the alphabet, whatever follows |
| Base64.RoundTrip | lib/LuaServer.cpp:142-229 | decoding inverts encoding for every byte string |
| Base64.EncodeDecoded | lib/LuaServer.cpp:142-229 | encoding inverts decoding on whole groups of letters |
| Base64.Base64Decode | lib/LuaServer.cpp:186-229 | the loop with its two arrays refines the decoder |
| Base64.Base64Encode | lib/LuaServer.cpp:142-183 | the loop refines the encoder |
| Routes.VerbReadBack | lib/LuaServer.cpp:239-283 | every printable verb is recognised again |
| Routes.VerbTable | lib/LuaServer.cpp:231-262 | which verb each text gives, in any case of letters |
| Routes.TextTable | lib/LuaServer.cpp:264-283 | and which text each verb |
| Routes.NoRoute | lib/LuaServer.cpp:231-262 | an unknown verb, or fewer than three pieces: the empty route |
| Routes.ParseInvertsPrint | lib/LuaServer.cpp:231-288 | a route survives exactly when no field has a colon and it has a script, or it is the empty route |
| Routes.ColonCuts | lib/LuaServer.cpp:231-288 | a colon in the route: what follows it becomes the script |
| Routes.ColonWitness | lib/LuaServer.cpp:231-288 | the route "/a:b" with script "s" is read as "/a" with script "b" |
| Routes.JoinedRoundTrip | lib/ConfValue.h:223-237 | a list in one text survives exactly when each route does and no field has a semicolon |
| Routes.ListRoundTrip | lib/ConfValue.h:223-283 | a stored list survives exactly when each route does and a single one has no semicolon |
| Routes.LeadingSemicolon | lib/ConfValue.h:223-242 | a single text that begins with a semicolon is taken for one route |
| Routes.SemicolonWitness | lib/ConfValue.h:223-242 | a single stored route "/a;b" is read as two empty routes |
| Routes.SplitAtDelim | lib/Global.h:46-54 | the pieces between delimiters without an empty last one |
| Routes.ReadRoute | lib/LuaServer.cpp:231-262 | the constructor; it never gives TRACE |
| Routes.ConfValue.SetRoutes | lib/ConfValue.h:279-283 | stores the printed list; a TRACE route throws with the ones before it stored and the type unchanged |
| Routes.ConfValue.GetRoutes | lib/ConfValue.h:223-242 | reads the stored texts back, none for another type |

## Left out

- Shutdown: the EXIT message, the stop socket, closing everything at the end, and the death or hang-up of a worker with `thread_delete` in the loop.
- Positions in the poll array: the loop removes by position while it walks an older copy of the list. Events here name a socket, and its position is looked up.
- Reuse of file descriptors: a socket here is a connection, and an accepted one is new.
- Signals, setuid, TLS, logging, configuration files, the Lua bindings, JWT, SQLite and curl.
- Dispatch.NoDeadlock: says that some thread can move, not that the scheduler lets it; that a request ends is not part of this model.
- Server.SocketControl.RemoveAt: positions count from the first client socket; the pipes and listeners in front of them, and the indices kept of them, are not modelled.
- Server.SocketControl.MoveToWaiting: the same.
- Server.MainLoop.ControlMessage: the message SOCKET_CLOSED and the hang-up of a worker's pipe, with `thread_delete`, belong to the end of a worker and are not modelled.
- Server.MainLoop.ProcessRequest: the message EXIT and the hang-up of the control pipe, which end the worker.
- Server.MainLoop.Loop: runs before shutdown only: no stop socket, no death of a worker, no closing of everything at the end.
- Connections.Connection.SendHeader: the wire takes everything written, so OUTPUT_WRITE_FAIL does not occur; and header lines are written in the order they were first set, where the source walks an unordered map.
- Connections.Connection.Send: no write failure either.
- Connections.Connection.SendAndFlush: no write failure either.
- Connections.Connection.Flush: no write failure either.
- Connections.Connection.WriteBlocks: no write failure either.
- Connections.Connection.SendFile: no write failure, no access checks, and no file that changes while it is sent.
- Connections.Connection.Finalize: no write failure either.
- The state of a reader after it threw: the connection is closed then, and the methods specify only the error.
- The raw commands `sendData` and `endl`, the cache file, cookies to be set, CORS headers, status texts.
- Temporary files of uploads: the content of a file is a sequence, and creating it never fails.
- ChunkReaders.ChunkReader.ReadChunk: a chunk of negative size without a limit is one error, whatever the allocation or the read would do; chunk trailers are not read by the source either.
- FormCuts.CutFormReadsBack: boundaries that do not begin with '-', because the program puts "--" in front of every one; and that a harmful cut spoils a form with fields without a name, because it need not.
- ChunkedForms.ChunkingIsTransparent: for an arbitrary payload the condition on the cuts suffices; that it is needed is proved for printed forms, since elsewhere a later field may hide what a cut has changed.
- FormRoundTrip.FormReadsBack: `char` is taken as signed, as on x86-64; where it is not, every boundary can be found. Field and file names hold no CR, LF, '%' or ';', because the option parser decodes the one and cuts at the other.
- The request line, `text/plain` and similar bodies, and the conversion of a body that is not a form.
- SockStreams.SockStream.Overflow: on TLS a wrapped request length becomes negative and is an error instead of a read outside the buffer.
- `delete` of the buffers, allocation failure, and locales other than "C".
