# A verified model of the energy logger's server, network, clock and storage core

The repository is the firmware of an ESP8266 energy logger together with the Arduino libraries it is built on.
This project models the parts where it parses untrusted bytes, relinks shared buffers, counts references, computes
dates and writes flash, and proves what those parts promise, for every input and over every run.

Code that changes things in place is modelled as classes and loops; each method is proved equal to a function of its
inputs and the old state, and the theorems are about those functions. Bytes are characters below 256 in the text and
stream modules and integers below 256 in the EEPROM modules. Widths are explicit where they matter: seconds and
milliseconds wrap at 2^32, the upload's `totalSize` too, and date fields have 8 bits.

| file | what it models |
|---|---|
| `Words.dfy` | the machine words |
| `Strings.dfy` | the operations of Arduino's `String` that the parser uses |
| `Arguments.dfy` | URL decoding, query arguments and their lookup |
| `FileScanner.dfy` | the search for the end of an uploaded file |
| `Uploads.dfy` | the 2048-byte upload chunker and the sketch's upload handler |
| `Multipart.dfy`, `MultipartRoundTrip.dfy`, `MultipartCut.dfy` | the form parser as a function of the stream, its round trip, and what it makes of every prefix of a form |
| `Parsing.dfy` | the request parser itself: loops, one byte of lookahead, arrays, callbacks |
| `Pbufs.dfy` | linked packet-buffer chains and `pbuf_cat` |
| `UdpContext.dfy`, `UdpInbox.dfy` | the UDP transmit and receive chains, and runs of them |
| `ClientContext.dfy` | the TCP receive chain, window credit and reference count |
| `Handles.dfy`, `HandleRuns.dfy` | `WiFiClient` handles, their intrusive list and their shared contexts, and runs of them |
| `Serving.dfy`, `WebServer.dfy` | the connection state machine, and the server over queue and handles |
| `Calendar.dfy`, `SummerTime.dfy` | break/make of dates, and the summer-time formula |
| `Clock.dfy` | the system clock, its synchronization and the one-entry field cache |
| `Eeprom.dfy`, `DayTable.dfy`, `DayRuns.dfy` | the write-back EEPROM, the sketch's table of daily yields on it, and runs of both up to a restart |

## What the proofs found

Some natural claims about the code are false. The code is kept as it is, and the exact condition is proved.

- The file scanner does not look again at bytes it read as a possible boundary, so a CRLF `--` near the end of a file
  swallows part of the real delimiter (`FileScanner.ScanOvershoots`). It returns the file that was sent if and only if
  the file is `Clear` (`FileScanner.ScanExact`).
- A multi-line field value loses its leading empty lines (`MultipartRoundTrip.FoldIsJoin`).
- A form with more than 32 fields makes the parser store past its array (`MultipartRoundTrip.TooManyFields`).
- A form that does not arrive as a whole is not always refused. Of all prefixes of a rendered form the parser returns
  false on those that end in the first boundary line, aborts on those that end inside a file, accepts those that lack at
  most the last CRLF, and waits for ever on all others (`MultipartCut.PrefixOfForm`; outcome `NeverReturns` of
  `Parsing.RequestParser.ParseForm`). It may also wait for ever on a form that ends in the block behind a CRLF `--`,
  when the part of the block that came and the old contents of its buffer read like the boundary
  (`FileScanner.ShortBlockMayPass` is such an input).
- The parser means to skip empty lines in front of a form, but it skips bare CRs only: behind an empty line that ends
  with CRLF every form is refused (`Multipart.EmptyLineRefused`).
- Assigning the only handle of a connection to itself frees the connection under it
  (`Handles.Registry.Assign`): the invariant survives an assignment if and only if it is not that one.
- A gap between calls below 2^32 ms is not enough for the clock (`Clocks.GapAloneIsNotEnough`): it is right at every
  call if and only if each call comes less than 2^32 ms after the moment up to which the clock has counted, which lies
  up to a second before the last call (`Clocks.DriftFreeExactly`, for calls less than 2^32 seconds apart, when the
  clock shows the same again).
- The summer-time formula is right exactly up to 2099, of all years the date fields can hold
  (`SummerTime.AgreesExactlyUntil2099`).
- The field cache answers wrongly for its cached time before the first conversion and after the six-argument
  `setTime` (`Clocks.AccessorsAreRight`, `Clocks.NoDateAtStart`).
- A new time provider is asked at once only if the seconds still to be counted do not wrap the clock
  (`Clocks.NewProviderAsked`).
- `deleteEEPROM` ends the EEPROM session, and nothing begins another one before a restart, so everything saved in
  between is lost (`DayRuns.ChangesAfterDeleteAreLost`).
- A day whose commit failed is not tried again (`DayTables.FailedStoreIsNotRetried`). What a restart finds is decided by
  the last change that wrote to the flash alone (`DayRuns.RestartFinds`): everything stored, if that write succeeded,
  and otherwise what it left. So a restart finds the table in memory if and only if that write succeeded, or there was
  none, and every day not saved since it was changed is stored with its value anyway, or it failed and left just that
  table (`DayRuns.TableIsRestored`); a day can be lost (`DayRuns.DayIsLost`).
- A new month is cleared in memory only: a day of it that is not set and saved again is brought back by a restart
  (`DayRuns.ClearedMonthReturns`).

## Model

| member | source | states |
|---|---|---|
| Arguments.DecodeEncoded | ESP8266WebServer/src/Parsing.cpp:553-582 | decoding undoes every percent/plus encoding of every byte string |
| Arguments.EscapeAllEncodes | ESP8266WebServer/src/Parsing.cpp:553-582 | every byte string has such an encoding, so decoding is onto |
| Arguments.SpellingsOfByte | ESP8266WebServer/src/Parsing.cpp:553-582 | the spellings of one byte are itself, '+' for a blank, and '%' with its two digits, and no others |
| Arguments.SpellingsConcatenate | ESP8266WebServer/src/Parsing.cpp:553-582 | spellings put one behind the other spell the bytes put one behind the other |
| Arguments.DecodeShape | ESP8266WebServer/src/Parsing.cpp:553-582 | decoding never lengthens, shortens at most threefold, and leaves text without '%' and '+' unchanged |
| Arguments.HexDigits | ESP8266WebServer/src/Parsing.cpp:563-569 | the digits the decoder knows are the sixteen, in both cases, with their values, and no other byte |
| Arguments.HexPairIsStrtol | ESP8266WebServer/src/Parsing.cpp:563-569 | two bytes behind a '%' count as their longest start that is a hexadecimal number, as `strtol` reads them, and as 0 without one |
| Arguments.SplitterStep | ESP8266WebServer/src/Parsing.cpp:280-316 | one turn of the splitter's index arithmetic takes exactly the first '&'-segment and leaves the others |
| Arguments.ArgOfSegment | ESP8266WebServer/src/Parsing.cpp:281-303 | a segment is cut at its first '=', and only its value is decoded; one without '=' adds no argument |
| Arguments.ArgsOfBound | ESP8266WebServer/src/Parsing.cpp:263-317 | there are never more arguments than segments, for which the array is allocated |
| Arguments.ParseRoundTrip | ESP8266WebServer/src/Parsing.cpp:251-323 | parsing any encoding of any list of pairs, keys free of '&' and '=', returns the pairs |
| Strings.JoinSplit | ESP8266WebServer/src/Parsing.cpp:265-271 | splitting at a separator loses nothing and leaves no separator in a piece |
| Strings.SplitJoin | ESP8266WebServer/src/Parsing.cpp:265-271 | and there is only one such list of pieces |
| Arguments.FirstWithKey | ESP8266WebServer/src/ESP8266WebServer.cpp:374-404 | the first entry with the key, or -1 exactly when no entry has it |
| Arguments.LookupMeans | ESP8266WebServer/src/ESP8266WebServer.cpp:374-404 | `arg` gives the value of the first argument of that name, and "" if there is none; `hasArg` is true if and only if there is one |
| Arguments.SpelledIsFound | ESP8266WebServer/src/Parsing.cpp:251-323 | every pair of a spelled query whose key was not used before it is found by `arg` with its value, and nothing under any other name |
| FileScanner.ScanLossless | ESP8266WebServer/src/Parsing.cpp:449-521 | on a match the bytes consumed are the file, then CRLF "--" and the boundary, and nothing else; without one they are what was passed on and at most the start of a delimiter or of its block |
| FileScanner.FoundAtDelimiter | ESP8266WebServer/src/Parsing.cpp:449-521 | in plain bytes: what is found stands before a CRLF, two hyphens and the boundary |
| FileScanner.FoundStays | ESP8266WebServer/src/Parsing.cpp:449-521 | where the scanner stops does not depend on the bytes behind |
| FileScanner.CopyToCandidate | ESP8266WebServer/src/Parsing.cpp:450-477 | up to the first CRLF "--" the scanner passes everything on, whether or not the file has an end |
| FileScanner.ScanExact | ESP8266WebServer/src/Parsing.cpp:449-521 | the scanner returns exactly the file that was sent, and stops behind its delimiter, if and only if the file is clear |
| FileScanner.ClearIfCandidatesEarly | ESP8266WebServer/src/Parsing.cpp:479-517 | a file without delimiter in which every CRLF "--" ends at least a boundary's length before the file does is clear |
| FileScanner.NoReturnIsClear | ESP8266WebServer/src/Parsing.cpp:451-455 | a file without CR is clear |
| FileScanner.ScanOvershoots | ESP8266WebServer/src/Parsing.cpp:506-517 | a file without any delimiter on which the scanner misses the real one |
| FileScanner.ShortBlockMayPass | ESP8266WebServer/src/Parsing.cpp:479-482 | a stream that ends in a block of which the first bytes may pass for the boundary |
| Uploads.FlushOnFull | ESP8266WebServer/src/Parsing.cpp:325-333 | a block is handed over exactly when a byte comes to a full buffer |
| Uploads.ChunkingRefinesWriting | ESP8266WebServer/src/Parsing.cpp:434-488 | START, WRITE+, END; the WRITEs concatenate to the body, all but the last have 2048 bytes; totalSize counts the bytes handed over and is the length at END |
| Uploads.AbortMeans | ESP8266WebServer/src/Parsing.cpp:584-590 | the callbacks of a file whose sender left: START, WRITEs of 2048 bytes, and last ABORTED; their data together is what was passed on |
| Uploads.StoredName | websites.ino:630-637 | the last 30 characters of the name, with '/' in front unless they start with one |
| Uploads.UploadStoresBody | websites.ino:626-654 | when the file opens and all writes succeed, the callbacks of an upload store exactly its body under its name, close the file and touch no other |
| Uploads.UploadStoresAccepted | websites.ino:626-654 | whatever fails: after a failed open no file changes, and otherwise exactly the data of the successful writes is stored, in order; no other file is touched and the file ends closed |
| Uploads.AbortLeavesBlocks | websites.ino:626-654 | an aborted upload leaves exactly its full blocks under its name, and the file open |
| Uploads.UploadHandler.HandleFileUpload | websites.ino:626-654 | one callback does what the consumer function says, failed opens and writes included; other addresses do nothing |
| Multipart.ReadLineOf | ESP8266WebServer/src/Parsing.cpp:411-412 | a line that was sent with CRLF is read back, and the stream stands behind it |
| Multipart.PartsWithinArray | ESP8266WebServer/src/Parsing.cpp:363-434 | a form that is reported as parsed never used more than the 32 entries |
| Multipart.EmptyLineRefused | ESP8266WebServer/src/Parsing.cpp:353-362 | behind an empty line that ends with CRLF every form is refused |
| Multipart.BareReturnSkipped | ESP8266WebServer/src/Parsing.cpp:353-362 | a bare CR in front of a form is skipped |
| Multipart.ThreeReturnsRefused | ESP8266WebServer/src/Parsing.cpp:353-362 | a second one as well, but with three in front every form is refused |
| Multipart.OtherLineSkipped | ESP8266WebServer/src/Parsing.cpp:372-376 | between the parts a line that is no Content-Disposition header, or has no '=', is skipped |
| Multipart.UntilMeans | ESP8266WebServer/src/Parsing.cpp:411-412 | reading up to a byte splits the stream at its first occurrence, and takes all of it without one |
| Multipart.NameMeans | ESP8266WebServer/src/Parsing.cpp:381-390 | a file keeps the name it was sent with, unless that is "blob" and the query has an argument `filename`; then it gets the value of the first such argument |
| Multipart.MergeMeans | ESP8266WebServer/src/Parsing.cpp:528-543 | the arguments afterwards are the fields and then the arguments of the query, in order, up to 32 |
| MultipartRoundTrip.FoldIsJoin | ESP8266WebServer/src/Parsing.cpp:410-416 | the value is its lines joined by LF if and only if it has one line or its first is not empty |
| MultipartRoundTrip.EmptyLineForgotten | ESP8266WebServer/src/Parsing.cpp:414-415 | an empty line in front of a value is forgotten |
| MultipartRoundTrip.ValueRead | ESP8266WebServer/src/Parsing.cpp:410-416 | a field's value is read exactly up to its boundary line |
| MultipartRoundTrip.DispositionOf | ESP8266WebServer/src/Parsing.cpp:374-391 | name and filename of a rendered header come back, and a filename makes it a file |
| MultipartRoundTrip.TypeRead | ESP8266WebServer/src/Parsing.cpp:396-404 | the content type comes back, "text/plain" without one, and the stream stands at the content |
| MultipartRoundTrip.FieldIsSentAs | ESP8266WebServer/src/Parsing.cpp:362-416 | the rendered form with one field, byte for byte |
| MultipartRoundTrip.FileIsSentAs | ESP8266WebServer/src/Parsing.cpp:362-404 | the rendered form with one file, byte for byte |
| MultipartRoundTrip.PartsRoundTrip | ESP8266WebServer/src/Parsing.cpp:365-526 | the loop over any rendered parts returns fields and callbacks part for part, in order |
| MultipartRoundTrip.FormRoundTrip | ESP8266WebServer/src/Parsing.cpp:345-545 | rendering any non-empty list of parts with at most 32 fields and parsing it gives the fields in order and the callbacks of every file in order, and leaves later bytes unread |
| MultipartRoundTrip.FieldAt | ESP8266WebServer/src/Parsing.cpp:423-433 | every field comes back in its place with its name and value, and a file adds none |
| MultipartRoundTrip.FileAt | ESP8266WebServer/src/Parsing.cpp:434-448 | every file is uploaded in its place under the name, file name and type it was sent with, "text/plain" without one, unless it is a "blob"; a field, or a server without a handler for uploads, makes no callback |
| MultipartRoundTrip.FieldComesBack | ESP8266WebServer/src/Parsing.cpp:345-545 | the bytes of a form with one field of one line parse to exactly that field |
| MultipartRoundTrip.FileComesBack | ESP8266WebServer/src/Parsing.cpp:345-545 | the bytes of a form with one file make exactly its callbacks, under its name, file name and type |
| MultipartRoundTrip.TooManyFields | ESP8266WebServer/src/Parsing.cpp:363-423 | with one field more the parser stores past its array |
| MultipartRoundTrip.FormStoresFiles | ESP8266WebServer/src/Parsing.cpp:434-504 | end to end, the callbacks of a form store exactly its files |
| MultipartCut.CutLine | ESP8266WebServer/src/Parsing.cpp:411-412 | what is read of a line of which only the first bytes came |
| MultipartCut.CutDisposition | ESP8266WebServer/src/Parsing.cpp:374-391 | a header line of which only the first bytes came names a file if and only if its second '=' is among them |
| MultipartCut.CutValue | ESP8266WebServer/src/Parsing.cpp:410-416 | a value ends if and only if the whole boundary behind it came |
| MultipartCut.CutFile | ESP8266WebServer/src/Parsing.cpp:449-521 | a file that was sent has an end if and only if its whole delimiter came |
| MultipartCut.CutParts | ESP8266WebServer/src/Parsing.cpp:365-526 | for every prefix of any rendered parts: parsed as a whole, cut off in a file or waiting, with the callbacks of the complete files |
| MultipartCut.PrefixOfForm | ESP8266WebServer/src/Parsing.cpp:345-545 | every prefix of every rendered form is parsed if and only if at most the last CRLF is missing, refused if and only if it ends in the first boundary line, cut off if and only if it ends inside a file, and otherwise waited on for ever |
| Parsing.RequestParser.UrlDecode | ESP8266WebServer/src/Parsing.cpp:553-582 | the loop computes the decoder function |
| Parsing.RequestParser.CountArgs | ESP8266WebServer/src/Parsing.cpp:263-271 | the counting loop allocates one entry for every segment |
| Parsing.RequestParser.FillArgs | ESP8266WebServer/src/Parsing.cpp:277-317 | the splitting loop stays within its allocation and stores exactly the arguments of the string |
| Parsing.RequestParser.ParseArguments | ESP8266WebServer/src/Parsing.cpp:251-323 | afterwards the arguments are those of the query string, for the empty one too |
| Parsing.RequestParser.HasArgument | ESP8266WebServer/src/ESP8266WebServer.cpp:398-404 | true if and only if some argument has the name |
| Parsing.RequestParser.Argument | ESP8266WebServer/src/ESP8266WebServer.cpp:374-380 | the value of the first argument of that name, "" without one |
| Parsing.RequestParser.BeginUpload | ESP8266WebServer/src/Parsing.cpp:434-448 | one START callback, then an empty upload |
| Parsing.RequestParser.UploadWriteByte | ESP8266WebServer/src/Parsing.cpp:325-333 | keeps the buffer, totalSize, currentSize and callbacks those of all bytes written so far, with this one added |
| Parsing.RequestParser.EndUpload | ESP8266WebServer/src/Parsing.cpp:482-488 | afterwards the callbacks are exactly those of the whole file |
| Parsing.RequestParser.UploadAborted | ESP8266WebServer/src/Parsing.cpp:584-590 | afterwards the callbacks are START, the full blocks of what was passed on, and ABORTED |
| Parsing.RequestParser.CopyToCR | ESP8266WebServer/src/Parsing.cpp:451-455 | at `readfile` the bytes written, the lookahead byte and the unread bytes are the input; the copying ends before a CR, or when the peer left |
| Parsing.RequestParser.ReadBlock | ESP8266WebServer/src/Parsing.cpp:479-517 | the block behind a CRLF "--" either ends the file, with nothing more written, or is written and never looked at again, and then bytes written, lookahead and unread bytes are the input again |
| Parsing.RequestParser.ScanUpload | ESP8266WebServer/src/Parsing.cpp:449-521 | the byte loop writes exactly the file the scanner function finds, and stops behind its delimiter; without an end it writes what the scanner passes on, up to the last four bytes, or all of it and one short block |
| Parsing.RequestParser.ReadFormType | ESP8266WebServer/src/Parsing.cpp:396-404 | reads the optional type and the blank line |
| Parsing.RequestParser.ReadFormValue | ESP8266WebServer/src/Parsing.cpp:410-416 | the line loop computes the value function, or never ends when no boundary line comes |
| Parsing.RequestParser.ParseUpload | ESP8266WebServer/src/Parsing.cpp:434-504 | one file part: all its callbacks and whether it was the last part; or START, the full blocks of what was passed on, and ABORTED |
| Parsing.RequestParser.ParsePart | ESP8266WebServer/src/Parsing.cpp:372-524 | one turn of the loop deals with exactly one line or part, consumes at least one byte, and makes exactly its callbacks |
| Parsing.RequestParser.ReadFirstLine | ESP8266WebServer/src/Parsing.cpp:353-358 | the first reading up to CR that is not empty, at most the third |
| Parsing.RequestParser.MergeArguments | ESP8266WebServer/src/Parsing.cpp:528-543 | the fields come first, then the first min(32 - fields, count) query arguments |
| Parsing.RequestParser.ParseForm | ESP8266WebServer/src/Parsing.cpp:345-551 | arguments, callbacks, unread bytes and result are those of the form function, in every case: parsed, wrong first line, cut off in a file, no closing boundary, too many fields |
| Pbufs.PbufCat | ESP8266WiFi/src/include/UdpContext.h:332-338 | appends a chain to a chain, and every `tot_len` stays the bytes from its node to the end |
| Pbufs.CopyInto | ESP8266WiFi/src/include/UdpContext.h:251-252 | copying into one node overwrites exactly that stretch of the chain's bytes |
| Pbufs.DropHead | ESP8266WiFi/src/include/ClientContext.h:268-274 | without its head a chain holds the rest of its bytes |
| Pbufs.StartsAscend | ESP8266WiFi/src/include/UdpContext.h:244-245 | nodes lie one behind the other without overlap |
| Udp.UdpSender.Reserve | ESP8266WiFi/src/include/UdpContext.h:298-322 | keeps what is pending; when the chain grows its capacity is the least sufficient multiple of 128 |
| Udp.UdpSender.Append | ESP8266WiFi/src/include/UdpContext.h:233-258 | what is pending is what was pending, then the data; the capacity is enough and grows only when needed |
| Udp.UdpSender.CopyData | ESP8266WiFi/src/include/UdpContext.h:240-256 | the copy loop ends, never runs off the chain and keeps the offset inside the current node |
| Udp.UdpSender.Send | ESP8266WiFi/src/include/UdpContext.h:260-294 | one datagram with exactly what is pending goes to the given or the connected address with the right ttl; afterwards nothing is pending and the ttl is restored |
| Udp.Run | ESP8266WiFi/src/include/UdpContext.h:233-322 | every run of connects, appends and sends on the chain is a run of plain byte strings |
| Udp.AppendsThenSend | ESP8266WiFi/src/include/UdpContext.h:233-294 | sending after any appends emits exactly their concatenation |
| Udp.UdpReceiver.Recv | ESP8266WiFi/src/include/UdpContext.h:329-349 | a datagram waits behind those that came before and disturbs none of them |
| Udp.UdpReceiver.Next | ESP8266WiFi/src/include/UdpContext.h:168-189 | succeeds if and only if an arrived datagram was not yet taken, and makes the oldest such one current |
| Udp.UdpReceiver.ReadByte | ESP8266WiFi/src/include/UdpContext.h:191-199 | the next unread byte of the current datagram, or -1 exactly when there is none |
| Udp.UdpReceiver.Read | ESP8266WiFi/src/include/UdpContext.h:201-214 | min(size, unread) bytes in order and never a byte of the next datagram |
| Udp.UdpReceiver.Flush | ESP8266WiFi/src/include/UdpContext.h:224-230 | drops the rest of the current datagram and nothing else |
| UdpInbox.InOrder | ESP8266WiFi/src/include/UdpContext.h:168-214 | on every run the k-th successful `next` makes datagram k current, reads go through the datagrams in order, and reads of one datagram never leave it |
| UdpInbox.Run | ESP8266WiFi/src/include/UdpContext.h:168-349 | every run of the receive chain, arrivals interleaved anyhow, is a run of the plain inbox |
| Tcp.ClientContext.GetSize | ESP8266WiFi/src/include/ClientContext.h:147-151 | the number of unread bytes |
| Tcp.ClientContext.Recv | ESP8266WiFi/src/include/ClientContext.h:290-300 | new bytes come behind the unread ones |
| Tcp.ClientContext.ConsumeBytes | ESP8266WiFi/src/include/ClientContext.h:257-276 | exactly `size` unread bytes become delivered, and credit plus chain still add up to what was received |
| Tcp.ClientContext.ReadByte | ESP8266WiFi/src/include/ClientContext.h:153-159 | the first unread byte, 0 without one |
| Tcp.ClientContext.Read | ESP8266WiFi/src/include/ClientContext.h:161-180 | min(size, unread) bytes in order across as many buffers as needed |
| Tcp.ClientContext.Peek | ESP8266WiFi/src/include/ClientContext.h:182-186 | the first unread byte, consuming nothing |
| Tcp.ClientContext.PeekBytes | ESP8266WiFi/src/include/ClientContext.h:188-200 | a prefix of the unread bytes, no longer than the first buffer |
| Tcp.ClientContext.Flush | ESP8266WiFi/src/include/ClientContext.h:202-212 | all unread bytes count as delivered, and while connected everything received is credited |
| Tcp.ClientContext.Unref | ESP8266WiFi/src/include/ClientContext.h:98-110 | freed exactly when the count reaches zero, after flushing and closing |
| Tcp.Run | ESP8266WiFi/src/include/ClientContext.h:147-301 | under any interleaving of arrivals, reads, flushes and the peer's close the chain behaves as a plain byte stream; everything that arrived while open is delivered or unread, in order, and while connected credited or in the chain |
| Tcp.ReadsAreArrivals | ESP8266WiFi/src/include/ClientContext.h:147-212 | without flushes the results of the reads, then the unread bytes, are what arrived |
| Handles.CountZero | ESP8266WiFi/src/WiFiClient.cpp:62-67 | a context's owner count is zero exactly when no handle owns it |
| Handles.Registry.NoDangling | ESP8266WiFi/src/WiFiClient.cpp:50-85 | under the invariant no handle points to a freed context |
| Handles.Registry.Add | ESP8266WiFi/src/include/slist.h:11-15 | the list is the new handle, then the others |
| Handles.Registry.Remove | ESP8266WiFi/src/include/slist.h:17-31 | the list loses exactly this handle and keeps its order |
| Handles.Registry.Stop | ESP8266WiFi/src/WiFiClient.cpp:268-275 | keeps the invariant; this handle alone loses its context |
| Handles.Registry.Construct | ESP8266WiFi/src/WiFiClient.cpp:50-54 | keeps the invariant with one more, empty handle |
| Handles.Registry.Claim | ESP8266WiFi/src/WiFiClient.cpp:56-60 | keeps the invariant; the new handle is the context's only owner |
| Handles.Registry.Copy | ESP8266WiFi/src/WiFiClient.cpp:69-75 | keeps the invariant; the new handle shares the context |
| Handles.Registry.Assign | ESP8266WiFi/src/WiFiClient.cpp:77-85 | keeps the invariant if and only if it is not the self-assignment of a context's only handle; then the handle dangles |
| Handles.Registry.Destroy | ESP8266WiFi/src/WiFiClient.cpp:62-67 | keeps the invariant; the list and the owners lose exactly this handle |
| Handles.Registry.AssignEmpty | ESP8266WebServer/src/ESP8266WebServer.cpp:175 | assigning a temporary empty handle keeps the invariant and leaves the list as it was |
| Handles.Registry.Connect | ESP8266WiFi/src/WiFiClient.cpp:98-134 | keeps the invariant; succeeds exactly when there is a route and the peer answers, and then owns a new context alone |
| Handles.Registry.Connected | ESP8266WiFi/src/WiFiClient.cpp:136-143 | the handle becomes the only owner of a new context |
| Handles.Registry.StopAll | ESP8266WiFi/src/WiFiClient.cpp:339-344 | every handle stays listed and owns nothing, and every context is freed |
| Handles.Registry.StopAllExcept | ESP8266WiFi/src/WiFiClient.cpp:347-354 | the same, but one handle keeps its context |
| HandleRuns.CountIsShares | ESP8266WiFi/src/include/ClientContext.h:93-110 | counting owners on the heap is counting them in plain ownership |
| HandleRuns.Run | ESP8266WiFi/src/WiFiClient.cpp:50-354 | over every run of construct, claim, copy, assign (never the only handle to itself), connect, stop, destroy and stopAll the list holds exactly the live handles, every context, all of them different objects, counts its handles and is freed exactly without any, and no handle dangles |
| WebServers.WiFiServer.AppendTail | ESP8266WiFi/src/WiFiServer.cpp:140-149 | the queue is what it was, then the new connection |
| WebServers.WiFiServer.Accept | ESP8266WiFi/src/WiFiServer.cpp:151-157 | a new connection waits last, owned by nobody |
| WebServers.WiFiServer.Available | ESP8266WiFi/src/WiFiServer.cpp:99-110 | the connection that waited longest, with this handle as its only owner, or an empty handle exactly when none waits |
| WebServers.WebServer.HandleClient | ESP8266WebServer/src/ESP8266WebServer.cpp:158-220 | one call on the linked queue and the reference-counted handles is one step of the state machine, and handles, counts and queue stay in order |
| WebServers.Run | ESP8266WebServer/src/ESP8266WebServer.cpp:158-220 | every run of accepted connections and calls on the linked queue and the reference-counted handles is a run of the state machine |
| Serving.CallKeeps | ESP8266WebServer/src/ESP8266WebServer.cpp:158-220 | every call keeps the invariant, whatever it finds |
| Serving.ServedInOrder | ESP8266WebServer/src/ESP8266WebServer.cpp:158-220 | on every run HC_NONE holds exactly when no client is held; connections are served one at a time in accept order, each parsed at most once and dispatched at most once, after parsing |
| Serving.CallTakesOldest | ESP8266WebServer/src/ESP8266WebServer.cpp:159-172 | an idle server takes the connection that waited longest |
| Serving.TakenIsServed | ESP8266WebServer/src/ESP8266WebServer.cpp:159-172 | a client that is taken is served in the same call, and an idle server with an empty queue does nothing |
| Serving.GoneIsReleased | ESP8266WebServer/src/ESP8266WebServer.cpp:174-178 | a held client that is gone is released by the next call, in either phase, and neither parsed nor dispatched |
| Serving.RequestIsServed | ESP8266WebServer/src/ESP8266WebServer.cpp:191-208 | a request that has come is parsed once, and dispatched if and only if that succeeds; the client is released if the request was bad or it has gone, and waited for otherwise |
| Serving.ReadTimeout | ESP8266WebServer/src/ESP8266WebServer.cpp:159-189 | a client that sends nothing is held, in any run of calls and new connections, up to 1000 ms after it was taken, and released by the first later call, across counter wraps; ESP8266WebServer.h:37 |
| Serving.CloseTimeout | ESP8266WebServer/src/ESP8266WebServer.cpp:191-219 | a client that was answered and does not close is held up to 2000 ms after the answer, and released by the first later call; ESP8266WebServer.h:39 |
| Calendar.YearStartClosed | Time/Time.cpp:168-170 | the year loop's sum of year lengths in closed form |
| Calendar.SecondsArePosix | Time/Time.cpp:204-233 | makeTime's sum is the formula of section 4.16 of the Base Definitions of IEEE Std 1003.1-2017 for every valid date |
| Calendar.MonthsOutside | Time/Time.cpp:219-226 | month 0 counts as January of its year, and month 13 as January of the next |
| Calendar.SecondsMonotone | Time/Time.cpp:204-233 | it is strictly monotone in the lexicographic order of the fields |
| Calendar.SecondsInjective | Time/Time.cpp:204-233 | so different dates have different times |
| Calendar.Break | Time/Time.cpp:151-202 | for every 32-bit time the fields are a valid date with exactly that many seconds, and the weekday follows from the day number |
| Calendar.RoundTrips | Time/Time.cpp:147-233 | makeTime(breakTime(t)) = t for every 32-bit t, and breakTime(makeTime(e)) returns the fields of every valid date in range |
| Calendar.BreakTime | Time/Time.cpp:151-202 | divisions and both loops compute these fields |
| Calendar.FindYear | Time/Time.cpp:168-174 | the year loop ends in the year that holds the day, within 8 bits |
| Calendar.FindMonth | Time/Time.cpp:180-199 | the month loop ends in the month that holds the day |
| Calendar.MakeTime | Time/Time.cpp:204-233 | the accumulation, wrapped at every addition, is the sum wrapped once |
| SummerTime.FormulaWeekdays | functions.ino:255 | the two remainders of the formula are the weekdays of 31 March and 31 October, off by one for each leap day that 2100 and 2200 lack |
| SummerTime.LastSundayUnique | functions.ino:255 | March and October have exactly one last Sunday |
| SummerTime.AgreesWithCalendar | functions.ino:248-259 | up to 2099 the formula is true exactly from 02:00 on the last Sunday of March up to 02:00 on the last Sunday of October: Articles 2 and 3 of Directive 2000/84/EC |
| SummerTime.SwitchExists | functions.ino:248-259 | every March and October of the 32-bit years up to 2105 has exactly one switch moment, 02:00 on a Sunday after the 24th |
| SummerTime.AgreesForTimestamps | functions.ino:248-259 | the same for every 32-bit time up to 2099, with breakTime's fields and its weekday 1 as Sunday |
| SummerTime.DisagreesFrom2100 | functions.ino:248-259 | in every later year the fields can hold there is a moment on which it is wrong |
| SummerTime.AgreesExactlyUntil2099 | functions.ino:248-259 | so they agree on a whole year if and only if it is at most 2099 |
| Clocks.AdvanceExact | Time/Time.cpp:252-259 | the difference of two counter values counts the seconds that passed if and only if that was less than 2^32 ms |
| Clocks.DriftFree | Time/Time.cpp:250-259 | over any number of calls and counter wraps, each call less than 2^32 ms after the moment up to which the clock has counted, the clock advances by exactly the whole seconds since its mark, and what is not yet counted is less than a second |
| Clocks.DriftFreeExactly | Time/Time.cpp:250-259 | and the clock is right at every call if and only if the calls are spaced so |
| Clocks.LateCallLoses | Time/Time.cpp:252-259 | a call that comes later shows a wrong time |
| Clocks.GapAloneIsNotEnough | Time/Time.cpp:252-259 | two calls less than 2^32 ms apart that lose 2^32 ms |
| Clocks.QuietCallsCount | Time/Time.cpp:250-272 | calls of now() that find no synchronization due do nothing else |
| Clocks.WhatACallDoes | Time/Time.cpp:250-272 | a call asks if and only if there is a provider and the due second has come; an answer is the time from the moment it comes, a failure changes nothing but the status, and both make the next attempt due one interval later |
| Clocks.SynchronizedTime | Time/Time.cpp:260-284 | after a call that synchronized, every call up to the next due second shows the provider's time and the whole seconds since it came |
| Clocks.FailedSyncKeepsCounting | Time/Time.cpp:266-269 | after one that failed, the whole seconds since the old mark, as if nothing had been asked |
| Clocks.NoProviderNoAttempt | Time/Time.cpp:313-317 | once the provider is taken away, no call attempts anything and the clock only counts |
| Clocks.LoopIsOneReading | Time/Time.cpp:252-259 | however the counter moves during the loop, it counts what a single reading at its end gives |
| Clocks.StatusTellsHistory | Time/Time.cpp:250-321 | on every run the status is timeNotSet exactly when nothing set the time, and otherwise timeSet exactly when the latest of set and failed synchronization was a set |
| Clocks.NextAttemptDue | Time/Time.cpp:250-272 | in any run of calls after an attempt, calls less than syncInterval seconds later attempt nothing, and the first call at or after that is the next attempt |
| Clocks.AccessorsAreRight | Time/Time.cpp:42-47 | over every run an accessor is right for every time but the cached one, and for that one if and only if a time was broken down and no later six-argument setTime wrote other fields |
| Clocks.NoDateAtStart | Time/Time.cpp:38-47 | before the first break, month(0) is 0 |
| Clocks.SystemClock.Now | Time/Time.cpp:250-272 | counting second by second, with a new reading of the counter every turn, then synchronizing when due, is the step function |
| Clocks.SystemClock.CountSeconds | Time/Time.cpp:252-259 | the loop with its readings computes the counting function |
| Clocks.SetCountsFromThere | Time/Time.cpp:274-284 | a clock that was set shows at every call, until the next synchronization is due, the time it was set to and the whole seconds since |
| Clocks.SystemClock.SetTimeFields | Time/Time.cpp:286-301 | sets the time that the fields make, and leaves them in the cache beside a cached time they do not belong to |
| Clocks.AdjustIsKept | Time/Time.cpp:303-305 | an adjusted clock is ahead by exactly the adjustment at every call until the next synchronization is due |
| Clocks.NewProviderAsked | Time/Time.cpp:313-317 | a new provider is asked at once if and only if the seconds still to be counted do not wrap the clock |
| Clocks.NewIntervalHolds | Time/Time.cpp:319-322 | a new interval counts from the moment it is set: no attempt before, and one at the first call at or after its end |
| Clocks.SystemClock.RefreshCache | Time/Time.cpp:42-47 | one step of the cache |
| Clocks.SystemClock.Hour | Time/Time.cpp:53-56 | the hour of the day when the cache is accurate |
| Clocks.SystemClock.HourFormat12 | Time/Time.cpp:62-70 | 1 to 12, and congruent to the hour of the day |
| Clocks.SystemClock.Year | Time/Time.cpp:136-139 | the year whose days hold the time |
| Eeproms.BufferSize | EEPROM/EEPROM.cpp:42-47 | the least number of whole words that holds the wanted size, at most a sector |
| Eeproms.Do | EEPROM/EEPROM.cpp:41-117 | every call, and every failure of the flash, keeps: not dirty and open means that the buffer equals the flash |
| Eeproms.DoAll | EEPROM/EEPROM.cpp:41-117 | so it holds in every reachable state |
| Eeproms.HarmlessKeeps | EEPROM/EEPROM.h:41-58 | stored bytes stay through every call that writes elsewhere or drops the buffer after a successful commit |
| Eeproms.RunKeeps | EEPROM/EEPROM.h:41-58 | and so over every run of such calls |
| Eeproms.GetsLastPut | EEPROM/EEPROM.h:41-58 | every `get` returns the last `put` to bytes not overwritten since, over commits, failures, ends, restarts and new sessions |
| Eeproms.CommittedSurvives | EEPROM/EEPROM.cpp:98-117 | after a successful commit and a restart, a session of the same size finds the whole buffer |
| Eeproms.CommitErasesBehindBuffer | EEPROM/EEPROM.cpp:108-109 | a commit that writes leaves 0xFF behind the buffer |
| Eeproms.WritesStayInBuffer | EEPROM/EEPROM.cpp:83-96 | no number of writes and puts reaches the flash without a commit |
| Eeproms.RebootUndoesWrites | EEPROM/EEPROM.cpp:33-59 | after writes without a commit a restart finds the buffer as it was when it was last clean, so exactly those bytes that were there before |
| Eeproms.Eeprom.BeginSession | EEPROM/EEPROM.cpp:41-59 | loads the buffer from flash, except for size 0, and keeps the dirty flag |
| Eeproms.Eeprom.Read | EEPROM/EEPROM.cpp:74-81 | the byte, 0 outside the buffer |
| Eeproms.Eeprom.WriteByte | EEPROM/EEPROM.cpp:83-96 | stores in range, and is dirty only after a change |
| Eeproms.Eeprom.GetValue | EEPROM/EEPROM.h:41-48 | the stored bytes, or the caller's own outside the buffer |
| Eeproms.Eeprom.PutValue | EEPROM/EEPROM.h:50-58 | overwrites exactly its bytes, or nothing outside the buffer |
| Eeproms.Eeprom.CommitBuffer | EEPROM/EEPROM.cpp:98-117 | true exactly when the session is open and clean or both flash operations succeed; only success clears the dirty flag |
| Eeproms.Eeprom.EndSession | EEPROM/EEPROM.cpp:61-71 | commits and closes |
| Eeproms.BeginMeans | EEPROM/EEPROM.cpp:41-59 | a session starts with the first bytes of the flash; size 0 starts none |
| Eeproms.WriteMeans | EEPROM/EEPROM.cpp:83-96 | a write changes its byte only, none outside the buffer, and makes it dirty if and only if the byte was another |
| Eeproms.PutMeans | EEPROM/EEPROM.h:50-58 | a put that fits changes exactly its bytes and makes the buffer dirty; any other does nothing |
| Eeproms.GetMeans | EEPROM/EEPROM.h:41-48 | a get that fits reads exactly its bytes; any other leaves the caller's value |
| Eeproms.CommitMeans | EEPROM/EEPROM.cpp:61-117 | a commit succeeds if and only if the session is open and clean afterwards; ending does the same to the flash and closes |
| Eeproms.RestartIsClean | EEPROM/EEPROM.cpp:33-59 | a restart keeps the flash only; the session begun after it is clean, and a commit before any write succeeds without touching the flash |
| DayTables.SlotsTile | functions.ino:113-117 | every byte of 0..1487 belongs to the word of exactly one day, and no word reaches further |
| DayTables.SlotsDisjoint | functions.ino:113-117 | different days have disjoint words |
| DayTables.Bytes | functions.ino:78-81 | a word read back is the word stored |
| DayTables.LittleEndian | functions.ino:78-81 | the word in plain bytes, the least significant first |
| DayTables.StoreChangesOneSlot | functions.ino:75-85 | storing a day changes its word and nothing else, whether or not the commit succeeds |
| DayTables.LaterStoreMakesUp | functions.ino:79-84 | one successful commit makes up for all failed ones before it |
| DayTables.FailedStoreIsNotRetried | functions.ino:79-84 | storing the same value again does nothing, even after a failed commit |
| DayTables.DeleteClearsTable | functions.ino:182-197 | afterwards every day is 0 and bytes from 1491 on are unchanged; `end` repeats a failed commit |
| DayTables.StoreFlash | functions.ino:75-85 | storing a day writes to the flash exactly when the stored word is another: then the flash holds the whole table, or what the failed write left |
| DayRuns.StepRefines | functions.ino:75-102 | each change on the bytes is the change on the plain tables |
| DayRuns.RunRefines | functions.ino:75-102 | so every run of changed, cleared and saved days and of stored settings is a run of the plain tables, whatever fails |
| DayRuns.EndsClean | functions.ino:79-84 | the buffer waits for nothing at the end if and only if the last change that touched it wrote it successfully, or nothing touched it since a clean start |
| DayRuns.RestartFinds | setup.ino:173-199 | what a restart finds after any run: everything stored if the last write to the flash succeeded, what it left if it failed, the start if there was none |
| DayRuns.TableIsRestored | setup.ino:173-199 | after any run a restart finds the table in memory if and only if the last write succeeded, or there was none, and every unsaved day is stored with its value anyway, or it failed and left just that table |
| DayRuns.SavedRunIsRestored | setup.ino:173-199 | so a run that leaves no day unsaved is restored if and only if the last write succeeded, or there was none, or it failed and left just that table |
| DayRuns.SavedIsMemory | functions.ino:75-85 | after any run every day that was saved since it was last changed is stored as it is in memory |
| DayRuns.UnsavedMeans | functions.ino:75-85 | a day is unsaved if and only if some change of it has no save of it behind |
| DayRuns.MidnightSaves | loop.ino:46-49 | the saves at midnight, today first and then yesterday, leave neither day unsaved |
| DayRuns.DayIsLost | functions.ino:79-84 | a changed day whose only write fails without effect is found by a restart as it was before |
| DayRuns.UnsavedDayReturns | setup.ino:173-199 | a day that a run never saves is found by a restart as it was, whatever is saved besides, unless the last write failed |
| DayRuns.ClearedMonthReturns | loop.ino:60-65 | in any run after a month was cleared in memory, a day of it that is neither set nor saved again is found by a restart as it was, and so as in memory if and only if it was 0 |
| DayRuns.ChangesAfterDeleteAreLost | functions.ino:182-197 | after a delete no saved day and no setting reaches the flash until a new session begins |
| DayTables.Sketch.PutEeprom | functions.ino:75-85 | does what the store function says, with an unset local outside a session |
| DayTables.Sketch.DeleteEeprom | functions.ino:182-197 | the loop of overlapping words clears bytes 0..1490, then commits and ends |
| DayTables.Sketch.SetupEeprom | setup.ino:173-199 | fills the table from the EEPROM; the year value grows by the sum of all days, the month value by that of the noted month, and the day value is today's |

## Left out

- lwIP, the SDK, SPI flash, SPIFFS, interrupts and delays appear only as small contracts: `pbuf_cat` appends and keeps `tot_len`, allocation gives one node of the asked size and never fails, a flash operation succeeds or leaves the sector in any state.
- `pbuf_ref` and `pbuf_free` counts: a buffer is dropped from the chain, its own count is not modelled.
- Udp.UdpSender.Reserve: sizes above 65408, the largest multiple of 128 that the 16-bit `tot_len` can count, are excluded; the code does not check this.
- Udp.UdpSender.Append: pending data above 65408 bytes is excluded for the same reason.
- Udp.Run: runs whose pending data passes 65408 bytes are excluded for the same reason.
- Transmit and receive half of one UDP endpoint are separate classes, since they share no field.
- Parsing.RequestParser.ParseForm: a loop that waits for bytes which never come is the outcome `NeverReturns`, and a 33rd field the outcome `PastArray`; what memory holds afterwards is not modelled.
- The block compared with the boundary is taken as exactly the boundary's length; bytes behind the array that `strstr` might see, and NUL bytes inside strings, are not modelled.
- `readStringUntil` is modelled without its timeout: it returns what is left when the stream ends.
- `_parseRequest`, request handlers and responses: a call of `handleClient` finds their verdicts as inputs, and they do not copy or stop the held client.
- Uploads.UploadStoresBody: a write that stores only part of its bytes is not modelled; `FileAborted` leaves the file open, as the code does.
- `ClientContext::write` and its acknowledgements, `WiFiClientSecure`, `WiFiUDP`'s own reference counts and the TCP close failure path.
- Clocks.SystemClock.Now: the counting loop is given the readings of all its turns, the last of which ends it; a loop that never catches up with the counter is not modelled.
- Calendar.MakeTime: a month above 13 reads past the table of month lengths, which the code does not check, and is excluded.
- Clocks.SystemClock.SetTimeFields: a month above 13 is excluded for the same reason.
- Clocks.NextAttemptDue: neither the due time nor the clock wraps at 2^32 seconds, and no interval change, provider change or adjustment comes between.
- SummerTime.AgreesForTimestamps: 32-bit times end in 2106, and the claim stops with the last year in which it is true.
- The accessors `minute`, `second`, `day`, `weekday`, `month`, `isAM` and `isPM` go through the same cache and would add nothing.
- `getDataPtr` hands out the buffer itself; a state reached through such a pointer is not covered by the EEPROM invariant.
- `spi_flash_read` always succeeds in the model.
- DayRuns.RunRefines: settings are stored as bytes behind the table; their meaning and the web pages that change them are not modelled.
- DayTables.Sketch.SetupEeprom: the three sums are integers, where the sketch adds into floats; `month()` and `day()` do not change during the loop; the settings behind the table are not restored.
- The settings words above the table overlap at 1514..1515 in the sketch's own layout; nothing is claimed about them.
- Yield totals in `loop.ino` and `FuenfMinutenTimer`, web pages, JSON, logging, FHEM sending, WiFi station and access-point wrappers, `EasyNTPClient`: no deep property.
