# go-mitm: a verified model

go-mitm is an intercepting HTTP proxy with a web page that shows what it captured. This project models
the parts of it that hold state, interleave, or print text that somebody has to read back, and proves what
they do and where they fall short. Goroutines are program counters, channels are bounded queues and a run is
any list of atomic steps; buffers and pools live on the heap; every printer has a reader for what it prints.

- **Capture and feed.** `SseStream`, `SseScanner`, `SseRelay` and `SseTee` follow the event-stream relay from
  bytes to the client and the capture channel; `WebSocketRelay` has the two message pumps; `EventFeed` has the
  event loops that share one channel and one id counter, and `FeedRuns` what their runs do, read off the steps
  alone; `UiTable` is the table in the page.
- **Printers.** `HexDump` (over `Unicode`) and the request converters `JsFetch`, `PhpGuzzle`, `PhpCurl`,
  `CurlCommand` and `GoClient`. `Literals` and `JsLiterals` hold the quoting rules of the target languages,
  `PhpArrays` and `Reading` what the readers share.
- **Shared state.** `ProxyLatch`, `GzipResponse`, `CertCache` and its runs in `CertRuns` (over `Ticket`, the
  add-then-load numbering it has in common with the feed).
- **Small pieces.** `SocksDial` and `RuleText` (over `Strings`).

`dafny verify dfyconfig.toml` checks everything.

## What the proofs found

Where an ideal statement is false of the code, the exact condition is proved and a concrete case is given.

- Re-framing an event stream keeps its lines iff the stream has no CR CR LF and does not end in CR CR
  (`SameLinesIffClean`). What is lost is exactly the blank line behind each raw line ending in CR CR
  (`LinesOfRelayed`), and with it possibly an event (`LostEventWitness`). No cut of the stream and no clean
  continuation shows a different event iff each of them falls where neither data nor an event type is pending
  (`SameEventsIffLossHarmless`).
- When upstream fails, or a line is too long, the frame written last does not only add an event of type error: it
  takes in whatever data was pending, so a half-received event goes out under the wrong type with "Connection
  closed" behind it (`RelayedThenFrame`, `SwallowedWitness`, `RelayedMeaning`, `TooLongMeaning`).
- The line feed appended inside the scanner's buffer never damages anything still to be read. A slice queued for
  capture is good as long as no later move, read or append meets its region, and always for streams in which every
  line but the first begins in the first 2048 bytes and ends within 4096 (`Relay`). One turn of the scanner leaves
  it as it was iff each of its bytes equals what is put there (`WindowThroughTurn`); for two lines that comes to an
  exact condition on their lengths and on what was buffered (`TwoLines`). At the program's own limit a queued line
  comes to read as a later one (`MoveSpoils`), and the append alone can spoil one that no move or read touches
  (`AppendSpoils`).
- Nobody drains the capture channels of event streams and WebSockets, so a captured stream stops for good
  after 1025 lines and a captured WebSocket direction after 1024 messages (`StallsAtCapacity`, with the bounds
  reached in `BoundReached` and `CapacityReached`).
- Message ids and certificate serials are drawn by an add followed by a separate load. They are shared iff no
  other add falls between the two loads (`SharedIdIffNoAddBetween`, `SharedSerialIffNoAddBetween`, with
  witnesses).
- A message taken by an event loop whose client can no longer be written to is lost; every other HTTP message a loop
  takes is sent or still held (`HttpAccounted`). Once recording is off for good a loop takes at most one more message
  (`OffForGood`).
- A configured upstream proxy is picked up only after some call has seen none configured: a proxy given on the
  command line is ignored in favour of the environment's, and changing from one proxy to another has no effect
  (`StartupProxyIgnored`, `SecondProxyIgnoredWitness`, `ConfiguredInUseIff`).
- The slice that `withGZIP` returns lives in a buffer that is already back in the pool; another response that
  takes that buffer before the body is read lays its chunks over it, as far as they fit
  (`SameBufferCall`, `FirstReadsSecond`, `LargerOutputSpoils`). A body hooked to nothing keeps the upstream
  Content-Length (`LengthAgreesIff`).
- A SOCKS5 dial can send on a closed channel, exactly in the runs where the caller left on the context and
  closed the channel before the goroutine's offer (`PanicIffOfferAfterClose`, `PanicNeedsContextExit`). Until the
  goroutine has sent or skipped, that can always still happen (`MayPanicIff`).
- A rule entered in the replace dialog works only by accident: iff its pattern has no comma and its replacement
  starts with one, or its pattern holds a scheme word right behind its first comma (`ReplaceTakesCaseIff`).
  Without commas the server sees two fields and answers nothing, and a replacement of white space only indexes a
  missing field (`ReplaceNeverTakesCase`, `WhiteSpacePanicWitness`).
- The curl command prints the method without quotes, so a method with a bar, an ampersand, a single quote or a back
  quote, which HTTP allows, breaks it (`CurlExact`, `PipeMethodBreaks`); with a dollar sign, an asterisk or a tilde
  in front it depends on the variables and files there are. The fetch converter prints a stray brace for a body
  that is no string (`StrayBraceNeverReads`).
- Escaping with backslashes never makes a quote survive in shell single quotes, nor a back quote in Go raw
  strings; in PHP and JavaScript it does, but backslashes in the value itself are not protected (`ShellExact`,
  `CurlExact`, `GoRawExact`, `PhpExact`, `JsExact`).

## Model

| member | source | states |
|---|---|---|
| SseStream.SameLinesIffClean | proxy/proxy_sse.go:115-132 | the relayed stream has the lines of the original, its unfinished last line completed, iff the original has no CR CR LF and does not end in CR CR |
| SseStream.RelayKeepsEvents | proxy/proxy_sse.go:115-132 | a clean stream, byte order mark or not, dispatches the same events with the same types, data and ids after relaying (sections 9.2.5 and 9.2.6 of the WHATWG HTML standard); if it ends at a line end the client's whole state agrees |
| SseStream.LinesOfRelayed | proxy/proxy_sse.go:116-121 | whatever the stream, the sent lines are the original ones, the last one completed, without exactly the blank lines behind raw lines ending in CR CR; both are given raw line by raw line |
| SseStream.BlankHarmlessIff | proxy/proxy_sse.go:116-121 | a blank line makes no difference to the events, whatever lines follow, iff neither data nor an event type other than the default is pending |
| SseStream.HarmlessKeepsEvents | proxy/proxy_sse.go:115-132 | with any number of lost blank lines, the events are the same if each was harmless where it fell |
| SseStream.SameEventsIffLossHarmless | proxy/proxy_sse.go:115-132 | for a stream up to its last line feed: no cut at a line feed and no clean continuation of a cut shows a different event iff every lost blank line is harmless where it falls |
| SseStream.CrCrLfAddsBlank | proxy/proxy_sse.go:118-121 | a client sees a blank line in CR CR LF and none in what the relay sends for it |
| SseStream.LostEventWitness | proxy/proxy_sse.go:116-124 | a concrete stream whose only event is lost |
| SseScanner.AppendNewline | proxy/proxy_sse.go:120-121 | append writes into the same array when there is room, touching one byte, and copies otherwise |
| SseScanner.Scanner.CutLine | proxy/proxy_sse.go:115-118 | the token is the next line without its CR, and the byte behind it is this line's own CR or LF |
| SseScanner.Scanner.TakeToken | proxy/proxy_sse.go:115-118 | a token is yielded iff a line feed is buffered or the input is over with bytes left |
| SseScanner.Scanner.ReadMore | proxy/proxy_sse.go:115-116 | reading keeps the unread stream, moves it exactly when the array is full or more than half consumed, fails only on a line at the limit, and leaves the old array exactly as the move and the read make it |
| SseScanner.Scanner.Await | proxy/proxy_sse.go:115-116 | over all the reads of one call: at most one move within the old array, whose bytes are exactly the old ones with the moved and read ones over them |
| SseScanner.Scanner.Scan | proxy/proxy_sse.go:115-118 | yields the next line of the remaining stream, shorter than the limit, or reports why not; says when a move and a larger array are needed, and exactly which bytes of the array it started with were overwritten and with what |
| SseRelay.NextLine | proxy/proxy_sse.go:116-121 | after the append in place, the stream still to be scanned is exactly what followed the line; the old array is exactly known, append included |
| SseRelay.TurnSurvivesIff | proxy/proxy_sse.go:115-121 | a window into the array comes out of a move, reads and an append as it was iff each of its bytes equals what is put there |
| SseRelay.WindowThroughTurn | proxy/proxy_sse.go:115-121 | the same for the scanner itself: the exact condition for any earlier slice to survive one turn |
| SseRelay.LoggedLine | proxy/proxy_sse.go:116-121 | every byte a turn overwrites is in the three regions it logs, or is the CR or LF of the line just scanned |
| SseRelay.Advance | proxy/proxy_sse.go:116-121 | every slice queued before still reads its line as long as no region overwritten since it was queued meets its own |
| SseRelay.Turn | proxy/proxy_sse.go:116-132 | one scan, append, write and queue: a line is written and queued, with what is left still making up the relayed stream, or the loop ends: at the end of scanning with all of its lines, or at the first write beyond those the client takes |
| SseRelay.Put | proxy/proxy_sse.go:122-131 | while the client takes writes the line is written and queued; the first write it does not take ends the loop |
| SseRelay.Relay | proxy/proxy_sse.go:114-139 | a client that takes a given number of writes is sent exactly the first of them of all there are: the re-framed lines up to the first that is too long and, after any end but that of the stream, the error frame; a write fails iff there are more. Every queued slice reads the line written for it as long as nothing overwritten later meets its region, and always if every line but the first begins in the first half of the first array and ends within it |
| SseStream.RelayedThenFrame | proxy/proxy_sse.go:134-138 | after a clean stream the frame adds one event of type error to the stream's own; its data is the pending data, the unfinished last line included, and "Connection closed", and only the latter iff nothing was pending |
| SseStream.FrameText | proxy/proxy_sse.go:136 | the frame, byte for byte |
| SseStream.SwallowedWitness | proxy/proxy_sse.go:134-138 | any data line before a failure goes out under the type error, in front of the frame's own text |
| SseRelay.SentMeaning | proxy/proxy_sse.go:114-138 | for every stream and every end of scanning: the events of the lines relayed and, after a failure, the one more; for clean streams these are the stream's own, up to the line that was too long if there was one |
| SseRelay.RelayedMeaning | proxy/proxy_sse.go:114-138 | end to end on the heap: of a clean stream within the line limit a client that takes more writes than the stream has bytes gets the same events, followed, iff upstream failed, by the error event with what was pending; one that takes fewer gets exactly the first of the writes, and a write fails iff there are more |
| SseRelay.TooLongMeaning | proxy/proxy_sse.go:114-138 | end to end with a line that is too long: the events before that line, which are the first of the stream's own, and the error event; a client that takes too few writes for that gets exactly the first of them |
| SseRelay.ShortStaysPut | proxy/proxy_sse.go:114-131 | a stream of at most 2048 bytes keeps every queued slice good, whatever the reads |
| SseRelay.TwoLines | proxy/proxy_sse.go:114-131 | at the program's limit, for any two lines that fit the first array: after the second scan the first queued slice reads what was written iff the lines are equal, or the second was buffered with the first, or it begins in the first half of the array and ends within it |
| SseRelay.MoveSpoils | proxy/proxy_sse.go:114-131 | at the program's limit and for any sizes of the reads: of two lines of 4094 bytes the one queued first later reads as the second |
| SseRelay.AppendSpoils | proxy/proxy_sse.go:120-131 | at the program's limit and for any sizes of the reads: the append behind an unfinished last line writes into an earlier queued line that no move or read of that turn touches |
| SseTee.WrittenThenTeed | proxy/proxy_sse.go:124-131 | while capturing, teed is a prefix of written and written of the lines scanned, at most one behind, one line for each tee step; the channel holds what no drain step took, and nothing is sent after the close |
| SseTee.WrittenInOrder | proxy/proxy_sse.go:115-132 | with or without capture, the client has the first of the lines of the run's scan steps, one for each write step, and lacks at most the one in flight |
| SseTee.CanGoOnIff | proxy/proxy_sse.go:94-132 | exactly which steps any run can go on with, from its earlier steps alone: scan, write, tee when capturing and there is room, until a write fails or scanning ends; the close once, after that; a drain of what is teed and not drained |
| SseTee.StallsAtCapacity | proxy/proxy_sse.go:99-131 | undrained, at most capacity plus one lines are written, and once that many are no step but a drain is possible |
| SseTee.AtMost1025Lines | proxy/proxy_sse.go:99 | with the program's capacity and nobody draining, at most 1025 lines reach the client |
| SseTee.CapacityReached | proxy/proxy_sse.go:124-131 | any list of lines up to the capacity does get through undrained |
| SseTee.BoundReached | proxy/proxy_sse.go:124-131 | the line beyond the capacity is still written, and the relay then waits at the tee |
| WebSocketRelay.DeliveredTeedRead | proxy/proxy_websocket.go:163-186 | while capturing, in either direction the tee holds the payloads of the messages read, one for each tee step, and is never behind what is delivered |
| WebSocketRelay.DeliveredInOrder | proxy/proxy_websocket.go:163-186 | in every interleaving, either direction and with or without capture, what is delivered is the first of the messages of the run's read steps, types included, one for each write step, and at most one is in flight |
| WebSocketRelay.CanGoOnIff | proxy/proxy_websocket.go:131-186 | exactly which steps any run can go on with, from its earlier steps alone: each pump reads, tees when capturing and there is room, and writes, until a read or write fails; each channel is closed once, after both pumps |
| WebSocketRelay.TeeConserved | proxy/proxy_websocket.go:174-176 | what was teed is what was taken, one for each drain step, followed by what the channel holds, within its capacity |
| WebSocketRelay.NeverPanics | proxy/proxy_websocket.go:131-160 | no run sends on a closed channel or closes one twice |
| WebSocketRelay.ClosedMeansQuiet | proxy/proxy_websocket.go:131-160 | once a channel is closed both pumps have ended and only draining and the other close are possible |
| WebSocketRelay.ClosedOnce | proxy/proxy_websocket.go:131-134 | each channel is closed as often as it is found closed: at most once |
| WebSocketRelay.StallsAtCapacity | proxy/proxy_websocket.go:123-128 | undrained, a direction delivers at most the capacity, and the next message waits at the tee for ever |
| WebSocketRelay.AtMost1024Messages | proxy/proxy_websocket.go:123-128 | with the program's capacity and nobody draining, at most 1024 messages per direction are delivered |
| WebSocketRelay.CapacityReached | proxy/proxy_websocket.go:163-186 | in either direction any list of messages up to the capacity does get through undrained |
| Ticket.DuplicateIffNoAddBetween | web/api/api.go:137-138 | two callers of an add followed by a load draw the same value iff nobody adds between their loads |
| Ticket.DistinctWhenSerial | web/api/api.go:137-138 | without overlapping windows all drawn values are distinct |
| Ticket.DuplicateWitness | web/api/api.go:137-138 | two callers that both draw 2 |
| EventFeed.TakenAtMostOnce | web/api/api.go:133-134 | each queued message is taken by at most one loop, and once |
| EventFeed.StreamIdsIncrease | web/api/api.go:127-151 | on one client's stream ids strictly increase |
| EventFeed.IdsBounded | web/api/api.go:135-139 | every id is positive and at most the number of HTTP messages taken |
| EventFeed.SharedIdNeedsOverlap | web/api/api.go:137-138 | two messages share an id only if one loop's add falls inside another's add-to-load window |
| EventFeed.SharedIdIffNoAddBetween | web/api/api.go:137-138 | and exactly when no loop adds between their two loads |
| EventFeed.SharedIdWitness | web/api/api.go:133-145 | a run in which two clients each receive a message numbered 2 |
| EventFeed.LeavesOnlyFor | web/api/api.go:127-151 | a loop that left found recording off, failed to write, or had in its step before found the channel empty and then a different client number current, a newer one while the numbers have not wrapped |
| FeedRuns.CanGoOnIff | web/api/api.go:126-151 | exactly which steps any run can go on with, from its earlier steps alone: connecting and switching always, an arrival while the channel has room, and of each loop the next step of its program, a take iff something waits and an empty poll iff nothing does |
| FeedRuns.RecordingOffIff | web/api/api.go:66-69 | recording is off iff it was switched off with no switch since |
| FeedRuns.CheckLeavesIff | web/api/api.go:129-131 | at every test of record in every run, the loop leaves iff the latest switch before was off, and else goes on to select |
| FeedRuns.OffForGood | web/api/api.go:128-134 | once recording is off for good, a loop takes at most the one message it was already selecting for |
| FeedRuns.WriteLeavesIff | web/api/api.go:139-144 | a failed write ends the loop; any other sends the message held with the id it drew, and the loop goes on |
| FeedRuns.LoadNumbers | web/api/api.go:137-138 | the id loaded is the number of adds made before, by whatever loop, modulo 2^64 |
| FeedRuns.YieldLeavesIff | web/api/api.go:146-149 | a loop gives way iff the number of a later client is current |
| FeedRuns.YieldsToNewer | web/api/api.go:126-149 | below 2^64 clients, iff a client has connected after its own |
| FeedRuns.TakenAre | web/api/api.go:133-134 | the channel and what each loop took are those of the run's arrivals and takes, the n-th take taking message n, and each loop has sent one message for each write that went well |
| FeedRuns.HttpAccounted | web/api/api.go:133-144 | every HTTP message a loop took was sent to its client, in the order taken, but for the one it holds or the one lost to the write error it left on; no other message is sent |
| EventFeed.NewestNeverYields | web/api/api.go:126-149 | the newest client never leaves by take-over |
| EventFeed.YieldingLoopIsGone | web/api/api.go:146-149 | an older loop that compares client numbers while no newcomer arrives is gone afterwards |
| EventFeed.AtMostOneLoopRemains | web/api/api.go:126-151 | once every older loop has compared, with no newcomer, only the newest can still run |
| EventFeed.ChannelBounded | cmd/mitm-web/main.go:28 | never more than the capacity waits in the channel |
| EventFeed.CaptureStallsAtCapacity | proxy/proxy_http.go:132-154 | while no loop takes, at most the capacity of exchanges gets past the send, and then none can |
| EventFeed.AtMost10240Captured | cmd/mitm-web/main.go:28 | with no client connected, at most 10240 exchanges are captured before the proxy blocks |
| UiTable.Table.OnMessage | web/ui/src/views/HomeView.vue:604-610 | the new row goes on top of the 49 newest of the others, which keeps the table the newest 50 of the arrivals since the last clear |
| UiTable.Table.Play | web/ui/src/views/HomeView.vue:597-637 | any sequence of arrivals and clears keeps that law |
| UiTable.SinceClearIsTail | web/ui/src/views/HomeView.vue:604-637 | the rows since the last clear are the tail end of all rows |
| UiTable.TableIdsDecrease | web/ui/src/views/HomeView.vue:604-610 | composed with one event loop, ids strictly decrease down the table, whatever was cleared |
| HexDump.FormatHexDump | web/ui/src/utils.js:1-31 | the loop prints the dump of the string's UTF-8 bytes |
| HexDump.LineReads | web/ui/src/utils.js:13-28 | one printed line reads back as its address, bytes and characters and leaves the rest of the text |
| HexDump.DumpRoundTrip | web/ui/src/utils.js:12-29 | reading the dump of any bytes gives rows addressed 0, 16, 32 and so on that hold exactly those bytes |
| HexDump.RowHolds | web/ui/src/utils.js:12-14 | row k holds the sixteen bytes from 16k on, or what is left |
| HexDump.RowShows | web/ui/src/utils.js:18-22 | each byte is shown as itself between the blank and the tilde, and else as a dot |
| HexDump.TextRoundTrip | web/ui/src/utils.js:1-31 | the dump of a string reads back to the string iff no surrogate stands alone |
| HexDump.DumpInjective | web/ui/src/utils.js:1-31 | different well-formed strings have different dumps |
| HexDump.DumpLength | web/ui/src/utils.js:12-28 | n bytes, up to 2^32, print as n characters plus 61 for each started line |
| Unicode.UnitsOfScalars | web/ui/src/utils.js:6-9 | turning code units into scalar values loses nothing iff the string is well-formed |
| Unicode.DecodeEncodeAll | web/ui/src/utils.js:6-9 | UTF-8 (section 3 of RFC 3629) reads back under a strict decoder |
| Literals.PhpExact | web/ui/src/converter/toPHPcURL.js:30-41 | an escaped value reads back from PHP single quotes with its own value iff no backslash is doubled, precedes a quote or ends it, and the literal then ends in the right place |
| Literals.PhpRawExact | web/ui/src/converter/toPHPGuzzle.js:17-24 | a value printed unescaped reads back iff it is also free of quotes |
| Literals.ShellExact | web/ui/src/converter/toCurl.js:18-27 | a backslash-escaped value reads back from shell single quotes (section 2.2.2 of the POSIX.1-2017 Shell Command Language) iff it has no quote |
| Literals.GoRawExact | web/ui/src/converter/toGoHttpClient.js:27-29 | a value reads back from a Go raw string iff it has no back quote and no CR |
| JsLiterals.AlwaysBounded | web/ui/src/converter/toJsFetch.js:33-50 | a literal that ends at its place or too early comes out shorter than a value with a backslash; one that runs past its end carries the delimiter and what it ran over |
| JsLiterals.JsExact | web/ui/src/converter/toJsFetch.js:5-50 | a JavaScript literal reads back exactly, ending in the right place, iff the value has no backslash or CR, no line feed in single quotes, no substitution in back quotes, and no unescaped delimiter (section 12.9 of ECMA-262) |
| JsLiterals.JsValueExact | web/ui/src/converter/toJsFetch.js:5-50 | the same condition decides whether the value alone is right, wherever the literal ends, when nothing behind it can end like the value |
| JsFetch.ToJsFetch | web/ui/src/converter/toJsFetch.js:1-58 | for every presence of method, headers and body: the text reads back as one call of the encoded address whose options are the upper-cased method iff one is given, the header pairs iff there are headers and the body iff it is a string that is not empty, in that order, iff each of them survives its literal and no stray brace is left by a body that is no string; no address, no text |
| JsFetch.StrayBraceNeverReads | web/ui/src/converter/toJsFetch.js:53-56 | the text with the stray brace never reads back as a call of that address |
| JsFetch.PrintHeaders | web/ui/src/converter/toJsFetch.js:29-39 | the headers pushed to a list and joined are an object with one line per header |
| JsFetch.NameExact | web/ui/src/converter/toJsFetch.js:34 | a header name reads back as itself, followed by its colon, iff it survives unescaped |
| JsFetch.ItemsExact | web/ui/src/converter/toJsFetch.js:23-55 | a comma-separated list of properties, nested or not, reads back in order up to its brace iff each of them reads back |
| JsFetch.HeadersExact | web/ui/src/converter/toJsFetch.js:29-39 | the header object, empty or not, reads back as the header pairs in order iff all of them survive |
| JsFetch.FetchExact | web/ui/src/converter/toJsFetch.js:1-58 | for all eight presence combinations, the printed call reads back as the encoded address, the upper-cased method, the header pairs in order and the body iff each survives its literal |
| PhpArrays.LiteralExact | web/ui/src/converter/toPHPGuzzle.js:38-47 | value and end of a printed literal are right iff the value is safe for the way it is printed |
| PhpArrays.KeyedExact | web/ui/src/converter/toPHPGuzzle.js:38-40 | a printed entry reads back as its name and value iff the name survives unescaped and the value escaped |
| PhpGuzzle.ToPhpGuzzle | web/ui/src/converter/toPHPGuzzle.js:1-72 | the program reads back as one request with the upper-cased method, or GET without one, the encoded address, and the headers and the body that are given, iff each survives its literal; no address, no text |
| PhpGuzzle.PrintOptions | web/ui/src/converter/toPHPGuzzle.js:26-61 | under the config flag commas and brackets come out right for every presence of headers and body |
| PhpGuzzle.PrintHeaders | web/ui/src/converter/toPHPGuzzle.js:35-43 | one entry per header, in order |
| PhpGuzzle.HeadersExact | web/ui/src/converter/toPHPGuzzle.js:37-43 | the header lines read back as the header pairs iff all of them survive |
| PhpGuzzle.OptionsExact | web/ui/src/converter/toPHPGuzzle.js:26-62 | the options argument reads back as the given headers and body, for each presence, iff they survive |
| PhpGuzzle.GuzzleExact | web/ui/src/converter/toPHPGuzzle.js:1-72 | the printed program is one request with the given method, address, headers and body iff each survives the way it is printed |
| PhpCurl.ToPhpCurl | web/ui/src/converter/toPHPcURL.js:1-65 | the program reads back as the settings of the encoded address and of the method, headers and body that are given, iff each survives its literal; no address, no text |
| PhpCurl.PrintHeaders | web/ui/src/converter/toPHPcURL.js:26-36 | one line per header, in order |
| PhpCurl.HeaderLiteralExact | web/ui/src/converter/toPHPcURL.js:30-32 | an unescaped name and an escaped value in one literal read back iff the name has no quote and the whole line no harmful backslash |
| PhpCurl.CurlExact | web/ui/src/converter/toPHPcURL.js:1-65 | the printed program sets exactly the given address, method, header lines and body, whichever are present, iff each literal survives |
| CurlCommand.ToCurl | web/ui/src/converter/toCurl.js:1-33 | for methods, addresses and header names as HTTP has them, the shell reads the upper-cased method that is given, the encoded address, the headers and the body as curl's arguments iff the method stands for itself and nothing else has a quote; no address, no text |
| CurlCommand.PrintHeaders | web/ui/src/converter/toCurl.js:16-22 | one line per header, in order |
| CurlCommand.QuotedEscapedBreaks | web/ui/src/converter/toCurl.js:18-27 | a value with a quote, escaped or not, never arrives as one word with that value |
| CurlCommand.QuotedRawBreaks | web/ui/src/converter/toCurl.js:9-21 | nor does an unescaped address or header name with a quote |
| CurlCommand.LinesExact | web/ui/src/converter/toCurl.js:16-31 | the header and body lines give exactly their options and values as words iff they are free of quotes |
| CurlCommand.MethodBreaks | web/ui/src/converter/toCurl.js:4-7 | a method that does not stand for itself never arrives as that first word, whatever follows and whether or not expansions leave words alone |
| CurlCommand.CurlExact | web/ui/src/converter/toCurl.js:1-33 | the shell passes curl exactly the intended arguments iff the unquoted method stands for itself and nothing printed between quotes has a quote, both for a shell whose expansions leave a word alone and for one whose expansions do not |
| CurlCommand.HeaderWordsAt | web/ui/src/converter/toCurl.js:16-22 | the intended arguments have the option and the line for each header in order |
| CurlCommand.PipeMethodBreaks | web/ui/src/converter/toCurl.js:4-7 | a valid method, A and B with a bar between them, that breaks the command |
| GoClient.ArgumentExact | web/ui/src/converter/toGoHttpClient.js:27-32 | the body argument reads back iff the body has no back quote and no CR; no body reads back as nil |
| GoClient.PrintBody | web/ui/src/converter/toGoHttpClient.js:27-32 | what the branch prints reads back as the body, or as nil without one, except that a body with a back quote or CR never does |
| ProxyLatch.Globals.SetProxy | proxy/proxy.go:120-127 | configures the proxy unless the address is empty, keeping the law of the latch |
| ProxyLatch.Globals.ClearProxy | proxy/proxy.go:129-131 | leaves no proxy configured, keeping the law |
| ProxyLatch.Globals.SetSocks5 | proxy/proxy.go:137-145 | configures the SOCKS5 dialer unless the address is empty, and no dialer at all when constructing it fails |
| ProxyLatch.Globals.ClearSocks5 | proxy/proxy.go:147-153 | configures direct dialling |
| ProxyLatch.Globals.HttpTransport | proxy/dialer.http.go:30-40 | panics, leaving the transport alone, iff no dialer is configured; else its dialer is the configured one and its proxy becomes the configured one iff either is nil, which keeps the law on the calls so far |
| ProxyLatch.Globals.WebSocketDialer | proxy/dialer.websocket.go:57-69 | the same for the WebSocket dialer on its own calls |
| ProxyLatch.ConfiguredIff | proxy/proxy.go:120-131 | after any history a proxy is configured iff it was set, with an address, and neither cleared nor set to another since |
| ProxyLatch.NoneConfiguredIff | proxy/proxy.go:120-131 | and none is iff no address is so set |
| ProxyLatch.ConfiguredDialIff | proxy/proxy.go:137-153 | a SOCKS5 server is dialled through iff it was set, with an address and a constructor that succeeds, and neither cleared nor set again since |
| ProxyLatch.PanicsIff | proxy/proxy.go:137-153 | calls panic exactly from a failed SOCKS5 construction on until a dialer is configured again |
| ProxyLatch.Globals.Play | proxy/proxy.go:120-153 | every run of the six operations keeps both laws |
| ProxyLatch.LatchStep | proxy/dialer.http.go:34-39 | nil-to-non-nil and non-nil-to-nil moves keep the proxy what the first call after the last nil saw |
| ProxyLatch.LatchedUnique | proxy/dialer.http.go:34-39 | the law leaves exactly one possible proxy |
| ProxyLatch.NilIffNoneConfigured | proxy/dialer.http.go:34-39 | after a call the object has no proxy iff none is configured |
| ProxyLatch.ConfiguredInUseIff | proxy/dialer.http.go:34-39 | after a call the configured proxy is in use iff none is configured or the first call after the last nil saw this same one |
| ProxyLatch.InUse | proxy/dialer.http.go:34-39 | after any history the proxy in use is the environment's if no call has found none configured, none if no call follows the last that did, and else what the next call found |
| ProxyLatch.StartupProxyIgnored | cmd/mitm-web/main.go:38 | in every history that starts by setting a proxy and never clears it, both objects keep the environment's proxy |
| ProxyLatch.SecondProxyIgnoredWitness | proxy/dialer.websocket.go:61-67 | a history in which the second of two proxies is configured and the first is used |
| GzipResponse.ByteBuffer.Write | proxy/gzip.go:41-44 | appends in place while there is room; otherwise moves to a new array and leaves the old one as it was |
| GzipResponse.WriteAll | proxy/gzip.go:41-44 | the buffer holds all chunks, and its old array is overwritten by exactly the chunks before the first that does not fit |
| GzipResponse.WithGzip | proxy/gzip.go:34-46 | returns the compressed data as a slice of a buffer that is already free again, and changes no other free buffer |
| GzipResponse.OtherCalls | proxy/gzip.go:34-46 | calls that do not take the buffer leave the slice as it is |
| GzipResponse.SameBufferCall | proxy/gzip.go:34-46 | a call that does take it, of whatever output size, lays the fitting chunks over the slice, which survives iff the bytes agree |
| GzipResponse.FirstReadsSecond | proxy/gzip.go:36-45 | two responses with different data and equal compressed size: the first one reads, and decompresses to, the second one's data |
| GzipResponse.FirstReadsSecondWitness | proxy/gzip.go:36-45 | the same for two concrete bodies and a concrete compressor |
| GzipResponse.LargerOutputSpoils | proxy/gzip.go:34-46 | a run in which the second output is larger than the array, whatever its size, and the first reader still gets its first bytes |
| GzipResponse.ModifyResponse | proxy/proxy_http.go:103-131 | body and headers after the hook, gzip and length rewrite; the captured body is what upstream sent |
| GzipResponse.Respond | proxy/proxy_http.go:103-131 | if no other call takes the buffer, the body sent is the gzip of the hooked data if that is wanted and not empty, else the hooked data, with its exact length and encoding announced and all other headers as upstream sent them; decompressing gives the hooked data back |
| GzipResponse.HeadersAre | proxy/proxy_http.go:120-128 | for a body that is not empty the length is set to the exact one and, when compressing, the encoding to gzip; all other headers are kept |
| GzipResponse.LengthAgreesIff | proxy/proxy_http.go:120-128 | the announced length is right iff something is sent or upstream announced none or zero |
| GzipResponse.DealWithGzip | proxy/gzip.go:18-31 | gzip is wanted iff some item, trimmed and lowered, is gzip; kept are exactly the others |
| GzipResponse.TrimBlanksCuts | proxy/gzip.go:24 | trimming takes away all blanks at either end and nothing else |
| CertCache.CertificatesNameTheirDomain | proxy/proxy_certificate.go:17-62 | in every interleaving cached and returned certificates name the requested domain, as address or name |
| CertCache.CachedDomainsStay | proxy/proxy_certificate.go:18-59 | a cached domain stays cached |
| CertRuns.CanGoOnIff | proxy/proxy_certificate.go:17-62 | exactly which steps any run can go on with, from its earlier steps alone: a call may begin at any time, looks up and, only if that finds nothing, adds, reads, signs and, if signing went well, stores |
| CertRuns.LookupMissesIff | proxy/proxy_certificate.go:18-20 | a lookup misses iff no call for the same domain has stored before |
| CertRuns.LookupFinds | proxy/proxy_certificate.go:18-20 | else the call returns the certificate made by the last call that did: one for that domain with the serial that call read |
| CertRuns.SignFailsIff | proxy/proxy_certificate.go:44-57 | signing fails the call or makes a certificate for its own domain with the serial it read |
| CertRuns.CachedIff | proxy/proxy_certificate.go:59 | a domain is cached iff some call for it stored |
| CertRuns.CachedIs | proxy/proxy_certificate.go:59 | and the cached certificate is the one of the last such call |
| CertRuns.LastStoreIff | proxy/proxy_certificate.go:59 | the last such call is one whose store of the domain has none behind it |
| CertCache.SerialBounds | proxy/proxy_certificate.go:22-25 | a serial is above the counter at its call's start and at most the counter now |
| CertCache.SharedSerialNeedsOverlap | proxy/proxy_certificate.go:22-25 | two calls share a serial only if their add-to-read windows overlap |
| CertCache.SharedSerialIffNoAddBetween | proxy/proxy_certificate.go:22-25 | and exactly when nobody adds between their reads |
| CertCache.CachedSerialsDistinct | proxy/proxy_certificate.go:17-62 | without overlapping windows cached certificates have distinct serials (section 4.1.2.2 of RFC 5280) |
| CertCache.SharedSerialWitness | proxy/proxy_certificate.go:17-62 | a run that caches two certificates with serial 2 |
| SocksDial.SendOnceNeverBlocks | proxy/dialer.go:54-64 | at most one result is ever sent and the offer can always proceed |
| SocksDial.ReturnsOwnResultOrContext | proxy/dialer.go:66-71 | the caller returns the dial's own result, or the context error after the context ended |
| SocksDial.CanGoOnIff | proxy/dialer.go:53-72 | exactly which steps any run can go on with, from its earlier steps alone: the skip and the caller's early exit need the context to have ended, the close follows the exit, and everything happens once |
| SocksDial.PanicIffOfferAfterClose | proxy/dialer.go:55-63 | the goroutine panics exactly in the runs whose offer comes after the close |
| SocksDial.PanicNeedsContextExit | proxy/dialer.go:66-68 | and only if the caller left on the context before the offer |
| SocksDial.MayPanicIff | proxy/dialer.go:53-72 | at every moment of every run some continuation panics, or the panic has come, iff the goroutine has neither sent nor skipped |
| SocksDial.PanicWitness | proxy/dialer.go:53-72 | a run that panics |
| SocksDial.ResultLostIffContextExit | proxy/dialer.go:57-71 | when both sides are done, the dialled result is lost iff the caller left on the context |
| RuleText.CleanLoop | proxy/proxy.go:60-66 | the loop shared by the setters yields the trimmed non-empty pieces in order |
| RuleText.Rules.Action | web/api/api.go:65-115 | of record, replay, exclude, include, proxy and replace only the first one given is obeyed, "-" clears, and everything else stays |
| RuleText.WinnerIff | web/api/api.go:65-115 | that one is given and none of higher precedence is |
| RuleText.RoundTripIff | web/ui/src/views/HomeView.vue:734-760 | shown, sent and parsed again, a list comes back identical iff its rules are non-empty, begin and end with none of the 26 white characters, have no semicolon and no newline, and it is not the single rule "-" |
| RuleText.WhiteIff | proxy/proxy.go:61 | the two trimmings take away these characters, NEL only in Go and the byte order mark only in JavaScript |
| RuleText.ResultShape | web/ui/src/views/HomeView.vue:735-760 | whatever text is entered, every stored rule is non-empty, trimmed and free of separators |
| RuleText.DoReplace | web/ui/src/views/HomeView.vue:775-801 | nothing is sent while a side is empty; otherwise the printed rows are |
| RuleText.ReplaceStored | proxy/proxy.go:102-113 | after the trimming by page and server, each row without semicolons is stored as its kept text split at the commas |
| RuleText.ReplaceTakesCaseIff | proxy/proxy.go:309-325 | a matching row takes a case of the switch and finds its target iff the pattern has no comma and the kept replacement starts with one, or the text between the pattern's first comma and the next is a scheme word |
| RuleText.ReplaceNeverTakesCase | proxy/proxy.go:309-325 | a row without commas is stored as two fields and takes no case, unless the replacement is white space only, which indexes a missing field |
| RuleText.CommaReachesCase | proxy/proxy.go:314-322 | in the first case the target is what follows that comma, up to the next |
| RuleText.PatternReachesCase | proxy/proxy.go:314-322 | a pattern ending in a comma and a scheme word fetches the chosen scheme and the replacement |
| RuleText.NoCommaPanics | proxy/proxy.go:309-314 | a rule sent without any comma is stored as one field, and its match indexes a missing one |
| RuleText.WhiteSpacePanicWitness | proxy/proxy.go:314-318 | a row the dialog accepts that makes the server index a missing field |

## Left out

- CurlCommand.CurlExact: methods have no blank and no backslash, which HTTP's token syntax rules out, and neither the address nor a header name has both a quote and a backslash, which percent-encoding and the same syntax rule out. Expansions are not computed: one reader takes every word with an expanding character as it stands, the other rejects it.
- JsFetch.FetchExact: lone-surrogate `\u` escapes and the special property name `__proto__` are not interpreted by the reader.
- PhpArrays.KeyedExact: PHP turns decimal string keys into integers when it evaluates the array; the reader returns the key as written.
- UiTable.TableIdsDecrease: rows are those of one event stream; after a reconnection rows of another loop may follow.
- SseStream.RelayKeepsEvents: lines are split on bytes, before UTF-8 decoding; the effect of a `retry` field in an unfinished last line is excluded by comparing events only.
- SseStream.SameEventsIffLossHarmless: the condition is about all cuts of the stream, since the client sees events as they come; on a whole stream a harmful loss can be made good by a blank line that follows at once.
- SseScanner.Scanner.Scan: up to a hundred reads in a row that return nothing change nothing and are not steps; one more makes the scanner give up with an error, which counts as upstream failing at that point.
- SseRelay.Relay: the channel send is the queue the method returns; that it blocks when full is in `SseTee`, on values. The client is the number of writes it takes: each of them whole, and none after the first that fails. The frame written when upstream cannot be reached at all is not modelled.
- EventFeed.IdsBounded: this and the other numbering results hold while the 64-bit counter has not wrapped; the counters of `CertCache` likewise until 2^63.
- EventFeed.AtMostOneLoopRemains: assumes fewer than 2^64 clients ever connected.
- CertCache.SerialBounds: the plain read of the counter is one atomic step, as is every read of `record`, `proxyFunc` and `netDialer`; data races below that level are not modelled.
- GzipResponse.WithGzip: the pool never drops a free buffer, and compression is a function from data to written chunks with a left inverse.
- RuleText.Rules.Action: replaying a message and setting the proxy are returned as errands; the latter is an operation of `ProxyLatch`, the former is not modelled further. That `record` changes what a feed does is a step of `EventFeed`.
- Encoding an address, upper-casing and lower-casing are function parameters; `filepath.Match` is assumed to have matched.
- Sockets, TLS handshakes, hijacked tunnels, the reverse proxy's own work, the listener hand-off and the fingerprint tables.
- Key generation and signing: a constructor that records name and serial and may fail.
- JSON, header canonicalisation, and the truncation of size and time to 16 bits in captured messages.
- The header lines of the Go converter (interpreted strings) and the remaining converters, which repeat the same quoting over fixed templates; the axios one prints a stray comma whenever a method is given.
- The page's templates, downloads, certificates on disk, command-line parsing and IP discovery.
