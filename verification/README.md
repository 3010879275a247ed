# Verified models of tor-js and its gateway

This project models the stateful parts of tor-js (the Tor client for JavaScript) and
tor-js-gateway (the server that bridges it to relays), and proves what their code and
documentation promise. The modules, in reading order:

* **HTTP/1.1 over byte streams.** `Bytes`, `Text` and `ByteStream` are the ground: the one
  search primitive, Rust's text rules, and streams that hand out and take bytes as the network
  likes. `TextLaws` ties the text rules to the encodings, white space and numerals they read.
  `BodyFraming` defines what a response body is as a function of the wire; `BodyReader` is the
  incremental decoder, proved to deliver exactly that for every cut of the wire into reads.
  `ChunkedGrammar` ties the chunked decoder to a message grammar in both directions, and
  `BodyMeaning` says of every wire, under every framing, what is delivered and how it ends.
  `HeadFraming`/`HeadReader` are about response heads and interim responses, `HeadCuts` says
  for which wires the cut matters, `RequestHead`/`RequestHeadReading`/`RequestWriter` are about
  requests, and `HttpExchange` composes them. `ResponseReading` says what is reported of any
  response a server prints, and `RequestMeaning` what a server finds in any request sent.
* **Gateway connections.** `GatewayRuns` is the life cycle of a `KpsGateway` as a machine over
  every interleaving; `KpsGateway` is the class, each stretch of whose code is one step.
  `GatewayExchange` is one request over one of its streams, which a teardown may cancel.
  `Shuffle`, `GatewaySelection` and `GatewayConnects` are the choice and failover between
  gateways.
* **Tunnels.** `TunnelTracker`/`ConnectionTracker` count tunnels one atomic operation at a
  time and `TunnelLimits`/`TunnelConnLimits` say which counts runs reach; `TunnelRelay` is the
  byte pipe, `JsProxyStream` the poll-based stream over promises.
* **The mirror.** `MirrorPaths` is the object tree, `Mirror` one reconcile under every pattern
  of failures, and `MirrorPromises` what it promises, exactly when. `MirrorRuns` is the machine
  of syncs, crashes and requests interleaved; `MirrorSchedules` says which runs it has and when
  none of them goes wrong, and `MirrorSyncs` that its syncs leave what a reconcile leaves.
  `WorkerBundles` is serving, `SyncThrottle` who may sync when.
* **Bootstrap archive.** `StoredZip`, `Microdescs`, `MicrodescPanics`, `MicrodescJson`,
  `MicrodescStore`.
* **Storage.** `KeyMangling`, `KeyNames`, `Listings`, `FilesystemStorage`, `LockingOverlay`,
  `WriteBehind`, `CachedJsStorage`; `Counting` counts.

The network, the file system, clocks, random numbers and the JavaScript host appear as
parameters or as choices of the environment. Keccak is an arbitrary function. In the code
compiled to wasm32 `usize` has 32 bits, in the gateway 64.

## Findings

Some promises hold only under a condition. Each condition below is proved exact, and a lemma or
method gives an input or a run that violates the promise.

* **Response heads near the size limit.** Two ways of cutting the same wire into reads give
  different verdicts exactly when some head up to the deciding one ends more than one byte past
  65536 and none ends more than one read (8192 bytes) past it (`HeadCuts.CutDecidesIff`). A
  plain 204 response of such a size is refused when it comes in single bytes and accepted when
  its last read is a full one (`HeadCuts.LongHeadDepends`).
* **Write-behind.** A store ends up equal to the cache on a key, for every schedule, exactly
  when the key is settled (`WriteBehind.SettledIff`); overwriting a key that a running
  `set_many` still owes can lose the newer value (`WriteBehind.OvertakenWriteCanBeLost`), from
  any start within three steps (`WriteBehind.LostFromTheStart`).
* **Strays in wanted places.** A place is exposed when something that is neither a file nor a
  real directory lies in it (a pipe, a socket, a dangling link or a link to a directory) and its
  temporary place can be written. A download that replaces such a stray is deleted again by the
  stray list of the same sync (`MirrorSchedules.ExposedIsLost`). For every hash function,
  directory and branch, a sync always balances its counts, and never loses a wanted object,
  exactly when no wanted place is exposed whose object could be downloaded at all
  (`MirrorPromises.BalancesIff` over the outcomes of one reconcile,
  `MirrorSchedules.NeverLosesIff` over all runs). Only a real directory in such a place is
  harmless: the rename fails.
* **Files that do not match their names.** All answers of all runs hash to their paths exactly
  when every mismatching file at the start has a name that no download could match
  (`MirrorSchedules.AllAnswersHashIff`). Otherwise a request that read the file before a sync
  replaced it is answered from the verified-hash cache (`MirrorSchedules.WrongFileIsServed`,
  for any directory with such a file).
* **Fetch first, prune second.** Up to the end of the fetches nothing on disk goes away
  (`MirrorRuns.NothingGoesBeforeFetchesDone`), but a sync prunes even when its fetches failed.
  "If fetching fails we keep serving what we have" (keccak_mirror.rs:350-351) holds in every
  world exactly when there is nothing to fetch or nothing to drop
  (`MirrorPromises.KeepsOldIff`); when every download fails, only what is old and wanted is left
  (`MirrorPromises.NoDownloadsLeave`).
* **Failed refreshes.** "A failed refresh MUST leave the previously served objects in place"
  (PROTOCOL.md:274-275). A sync that cannot read the directory again after pruning
  (keccak_mirror.rs:384) fails although the stale objects are gone. For every directory, branch
  and failure pattern, a sync that ends in an error keeps every object in every world exactly
  when it was refused, or the directory can be read again, or the branch still holds all that is
  on disk (`MirrorPromises.FailureKeepsIff`); an emptied branch shows it
  (`MirrorPromises.FailureEmpties`).
* **`SyncOutcome.unchanged`** is documented as "the branch and the disk already agreed"; the
  code sets it when nothing was added or removed. With it set, they agreed exactly when no
  download and no unlink failed, which the other counts of the report decide
  (`MirrorPromises.NothingChangedIff`, `MirrorPromises.UnchangedThoughMissing`).
* **Tunnel counts.** With at most n overlapping acquires the total can reach its limit plus
  n - 1 and no more, unless a limit is 0 and it stays 0
  (`TunnelLimits.TotalReachableIff`). The same holds of one connection's counter, whatever its
  peer address and however low the address limit, since a guard being dropped gives its address
  back before its connection (`TunnelConnLimits.ConnReachableIff`); both peaks are reached
  (`TunnelLimits.PeakIsReached`, `TunnelConnLimits.ConnPeakIsReached`). The address map is empty
  in every quiescent state exactly when the address limit is positive or an earlier check
  refuses everyone (`TunnelLimits.MapEmptiesIff`, `TunnelLimits.RefusedEntryStays`); the limits
  the gateway builds from its configuration always qualify
  (`TunnelLimits.OwnLimitsEmptyTheMap`).
* **The lock file among the keys.** On Node the lock is a file `.lock` in the storage's own
  directory (src/storage/index.ts:16, src/storage/locking.ts:62-68). While it is there `keys`
  lists a key ".lock" that `get` does not find and `getAll` omits
  (`FilesystemStorage.LockIsListedUnread`). Listings and reads agree under a prefix exactly
  when each listed name's key has its own file (`FilesystemStorage.AgreeIff`,
  `FilesystemStorage.LockDisturbsIff`, `LockingOverlay.OverlayAgreesIff`). The empty key names
  the directory itself, so its reads and writes fail.
* **Truncated gateway responses.** When a connection dies, its teardown cancels the reader,
  which reports a clean end; `fetch` then returns the part of the body it has as a success
  (kpsGateway.ts:219-222, 241-248). The body is the peer's whole body exactly when the
  teardown left nothing unread (`GatewayExchange.BodyIsWholeIff`,
  `GatewayExchange.TruncatedBodySucceeds`).
* **Slices inside a character.** The microdescriptor splitter panics exactly when, behind some
  marker, the white space in front of the next marker or the end of the text begins with a
  character of several bytes (`MicrodescPanics.PanicsIff`), such as a no-break space
  (`MicrodescPanics.NoBreakSpacePanics`).
* **Microdescriptor JSON.** The stored JSON decodes to the text exactly when the text is ASCII
  without control characters other than CR and LF (`MicrodescJson.StoredTextIff`): the code
  escapes bytes, not characters, so one accented letter comes back as two characters
  (`MicrodescJson.AccentIsNotReadBack`).
* **Framing names.** Caller headers whose name hides a framing name before a colon or inside
  white space survive the filter on framing fields; the framing a reader finds is the codec's
  own exactly when there is none (`RequestHeadReading.FramingReadsBackIff`). "Content-Length"
  with a space behind it is such a name (`RequestHeadReading.TrailingSpaceAddsFraming`).
* **Errors reported once.** A body reader that reported an error reports a clean end when
  called again, unless the error is a bad size line or a failed read of a chunked body
  (`BodyReader.BodyReader.ReadAfterError`, `BodyReader.ShortBodyThenEnd`). A rejection of
  `close()` is reported by one poll, and every later one succeeds
  (`JsProxyStream.JsProxyStream.PollClose`, `JsProxyStream.RejectedCloseSucceedsLater`).

## Model

| member | source | states |
|---|---|---|
| Bytes.FindSubsequence | crates/tor-js-wasm/src/fetch.rs:684-688 | the offset of the first occurrence, or that there is none |
| BodyReader.BodyReader.constructor | crates/tor-js-wasm/src/fetch.rs:98-109 | a new reader has delivered nothing and will deliver the body that overflow and stream together carry |
| BodyReader.BodyReader.ReadChunk | crates/tor-js-wasm/src/fetch.rs:112-129 | what a call returns, put before what later calls return, is what was expected before it; each chunk consumes wire |
| BodyReader.BodyReader.ReadAll | crates/tor-js-wasm/src/fetch.rs:133-139 | the body the wire carries and the error it ends in, for every cut into reads; of a new reader: no body is empty, a length gives that much of the wire or all of it and the error, and up to the end it is the whole wire, an error only if that is empty and broken |
| BodyReader.BodyReader.ReadAfterError | crates/tor-js-wasm/src/fetch.rs:112-129 | a call after an error meets the same error exactly for a bad size line or a failed read of a chunked body, and a clean end otherwise |
| BodyReader.ShortBodyThenEnd | crates/tor-js-wasm/src/fetch.rs:142-186 | a body shorter than announced: an error first, then a clean end |
| BodyReader.BodyReader.ReadChunkContentLength | crates/tor-js-wasm/src/fetch.rs:142-186 | the same for a declared length: a short body is an error, bytes behind the length stay |
| BodyReader.BodyReader.ReadChunkEof | crates/tor-js-wasm/src/fetch.rs:189-220 | the same up to the end of the stream; a late read error counts as the end once data was delivered |
| BodyReader.BodyReader.ReadChunkChunked | crates/tor-js-wasm/src/fetch.rs:226-326 | the same for chunked coding, whatever point of a chunk the reads stop at |
| BodyReader.BodyReader.ReadChunkData | crates/tor-js-wasm/src/fetch.rs:229-264 | data of the current chunk, and an error when the stream ends inside it |
| BodyReader.BodyReader.ConsumeChunkCrlf | crates/tor-js-wasm/src/fetch.rs:267-288 | the CRLF behind chunk data is required and consumed |
| BodyReader.BodyReader.ReadNextSize | crates/tor-js-wasm/src/fetch.rs:291-325 | blank size lines are skipped, extensions dropped, the 0 line ends the body |
| BodyReader.DataComesInPieces | crates/tor-js-wasm/src/fetch.rs:229-264 | decoding chunk data in two pieces is decoding it in one |
| BodyReader.LengthComesInPieces | crates/tor-js-wasm/src/fetch.rs:142-186 | taking a declared length in two pieces is taking it in one |
| BodyMeaning.ReadWhole | crates/tor-js-wasm/src/fetch.rs:98-139 | a new reader on any wire, under each framing: complete exactly when the wire has the length, ends well or has a byte, or begins with a chunked message; then exactly that body, and else which error |
| BodyMeaning.SizeLineSays | crates/tor-js-wasm/src/fetch.rs:289-300 | a chunk-size line is white space, a number, white space and perhaps an extension; the number alone decides, and no number is a blank line |
| BodyMeaning.EndsBeforeSizeLine | crates/tor-js-wasm/src/fetch.rs:305-325 | behind whole chunks the stream ends before a size line does: their data and that error |
| BodyMeaning.BadSizeLine | crates/tor-js-wasm/src/fetch.rs:289-300 | behind whole chunks a size line that is no text or no size: their data and that error |
| BodyMeaning.BadChunk | crates/tor-js-wasm/src/fetch.rs:229-283 | behind whole chunks one that is cut short or not closed by CRLF: its data up to there and which error |
| ChunkedGrammar.MessageDecodes | crates/tor-js-wasm/src/fetch.rs:226-326 | every well-formed chunked message decodes to its payload, whatever follows it |
| ChunkedGrammar.DecodedIsMessage | crates/tor-js-wasm/src/fetch.rs:226-326 | whatever decodes cleanly begins with a well-formed message of that payload |
| ChunkedGrammar.ChunkedIff | crates/tor-js-wasm/src/fetch.rs:226-326 | the decoder ends cleanly with a body if and only if the wire begins with a well-formed message of that payload |
| ChunkedGrammar.CutMessageFails | crates/tor-js-wasm/src/fetch.rs:245-250 | a message cut anywhere before the CRLF of its last size line is an error, and what was delivered is a prefix of the payload |
| ChunkedGrammar.MessageEndIsUnique | crates/tor-js-wasm/src/fetch.rs:226-326 | two messages at the front of one wire take the same number of bytes |
| HeadReader.ReadResponseHeaders | crates/tor-js-wasm/src/fetch.rs:482-615 | exactly what the network's cuts make of the wire, and so the outcome of the wire itself (status, fields, framing, overflow) for every cut when heads end within the cap; bytes are conserved, no read once the head is held, at most 65536+8192 bytes held |
| HeadReader.SkipInterim | crates/tor-js-wasm/src/fetch.rs:495-568 | interim heads are skipped whole, and the next head is looked for right behind them |
| HeadReader.FillHead | crates/tor-js-wasm/src/fetch.rs:500-531 | reading goes on until a blank line is held, the cap is passed or the stream ends |
| HeadCuts.EveryCut | crates/tor-js-wasm/src/fetch.rs:489-568 | for every cut the result is the wire's own, unless a head overran the cap; one that overran it by a whole read is refused |
| HeadCuts.CutDecidesIff | crates/tor-js-wasm/src/fetch.rs:505-531 | for every wire, two cuts into reads give different verdicts if and only if some head up to the deciding one ends more than one byte past the cap and none more than one read past it |
| HeadCuts.LongHeadDepends | crates/tor-js-wasm/src/fetch.rs:512-531 | a response head between those sizes that is refused in single bytes and accepted when its last read is a full one |
| HeadFraming.HeadIsFirstFinal | crates/tor-js-wasm/src/fetch.rs:489-603 | the head used is the first that is not 1xx, with its own fields and the framing they call for, and the body starts right behind it |
| HeadFraming.FrontHeadIsStable | crates/tor-js-wasm/src/fetch.rs:505-531 | a head complete in the bytes that arrived is the head of the whole wire |
| ResponseReading.PrintedHeadRead | crates/tor-js-wasm/src/fetch.rs:533-586 | any printed head, by its code: interim for 1xx but 101, refused for 101 and above 65535, else final with that code and exactly its fields, names in small letters, values trimmed |
| ResponseReading.BadStatus | crates/tor-js-wasm/src/fetch.rs:542-556 | a status line without a space, or whose second word denotes no number a u16 holds, is refused |
| ResponseReading.NoHead | crates/tor-js-wasm/src/fetch.rs:538-546 | so is a head that is no UTF-8 text, or no line |
| ResponseReading.FramingIff | crates/tor-js-wasm/src/fetch.rs:582-604 | each framing exactly when it should be: none behind HEAD, 204 and 304, then chunked if some transfer coding contains it in any letter case, then the first length if it denotes a number that fits, then the end of the stream |
| ResponseReading.InterimIsSkipped | crates/tor-js-wasm/src/fetch.rs:558-567 | interim responses in front of a response change nothing of what is reported |
| ResponseReading.ResponseIff | crates/tor-js-wasm/src/fetch.rs:620-680 | for every printed final response and all bytes behind it, the client reports that code, those fields and a complete body if and only if the fields are those printed and the bytes carry that body |
| RequestWriter.WriteRequest | crates/tor-js-wasm/src/fetch.rs:427-475 | what the network takes of head and encoded body is written; it succeeds exactly when the network takes all of it, the source yields no error and the flush works, and blames the source exactly when all before its error was taken |
| RequestWriter.WriteStreamBody | crates/tor-js-wasm/src/fetch.rs:444-468 | the chunks before the first source error are framed one by one, empty ones skipped, the terminator only at the end; the error is the network's if it gives out, and else the source's |
| RequestWriter.EncodingIsMessage | crates/tor-js-wasm/src/fetch.rs:444-468 | what the encoder writes is a well-formed message whose payload is the chunks joined |
| RequestWriter.UploadRoundTrip | crates/tor-js-wasm/src/fetch.rs:444-468 | the decoder turns the encoder's output back into the chunks joined, for lengths that fit usize |
| RequestWriter.CutUploadFails | crates/tor-js-wasm/src/fetch.rs:444-468 | no prefix that stops before the CRLF of the 0 line decodes cleanly |
| RequestWriter.FailedSourceIsNotAnUpload | crates/tor-js-wasm/src/fetch.rs:445-446 | an upload whose source failed never decodes cleanly |
| Text.HexRoundTrip | crates/tor-js-wasm/src/fetch.rs:451 | a length printed in hex parses back to itself up to the maximum of the type, and is refused above it |
| TextLaws.Utf8Iff | crates/tor-js-wasm/src/fetch.rs:538-539 | bytes decode to a text if and only if they are its UTF-8 encoding |
| TextLaws.TrimIs | crates/tor-js-wasm/src/fetch.rs:575 | trimming takes the white space at both ends and nothing else |
| TextLaws.ParsedIff | crates/tor-js-wasm/src/fetch.rs:298 | parsing gives n if and only if n fits the type and the text is a notation of n: a plus or none, leading zeros, the numeral in either letter case |
| RequestHead.BuildRequestHead | crates/tor-js-wasm/src/fetch.rs:347-420 | refused exactly when a caller's name or value holds CR or LF; otherwise the intended lines in order and a blank line (what they mean: RequestMeaning.RequestMeans) |
| RequestHead.AppendHeaders | crates/tor-js-wasm/src/fetch.rs:387-409 | callers' fields are kept in order but for Host, Content-Length and Transfer-Encoding in any letter case |
| RequestHeadReading.RequestHeadReadsBack | crates/tor-js-wasm/src/fetch.rs:385-420 | a reader gets back exactly the intended lines, and the only blank line ends the head |
| RequestHeadReading.FramingReadsBackIff | crates/tor-js-wasm/src/fetch.rs:397-416 | a reader finds exactly the framing field the codec set if and only if no caller's name reads as a framing name |
| RequestHeadReading.TrailingSpaceAddsFraming | crates/tor-js-wasm/src/fetch.rs:397-408 | a caller's Content-Length with a trailing space is not filtered and is read as a framing field |
| RequestHeadReading.LengthReadsBack | crates/tor-js-wasm/src/fetch.rs:413 | the announced body length is parsed back to the body's length |
| RequestMeaning.RequestMeans | crates/tor-js-wasm/src/fetch.rs:347-420 | a server that reads the head finds method, target (path, or /, and query) and version in the first line, and under every name the URL's host, the body's framing, the caller's values trimmed, or the default exactly when the caller gave none; names are taken to hold no colon and no white space at their ends |
| RequestMeaning.KeptReadBack | crates/tor-js-wasm/src/fetch.rs:387-409 | each kept field of the caller is read with its own name and value, in the caller's order, whatever its name |
| RequestMeaning.ServerReadsBody | crates/tor-js-wasm/src/fetch.rs:347-475 | a server that frames the request by the codec's own rules reads exactly the body sent, whatever follows, when no caller's name is a framing name in disguise |
| HttpExchange.FetchHeaders | crates/tor-js-wasm/src/fetch.rs:620-680 | refused before anything is sent exactly when a caller's header holds CR or LF; the sending fails exactly when the network gives out, the source fails or the flush does; else the head announces the body that follows it, status and fields are the response's and the reader delivers its body |
| HttpExchange.Fetch | crates/tor-js-wasm/src/fetch.rs:620-680 | the whole exchange gives the same result for every cut of the response when heads fit the cap, and a sending error exactly when sending fails |
| GatewayRuns.StepKeepsInv | src/kpsGateway.ts:158-201 | every call and handler keeps: one current connection, one registry per live connection, every callback in exactly one place |
| GatewayRuns.AtMostOneConnection | src/kpsGateway.ts:158-190 | at most one attempt is dialing or connected, and it is the one callers share |
| GatewayRuns.StaleHandlerKeepsCurrent | src/kpsGateway.ts:174 | a stale dial or a dead old connection never clears a newer one |
| GatewayRuns.DialsAreShared | src/kpsGateway.ts:158-190 | callers share the current attempt; a new dial starts only when there is none and the gateway is open |
| GatewayRuns.NothingSurvivesClose | src/kpsGateway.ts:345-352 | after close() no dial starts and whatever was dialing or open is told to close |
| GatewayRuns.TeardownsRunExactlyOnce | src/kpsGateway.ts:192-201 | a callback runs at most once; not removed and its connection gone, it has run or is queued |
| GatewayRuns.ClosingRunsWhatIsRegistered | src/kpsGateway.ts:173-178 | when a connection closes, each callback still registered with it runs |
| GatewayRuns.LateTeardownRuns | src/kpsGateway.ts:194-198 | a callback registered on a dead connection is queued, and stays queued until it runs |
| GatewayRuns.CanSettle | src/kpsGateway.ts:158-201 | from every moment of every run the gateway can come to rest; every callback has then run exactly once, or was removed and did not |
| KpsGateway.KpsGateway.Connection | src/kpsGateway.ts:158-190 | one step of the machine: throws exactly when closed, shares the attempt, or starts one if there is none |
| KpsGateway.KpsGateway.OnDialed | src/kpsGateway.ts:168-181 | one step: the connection is open with an empty registry, and a requested close goes out |
| KpsGateway.KpsGateway.OnDialFailed | src/kpsGateway.ts:182-185 | one step: forgotten only if current |
| KpsGateway.KpsGateway.OnClosed | src/kpsGateway.ts:173-178 | one step: forgotten only if current, registry dropped, its callbacks run |
| KpsGateway.KpsGateway.AddTeardownFor | src/kpsGateway.ts:192-201 | one step: registered, or queued when the connection is gone |
| KpsGateway.KpsGateway.Shutdown | src/kpsGateway.ts:345-352 | one step: closed for good; the current attempt, and no other, is closed now or when it lands |
| GatewayExchange.FindHeadEnd | src/kpsGateway.ts:85-92 | the first blank line, or -1 exactly when there is none |
| GatewayExchange.ReadHead | src/kpsGateway.ts:54-83 | succeeds exactly when a blank line can be read and the status line in front of it parses; head and extra bytes conserve the stream |
| GatewayExchange.Fetch | src/kpsGateway.ts:214-252 | the response is a function of the bytes that can be read and of how reading ends, however they are cut; an error yields none, a teardown counts as a clean end |
| GatewayExchange.StatusLineIff | src/kpsGateway.ts:60-62 | a status line is accepted exactly when it is the version, three digits, white space and a reason on one line, and those are what is read |
| GatewayExchange.StatusIff | src/kpsGateway.ts:60-62 | a head has a code and a reason if and only if its text up to the first line end is the version, three digits, white space and that reason on one line |
| GatewayExchange.UsualHead | src/kpsGateway.ts:60-62 | version, code and plain reason with one space between are read as that code and reason |
| GatewayExchange.BodyIsWholeIff | src/kpsGateway.ts:219-248 | when a response is reported, for every teardown; its body is a prefix of the peer's, and the whole of it exactly when the teardown left nothing unread |
| GatewayExchange.TruncatedBodySucceeds | src/kpsGateway.ts:241-248 | a connection that dies inside the body yields the part read as a success |
| Shuffle.Shuffle | src/socketProvider.ts:70-77 | the loop computes Fisher-Yates of the input under the choices drawn, on a copy |
| Shuffle.ShufflePermutes | src/socketProvider.ts:70-77 | the items are kept |
| Shuffle.ShuffleIsInjective | src/socketProvider.ts:70-77 | different choices give different orders of distinct items |
| Shuffle.EveryOrderIsReached | src/socketProvider.ts:70-77 | every order of distinct items comes from some choices |
| Shuffle.NoOrderTwice | src/socketProvider.ts:70-77 | and from exactly one sequence of choices |
| GatewaySelection.CandidatesCoverAll | src/socketProvider.ts:270-287 | each configured gateway is a candidate exactly once |
| GatewaySelection.ReadyComeFirst | src/socketProvider.ts:270-287 | no cooling gateway comes before a ready one |
| GatewaySelection.HeadIsLeastLoaded | src/socketProvider.ts:276-278 | the first candidate is among the first two ready ones, and the stable least-loaded of them |
| GatewaySelection.LaterCandidates | src/socketProvider.ts:279-286 | beyond the preferred set, ready ones keep their order and cooling ones come soonest-ready first |
| GatewaySelection.CooldownGrows | src/socketProvider.ts:295-300 | the cooldown never shrinks with further failures and never exceeds its maximum |
| GatewaySelection.CooldownBounds | src/socketProvider.ts:295-300 | the pause is between half the cooldown and all of it, and ends at most cooldownMaxMs after the failure |
| GatewayConnects.LoadAndCooldown | src/socketProvider.ts:358-386 | in every interleaving a gateway's load is its running attempts plus open tunnels, and its cooldown ends within the maximum of its latest failure |
| GatewayConnects.PauseAfterFailures | src/socketProvider.ts:290-301 | over all runs, after n failures of a gateway since its last success it pauses between half and all of base doubled n - 1 times, capped, behind the latest one, and not at all after a success |
| GatewayConnects.FirstChoice | src/socketProvider.ts:358-372 | whatever runs beside it, an operation asks first the least loaded of the first two gateways that were ready when it began |
| GatewayConnects.ServedByAny | src/socketProvider.ts:358-386 | from every moment of every run a new operation can begin, and any of its candidates can be the one that serves it, whichever fail before |
| GatewayConnects.OneTargetOneTry | src/socketProvider.ts:358-386 | an operation asks each gateway at most once, always for its own target |
| GatewayConnects.GivesUpOnlyAfterAll | src/socketProvider.ts:367-385 | it fails only after every gateway was asked |
| GatewayConnects.NoLoadLeaks | src/socketProvider.ts:373-381 | with nothing running and no tunnel open every load is 0 |
| TunnelTracker.CountersNeverUnderflow | crates/tor-js-gateway/src/tunnel.rs:81-131 | every decrement finds its counter positive, and no address passes its limit |
| TunnelTracker.TotalOvershoot | crates/tor-js-gateway/src/tunnel.rs:86-104 | with at most n overlapping acquires the total stays within max_tunnels + n - 1 |
| TunnelTracker.ConnOvershoot | crates/tor-js-gateway/src/tunnel.rs:86-104 | the same for one connection's counter and the acquires overlapping on it |
| TunnelTracker.QuiescenceIsEmpty | crates/tor-js-gateway/src/tunnel.rs:107-131 | when all calls and guards are gone every counter is 0, and the map is empty for a positive per-address limit |
| TunnelLimits.TotalReachableIff | crates/tor-js-gateway/src/tunnel.rs:86-104 | for all limits and n, runs with at most n overlapping acquires reach a total exactly up to the peak: max_tunnels + n - 1, or 0 when a limit is 0 |
| TunnelConnLimits.ConnReachableIff | crates/tor-js-gateway/src/tunnel.rs:86-131 | for all limits, peer addresses and n, runs with at most n acquires overlapping on a connection bring its counter exactly up to per_conn + n - 1, or 0 when a limit is 0 |
| TunnelLimits.MapEmptiesIff | crates/tor-js-gateway/src/tunnel.rs:92-99 | for all limits, the address map is empty in every quiescent state of every run if and only if the address limit is positive or an earlier check refuses everyone |
| TunnelLimits.RefusedEntryStays | crates/tor-js-gateway/src/tunnel.rs:92-99 | a run that leaves a refused address in the map, for the limits left |
| TunnelLimits.OwnLimitsEmptyTheMap | crates/tor-js-gateway/src/config.rs:183-187 | with the limits of the gateway's configuration the map always empties |
| ConnectionTracker.ConnectionTracker.Acquire | crates/tor-js-gateway/src/tunnel.rs:81-105 | a slot exactly when all three counters are below their limits, else every count keeps its value; the machine's steps run by one thread alone |
| ConnectionTracker.ConnectionTracker.Drop | crates/tor-js-gateway/src/tunnel.rs:107-131 | all three counters go down by one, an address at 0 leaves the map |
| ConnectionTracker.AcquireThenDrop | crates/tor-js-gateway/src/tunnel.rs:81-131 | a slot taken and given back leaves the counts as they were |
| TunnelRelay.StepIsFaithful | crates/tor-js-gateway/src/tunnel.rs:358-409 | every step conserves the bytes of both directions |
| TunnelRelay.RelayDelivers | crates/tor-js-gateway/src/tunnel.rs:358-409 | each side has received a prefix of what the other sent; a FIN goes out only behind everything; Ok means both sides are complete |
| TunnelRelay.WrittenOnlyGrows | crates/tor-js-gateway/src/tunnel.rs:358-409 | nothing written is taken back and nothing happens after the end |
| TunnelRelay.CanFinish | crates/tor-js-gateway/src/tunnel.rs:358-409 | from every moment of every run on which nothing failed, the relay can still deliver everything and end well |
| TunnelRelay.Pump | crates/tor-js-gateway/src/tunnel.rs:373-386 | what the sink takes of the source's bytes arrives, and the loop ends without error exactly when that is all of them and the source ended cleanly |
| JsProxyStream.JsProxyStream.PollRead | crates/tor-js-wasm/src/runtime.rs:325-406 | bytes are neither lost, repeated nor reordered; leftovers and an outstanding read never coexist; the end is final |
| JsProxyStream.JsProxyStream.PollMany | crates/tor-js-wasm/src/runtime.rs:325-406 | over any polls the bytes returned are a prefix of what JavaScript delivers |
| JsProxyStream.JsProxyStream.PollPendingWrite | crates/tor-js-wasm/src/runtime.rs:413-425 | pending exactly while a write is outstanding; success with none outstanding, and a new rejection is reported |
| JsProxyStream.JsProxyStream.PollWrite | crates/tor-js-wasm/src/runtime.rs:429-450 | a buffer is accepted whole, and only once everything before it settled |
| JsProxyStream.JsProxyStream.PollClose | crates/tor-js-wasm/src/runtime.rs:456-479 | close() is issued once, behind everything written; its rejection is reported by the poll that meets it and by no later one, so success means it settled without one exactly when no earlier poll met one |
| JsProxyStream.RejectedCloseSucceedsLater | crates/tor-js-wasm/src/runtime.rs:456-479 | a rejected close: one poll fails, the next succeeds |
| StoredZip.ParseStoredZip | crates/tor-js-wasm/src/fast_bootstrap.rs:168-228 | the loop over offsets computes the member-by-member meaning of the archive, with every slice in range and no sum past its type |
| StoredZip.ReadMember | crates/tor-js-wasm/src/fast_bootstrap.rs:173-224 | one turn reads the member at the offset, or the reason it cannot |
| StoredZip.FrontMember | crates/tor-js-wasm/src/fast_bootstrap.rs:173-224 | a member takes at least a header and lies inside the data |
| StoredZip.FrontEntry | crates/tor-js-wasm/src/fast_bootstrap.rs:173-224 | a serialised member is read back as that member, or refused for its method, name or content, whatever follows |
| StoredZip.MembersInFront | crates/tor-js-wasm/src/fast_bootstrap.rs:173-224 | readable members are taken off the front one by one whatever follows; the first one refused ends the parse with its own error |
| StoredZip.ParseInvertsArchive | crates/tor-js-wasm/src/fast_bootstrap.rs:168-228 | parsing a serialised archive gives its last-wins map, or the error of the first member refused |
| StoredZip.DeclaredEndPastData | crates/tor-js-wasm/src/fast_bootstrap.rs:196-212 | a member behind any readable ones whose declared end is past the data is Truncated, however large |
| StoredZip.LastMemberWins | crates/tor-js-wasm/src/fast_bootstrap.rs:216-221 | there is a map exactly when every member is readable; a name has the content of the last member so named |
| StoredZip.CutArchive | crates/tor-js-wasm/src/fast_bootstrap.rs:172-210 | an archive cut inside a member is an error behind its header; inside the header the members in front of it are the result |
| Microdescs.SplitMicrodescs | crates/tor-js-wasm/src/fast_bootstrap.rs:373-396 | the two loops compute the slices between markers, trimmed but for one character |
| Microdescs.FindMarkers | crates/tor-js-wasm/src/fast_bootstrap.rs:376-381 | the positions of all markers, in order, without overlap |
| Microdescs.PositionsAreStarts | crates/tor-js-wasm/src/fast_bootstrap.rs:376-381 | the markers found in joined documents are exactly the starts of the documents |
| Microdescs.SliceIsDocument | crates/tor-js-wasm/src/fast_bootstrap.rs:384-396 | one slice is one document, whatever white space follows it |
| Microdescs.SplitUndoesJoin | crates/tor-js-wasm/src/fast_bootstrap.rs:373-396 | splitting joined documents, blank lines between them allowed, gives the documents back |
| MicrodescPanics.PanicsIff | crates/tor-js-wasm/src/fast_bootstrap.rs:384-396 | for every text, the splitter panics if and only if, behind some marker, the white space in front of the next marker or the end begins with a character of several bytes |
| MicrodescPanics.NoBreakSpacePanics | crates/tor-js-wasm/src/fast_bootstrap.rs:384-396 | a document followed by a no-break space makes it panic |
| MicrodescJson.EscapeContent | crates/tor-js-wasm/src/fast_bootstrap.rs:429-440 | the loop escapes byte by byte |
| MicrodescJson.ReadUndoesEscape | crates/tor-js-wasm/src/fast_bootstrap.rs:429-440 | a JSON reader gets the bytes back exactly when the only control characters are CR and LF |
| MicrodescJson.StoredTextIff | crates/tor-js-wasm/src/fast_bootstrap.rs:429-444 | the stored string decodes to the text if and only if it is ASCII without other control characters |
| MicrodescJson.AccentIsNotReadBack | crates/tor-js-wasm/src/fast_bootstrap.rs:429-444 | the two bytes of one accented letter are not read back as that letter |
| MicrodescStore.MicrodescStore.Missing | crates/tor-js-gateway/src/store/microdesc.rs:58-64 | the wanted digests that are not stored, in order |
| MicrodescStore.AbsentPicks | crates/tor-js-gateway/src/store/microdesc.rs:58-64 | what is missing is what is wanted at exactly the positions of digests not stored, in order |
| MicrodescStore.MicrodescStore.Ingest | crates/tor-js-gateway/src/store/microdesc.rs:68-94 | stored texts stay, new digests get the first text seen, the count is of new entries |
| MicrodescStore.MicrodescStore.Retain | crates/tor-js-gateway/src/store/microdesc.rs:97-105 | nothing unwanted stays, texts are unaltered, and what is missing of the wanted digests is what was missing before; the count is of the wanted ones that were there |
| MicrodescStore.MicrodescStore.ToConcatenated | crates/tor-js-gateway/src/store/microdesc.rs:113-119 | all texts joined in the map's order |
| MicrodescStore.StoreRoundTrip | crates/tor-js-gateway/src/store/microdesc.rs:113-119 | the client's splitter recovers exactly the store's texts, in whatever order they were written |
| MirrorPaths.ParseObjectPathIff | crates/tor-js-gateway/src/keccak_mirror.rs:624-627 | a path parses to a hash if and only if it is that hash's path |
| MirrorPaths.ObjectsAre | crates/tor-js-gateway/src/keccak_mirror.rs:634-667 | a hash is among the scanned objects exactly when a regular file lies in its place |
| MirrorPaths.TmpIsNoObject | crates/tor-js-gateway/src/keccak_mirror.rs:450-458 | a temporary file is always scanned as a stray, never as an object |
| MirrorPaths.PlacesAreApart | crates/tor-js-gateway/src/keccak_mirror.rs:445-458 | no two hashes share an object or temporary place |
| Mirror.ListedAre | crates/tor-js-gateway/src/keccak_mirror.rs:523-531 | the objects listed are exactly the blobs filed under hash paths |
| Mirror.WantedIff | crates/tor-js-gateway/src/keccak_mirror.rs:330-344 | the wanted hashes are exactly those of listed blobs within the size cap |
| Mirror.IgnoredCount | crates/tor-js-gateway/src/keccak_mirror.rs:330-344 | what the branch contributes to the ignored count is the number of entries that are no blob under a hash path or are over the cap |
| Mirror.Mirror.Tree | crates/tor-js-gateway/src/keccak_mirror.rs:482-532 | refused exactly when missing, truncated or too long; every other entry is listed or counted as ignored |
| Mirror.Mirror.SelectWanted | crates/tor-js-gateway/src/keccak_mirror.rs:330-344 | the objects within the cap are wanted, the others counted |
| Mirror.Mirror.ScanObjects | crates/tor-js-gateway/src/keccak_mirror.rs:634-667 | every place is reported as an object or as a stray |
| Mirror.Mirror.FetchObject | crates/tor-js-gateway/src/keccak_mirror.rs:414-461 | lands exactly when some content within the cap that hashes to the name is sent, announced within the cap or not at all, and the disk allows; then the place holds that content; touches only its own two places, and the object's place only on success |
| Mirror.HonestDownloadLands | crates/tor-js-gateway/src/keccak_mirror.rs:414-461 | content that hashes to the name, fits the cap and is announced with its own length or not at all lands wherever the path can be written |
| Mirror.OnlyHonestDownloadsLand | crates/tor-js-gateway/src/keccak_mirror.rs:428-443 | a length announced above the cap, content over the cap or content with another hash never lands |
| Mirror.Mirror.FetchObjects | crates/tor-js-gateway/src/keccak_mirror.rs:400-412 | each missing object fares as if it were the only one; the count is of those that landed |
| Mirror.Mirror.PruneStale | crates/tor-js-gateway/src/keccak_mirror.rs:360-370 | exactly the stale objects that could be unlinked are gone and counted |
| Mirror.Mirror.Apply | crates/tor-js-gateway/src/keccak_mirror.rs:346-382 | after a sync the objects are the old wanted ones, the fetched ones and the stale ones that would not go |
| Mirror.Mirror.Reconcile | crates/tor-js-gateway/src/keccak_mirror.rs:325-396 | a sync without head, listing or readable directory changes nothing; any other reconciles and reports what it did |
| Mirror.CountsBalanceIff | crates/tor-js-gateway/src/keccak_mirror.rs:384-392 | reported objects are old + added - removed less the downloads cleared away as strays, so they balance if and only if there were none |
| MirrorPromises.BalancesIff | crates/tor-js-gateway/src/keccak_mirror.rs:371-392 | for every hash function, directory and branch, the counts balance and no download is lost in every world if and only if no wanted place is exposed whose object could be downloaded |
| MirrorPromises.NothingChangedIff | crates/tor-js-gateway/src/keccak_mirror.rs:385-392 | a sync that reports no change left the objects as they were; disk and branch agreed if and only if no download and no unlink failed, as the other counts tell |
| MirrorPromises.UnchangedThoughMissing | crates/tor-js-gateway/src/keccak_mirror.rs:392 | a branch with one object, an empty directory and a failed download: no change is reported, and they differ |
| MirrorPromises.KeepsOldIff | crates/tor-js-gateway/src/keccak_mirror.rs:350-351 | what was served stays when fetching fails, in every world, if and only if there was nothing to fetch or nothing to drop |
| MirrorPromises.FailureKeepsIff | crates/tor-js-gateway/src/keccak_mirror.rs:325-396 | for every directory, branch and failure pattern, a sync that ends in an error keeps every object in every world if and only if it was refused, the directory can be read again, or the branch still holds all that is on disk |
| MirrorPromises.FailureEmpties | crates/tor-js-gateway/src/keccak_mirror.rs:384 | an emptied branch and a directory that cannot be read again: everything goes and the sync fails |
| Mirror.AllIoGivesWanted | crates/tor-js-gateway/src/keccak_mirror.rs:325-396 | when the server is honest, all I/O works and no stray lies in a place, the directory ends with exactly the wanted objects |
| Mirror.ReconcileKeepsHashes | crates/tor-js-gateway/src/keccak_mirror.rs:437-443 | a sync keeps every object hashing to its name |
| MirrorRuns.StepKeepsInv | crates/tor-js-gateway/src/keccak_mirror.rs:414-461 | every step keeps: objects vouched for, what is renamed is whole and checked, answers vouched for |
| MirrorRuns.OnlyOldFilesCanBeWrong | crates/tor-js-gateway/src/keccak_mirror.rs:414-461 | over all interleavings and crashes, anything stored or served under a hash has that hash or lay there from the start |
| MirrorRuns.ObjectsAndAnswersHash | crates/tor-js-gateway/src/routes.rs:172-212 | from an honest directory every object and every answer hashes to its name, although cached hashes are not rechecked |
| MirrorRuns.WantedLostIff | crates/tor-js-gateway/src/keccak_mirror.rs:354-382 | the only step of a sync that takes a wanted object away is clearing its own place as a stray |
| MirrorRuns.NothingGoesBeforeFetchesDone | crates/tor-js-gateway/src/keccak_mirror.rs:350-352 | until the fetches are done every object on disk, stale ones included, is there at every moment, crashes included |
| MirrorRuns.NoWantedObjectLost | crates/tor-js-gateway/src/keccak_mirror.rs:354-382 | at every moment of a guarded sync, crashes included, each wanted object that was there or was fetched is there |
| MirrorRuns.BeginGuardedIff | crates/tor-js-gateway/src/keccak_mirror.rs:346-348 | a sync starts guarded exactly when no wanted place is exposed whose object could be downloaded |
| MirrorRuns.CanEnd | crates/tor-js-gateway/src/keccak_mirror.rs:346-412 | a sync can end from every moment even if all that is left of it fails, and then the directory stays as it is |
| MirrorRuns.CrashForgets | crates/tor-js-gateway/src/routes.rs:172-212 | behind a crash a new sync can begin, and the first answer for each hash is checked against the file as it is then |
| MirrorSchedules.ExposedIsLost | crates/tor-js-gateway/src/keccak_mirror.rs:371-382 | from any directory with an exposed wanted place and a good download, a run fetches the object and clears it away |
| MirrorSchedules.NeverLosesIff | crates/tor-js-gateway/src/keccak_mirror.rs:354-382 | for every hash function, directory and branch, no run of the sync loses a wanted object if and only if no wanted place is exposed whose object could be downloaded |
| MirrorSchedules.WrongFileIsServed | crates/tor-js-gateway/src/routes.rs:182-201 | from any directory with a mismatching file whose name has a good download, a run serves the mismatching bytes |
| MirrorSchedules.AllAnswersHashIff | crates/tor-js-gateway/src/routes.rs:172-212 | from any directory, all answers of all runs hash to their names if and only if every mismatching file has a name no download could match |
| MirrorSyncs.SyncFormula | crates/tor-js-gateway/src/keccak_mirror.rs:346-412 | at every moment of every sync, downloads in any order and crashes included, the objects are the old wanted ones, those renamed in and not cleared, and the stale ones not yet dropped |
| WorkerBundles.BundleServer.Serve | crates/tor-js-gateway/src/routes.rs:172-212 | the file's bytes exactly when the path is a hash path, the file is there and is cached or checks; only then the hash is cached |
| SyncThrottle.TriggersAreRateLimited | crates/tor-js-gateway/src/keccak_mirror.rs:270-303 | at most one sync runs; stamps are a window apart whatever became of their syncs; n triggered syncs take at least n - 1 windows |
| SyncThrottle.OnlyPassingTriggersStamp | crates/tor-js-gateway/src/keccak_mirror.rs:276-287 | only a trigger that passes the window moves the stamp |
| SyncThrottle.TriggerPassesIff | crates/tor-js-gateway/src/keccak_mirror.rs:270-287 | over all runs, a trigger passes exactly when no disabling came before it and it is the first to pass or the window since the latest stamp is over |
| SyncThrottle.PassedTriggerSyncs | crates/tor-js-gateway/src/keccak_mirror.rs:289-297 | a trigger that passed syncs exactly when no other sync holds the lock, and else is told so |
| SyncThrottle.PollSyncs | crates/tor-js-gateway/src/keccak_mirror.rs:299-303 | a poll can sync exactly when nobody does, uses up no window, and frees the lock at its end |
| SyncThrottle.RetryAfterSuffices | crates/tor-js-gateway/src/routes.rs:122-136 | a client is throttled exactly until the remaining time is over, and the seconds it is told exceed that by at most one |
| SyncThrottle.SyncGate.Check | crates/tor-js-gateway/src/keccak_mirror.rs:270-287 | disabled exactly when the gate is; passes exactly when it is enabled and no stamp was made or the interval is over; else throttled for exactly the rest of it; stamps exactly the attempts that pass |
| KeyMangling.MangleKey | src/storage/filesystem.ts:15-32 | the loop computes the encoding |
| KeyMangling.UnmangleKey | src/storage/filesystem.ts:39-69 | the loop computes the decoding |
| KeyMangling.UnitDecodes | src/storage/filesystem.ts:42-62 | one encoded unit decodes to itself whatever follows, although the longer escape is tried first |
| KeyMangling.RoundTrip | src/storage/filesystem.ts:15-69 | every string of UTF-16 units survives the trip |
| KeyMangling.MangleIsInjective | src/storage/filesystem.ts:15-32 | two keys never share a file |
| KeyMangling.MangledIsSafe | src/storage/filesystem.ts:15-32 | file names consist of letters, digits and underscores |
| KeyNames.MangledForm | src/storage/filesystem.ts:9-32 | letters and digits pass through; every other unit becomes its hexadecimal number between underscores, two digits up to 255 and four above |
| KeyNames.UnmangleIs | src/storage/filesystem.ts:39-69 | any file name decodes from the front: an escape, in either letter case, to its unit, everything else to itself |
| Listings.ListingIsUnique | src/storage/filesystem.ts:148-151 | a sorted listing of a set of keys is determined by the set |
| Listings.LessIff | src/storage/filesystem.ts:148-151 | the order is by the first different unit; a key comes before those it is the beginning of |
| FilesystemStorage.WritingAFile | src/storage/filesystem.ts:126-130 | writing the mangled file is writing the key for reads, and adds the key to listings, and nothing else |
| FilesystemStorage.AgreeIff | src/storage/filesystem.ts:143-175 | for any directory, the keys listed under a prefix are those that can be read if and only if each listed name's key has its own file |
| FilesystemStorage.ListedOnceIff | src/storage/filesystem.ts:143-156 | a listing is the plain map's own, each key once, if and only if every name under the prefix is the encoding of its key |
| FilesystemStorage.WritesKeepListedOnce | src/storage/filesystem.ts:126-141 | writes and removals keep that |
| FilesystemStorage.LockDisturbsIff | src/storage/locking.ts:62-68 | the lock file makes listings and reads disagree exactly on prefixes of its name, unless a key of that name is stored |
| FilesystemStorage.LockIsListedUnread | src/storage/locking.ts:62-68 | a directory with the lock file only: one key is listed and none can be read |
| FilesystemStorage.FilesystemStorage.Get | src/storage/filesystem.ts:115-124 | reads of any directory are reads of the map of decoded files; the empty key is an error |
| FilesystemStorage.FilesystemStorage.Set | src/storage/filesystem.ts:126-130 | the map with the key set, and the key listed; the empty key is an error that changes nothing |
| FilesystemStorage.FilesystemStorage.Delete | src/storage/filesystem.ts:132-141 | the map without the key, whether or not it was there; the empty key is an error |
| FilesystemStorage.FilesystemStorage.Keys | src/storage/filesystem.ts:143-156 | sorted, one key for every name in the directory that decodes to a key with the prefix |
| FilesystemStorage.FilesystemStorage.GetAll | src/storage/filesystem.ts:158-175 | exactly the entries with the prefix that reads find |
| LockingOverlay.LockedStorage.Get | src/storage/locking.ts:134-137 | reads see the inner map overridden by writes and tombstones |
| LockingOverlay.LockedStorage.Set | src/storage/locking.ts:139-145 | visible at once; in degraded mode the inner store is untouched |
| LockingOverlay.LockedStorage.Delete | src/storage/locking.ts:147-153 | gone at once; in degraded mode the inner store is untouched |
| LockingOverlay.LockedStorage.Keys | src/storage/locking.ts:155-165 | the sorted keys of the overridden listing, each once in degraded mode |
| LockingOverlay.LockedStorage.GetAll | src/storage/locking.ts:167-177 | the entries of the overridden map |
| LockingOverlay.OverlayAgreesIff | src/storage/locking.ts:155-177 | listings and reads through the overlay agree under a prefix if and only if each listed name there whose key the overlay does not decide has that key's own file |
| LockingOverlay.LockedStorage.TryLock | src/storage/locking.ts:179-187 | false only for the holder; without the real lock the view is kept, with it the overlay is dropped and the lock file appears among the stored ones, which no read sees |
| LockingOverlay.LockedStorage.Unlock | src/storage/locking.ts:189-193 | back to the shared store; the holder's lock file goes, and no read changes |
| WriteBehind.ReadsSeeLastWrite | crates/tor-js-wasm/src/storage.rs:338-386 | reads are the preload overwritten by every write issued, whatever the background tasks do |
| WriteBehind.StoreCatchesUp | crates/tor-js-wasm/src/storage.rs:258-320 | once drained, store and cache agree on every key last written while no batch still owed it |
| WriteBehind.SettledIff | crates/tor-js-wasm/src/storage.rs:278-320 | every schedule of the queued tasks leaves the store right about a key if and only if the key is settled |
| WriteBehind.WriteSettles | crates/tor-js-wasm/src/storage.rs:278-310 | a write settles its key unless a batch still owes the key another value |
| WriteBehind.OvertakenWriteCanBeLost | crates/tor-js-wasm/src/storage.rs:290-310 | overwriting a key a running batch still owes can lose the new value for good |
| WriteBehind.LostFromTheStart | crates/tor-js-wasm/src/storage.rs:290-310 | from any preloaded store, three steps lead to a state that can lose the newer value |
| WriteBehind.BackgroundIsBounded | crates/tor-js-wasm/src/storage.rs:278-320 | without new writes no schedule is longer than the work left |
| CachedJsStorage.CachedJsStorage.constructor | crates/tor-js-wasm/src/storage.rs:214-272 | the cache starts as the store's "state:" and "dir:" entries |
| CachedJsStorage.CachedJsStorage.Get | crates/tor-js-wasm/src/storage.rs:338-344 | the last write of the key since start-up; before any, what the store held at start-up if the key begins with "state:" or "dir:"; whatever the background tasks have done |
| CachedJsStorage.CachedJsStorage.Set | crates/tor-js-wasm/src/storage.rs:346-359 | one write step: the key in the cache now, one task for later |
| CachedJsStorage.CachedJsStorage.Delete | crates/tor-js-wasm/src/storage.rs:361-374 | one write step: the key out of the cache now, one task for later |
| CachedJsStorage.CachedJsStorage.SetMany | crates/tor-js-wasm/src/storage.rs:290-310 | one write step: all entries over the cache, the last of a key winning, and one task for the batch |
| CachedJsStorage.CachedJsStorage.Keys | crates/tor-js-wasm/src/storage.rs:376-386 | the cached keys with the prefix, each once |

## Left out

- TLS, certificate checks, Tor circuits and directory logic, KPS, WebRTC and QUIC transports, hyper, axum and reqwest: only their byte streams and outcomes appear.
- BodyReader.BodyReader.ReadChunkEof: does not model the wrap-around of the byte counter of a close-delimited body past 4 GiB.
- ByteStream: a stream is its bytes followed by an end or an error; an error that is followed by more data is not modelled. A writer takes bytes up to one limit and fails from there on.
- HeadFraming: header names are lower-cased as ASCII; other letters with a lower-case form are left alone.
- RequestHead: URL parsing, the lookup of the browser's user agent and the UTF-8 encoding of the head (a parameter of the exchange) are not part of this model; header order is the map's.
- RequestMeaning.RequestMeans: takes a target without spaces, as URLs have them, and callers' names without colons and without white space at their ends; what other names do is said by RequestMeaning.KeptReadBack and RequestHeadReading.FramingReadsBackIff.
- RequestHeadReading.RequestHeadReadsBack: takes from the URL parser, the method type and the browser that their strings hold no CR or LF.
- GatewayExchange: the record of response headers, UTF-8 decoding (a parameter), abort signals and the CONNECT set-up are not modelled.
- GatewaySelection: floating-point overflow of the exponential cooldown, and NaN for a base of 0, are not modelled; jitter is any real from 0 up to 1.
- GatewayConnects: the direct strategy, dial timeouts and the error texts are not modelled.
- TunnelRelay: when the timers fire is a choice of the environment; a failed shutdown of a half is ignored, as in the code.
- MicrodescJson.ReadUndoesEscape: the reader does not know the \u form, which the writer never uses.
- MicrodescStore: the parser that cuts a response into microdescriptors and hashes them is not part of this model; its results are parameters.
- StoredZip: zstd decompression of the archive, consensus diffs and the consensus and certificate stores are not modelled.
- Mirror: the state file, log lines, timestamps, HTTP status handling of the API and unreadable shard directories are not modelled; something that is no file in a temporary place counts as a failed write; one reconcile fetches one object at a time, in any order (MirrorSyncs ties it to concurrent fetches).
- MirrorRuns: two processes on one directory, and files changed by others while the mirror runs, are not modelled.
- SyncThrottle: jitter and sleeping of the poll loop are not modelled; the clock is monotone.
- FilesystemStorage: sub-directories, limits on name lengths, file systems that ignore letter case, values that are not valid UTF-16, and directory creation are not modelled.
- LockingOverlay.LockedStorage.TryLock: whether the real lock is acquired (Web Locks, a fresh or stale lock file) is a parameter; the heartbeat and calls that interleave inside the awaits are not modelled.
- WriteBehind: each JavaScript set or delete takes effect when it is called; rejected ones are not modelled.
- CachedJsStorage: the JavaScript lock taken at start-up and the release on drop are not modelled.
- The random relay route, metadata, the command line, service installation and the website are left out: single-branch code that would add only easy members.
