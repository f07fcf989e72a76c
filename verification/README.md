# Verified models of lis

This project models, in Dafny, the six parts of the `lis` repository whose
behaviour is hardest to see from reading one function, and proves what they
promise about each other. Every module has a reference meaning next to the code:
a cut of a byte stream, a list of path segments, a step system, a CSV reader, a
lookup by path. Code that changes state in place is a class or a method with
loops, proved against that meaning.

- **li-httpd** (`HttpScan`, `HttpHost`, `HttpServe`, `HttpRelay`). A keep-alive
  connection cuts what it receives into requests and serves them. `HttpHost` is
  the runtime below it: receives, sends, buffers, files, sockets, epoll and slots
  may succeed or fail at every call, and what is held is tracked; a client's receives
  and the results of the calls made for it are inputs. Proved for every split of the
  client's bytes into receives: the requests served are the unique cut of the whole
  stream, up to the first one that closes or whose answer fails; sockets, slots
  and epoll agree after any run of wake-ups; buffers and files are given back on
  every path. The reverse-proxy relay is a resumable machine over the chunks the
  upstream sends, the wake-ups, and what other slots store in the shared header
  cache between them; what it owes the client is a function of these, and what it
  has sent is a first part of that, and all of it when it succeeds.
- **Route DSL** (`Paths`, `Routes`). String tests on normalised paths are shown to be
  prefix tests on segment lists; from this follow which routes can never match,
  when the overlap check agrees with the matcher, and that file order decides.
- **Realtime** (`Realtime`, `RealtimeProofs`, `RealtimeServer`, `RealtimeDeployment`).
  Log append, poll, dispatch, drain, connect, join, leave and disconnect as a step
  system; in every interleaving each subscription is sent exactly the matching,
  permitted events drained while it stayed joined. The server and feed objects
  refine the steps.
- **Registry** (`Dicts`, `Registry`, `RegistryStore`). The mock store as a write-through
  state machine, and the object that implements it by changing records in place.
- **CSV export** (`Csv`). The printer against a reader by section 2 of RFC 4180, with LF
  as the record break.
- **Config merge** (`TomlMerge`, `SetArgs`). Table merge by path lookup, and
  `parse_set_args` on a heap of mutable dictionaries.

## Where the code and a plain reading differ

- A relay that already has a cached response header drops the body bytes that
  arrive in the same receive as the end of the upstream's header, although it
  counts them as sent. The client has the response if and only if the upstream
  repeated that header and a receive ended with it or there is no body
  (`CachedRelayIff`; a response that arrives in one receive, `CachedRelayDrops`).
  Without a cached header, a first receive that runs past the response is sent in
  full, and one that ends inside the header fails the relay (`ParsedRelayIff`,
  `ParsedRelayOversends`).
- While a slot counts header bytes, another slot may store a new header. The one held
  at the wake-up that ends the counting is sent (`CountingEnds`, `CountedExactIff`). If it
  is no longer than what was counted before, the counted bytes are parsed instead, and the
  receive that came last is skipped (`SkippedExactIff`, `ChangedCacheSkips`).
- `conn_close` skips `epoll_ctl_del` for descriptor 0, so a closed socket is not
  deregistered by the server then, and only then (`ConnClose`). The kernel drops the
  registration of a closed descriptor by itself; it is the server's own bookkeeping
  of registrations that differs.
- The test for `Connection: close` looks for a `c` anywhere after any header-like
  position; `KeepAliveMisreadIff` says when a keep-alive request is closed, and
  `KeepAliveMisread` shows one. It hears the spelling `Connection: close`, and not
  `connection: close` (`LowerCaseCloseIsMissed`), although field names are
  case-insensitive (section 5.1 of RFC 9110).
- `docs/realtime.md` states a row policy by role. The code departs from it in exactly two
  cases, and lets the row through in both (`PolicyAgreesIff`): an anonymous session
  reads an owned row if it has no publisher claim (`AnonymousReadsEveryRow`) or that of the
  owner (`AnonymousReadsByClaim`), and a session of a role the table does not know reads
  by its claim (`UnknownRoleReadsByClaim`).
  The `filter` of a subscription is stored and never read.
- Coverage NaN passes the publish check (`NaNCoverageIsAccepted`); every other stored
  coverage is at least 80 (`CoverageIffNotNaN`).
- The overlap check misses an exact path below a prefix
  (`OverlapAgreesWithMatching`, `ExactUnderPrefixIsMissed`). It treats `*` as any method
  and the matcher does not (`OverlapIsSharedIff`), but no key gives a route
  that method: on desugared tables of normalised paths every reported overlap is
  shared (`DesugaredOverlapIsShared`).
- A one-column export with an empty last row reads back one row short
  (`CsvRoundTripIff`).
- `deep_merge` is not associative when a scalar layer lies between two tables
  that do not cover each other (`AssociativeIff`).

## Model

| member | source | states |
|---|---|---|
| HttpScan.HdrEndAt | packages/li-httpd/src/lib.li:4-18 | the end of the first CRLFCRLF within the limit, or -1; reads stay inside the limit |
| HttpScan.HeaderEndIff | packages/li-httpd/src/lib.li:4-18 | a block ends behind the first bytes 13 10 13 10, and has no end iff there are none |
| HttpScan.HeaderEndStable | packages/li-httpd/src/lib.li:4-18 | a complete block is found at the same place whatever bytes follow it |
| HttpScan.FramesConserve | packages/li-httpd/src/lib.li:271-287 | cutting a stream loses no byte and every request is exactly one block of at least 4 bytes |
| HttpScan.FramesUnique | packages/li-httpd/src/lib.li:271-287 | there is only one way to cut a stream into blocks and an incomplete rest |
| HttpScan.FramesResume | packages/li-httpd/src/lib.li:346-354 | cutting may stop after any received part and go on with the leftover |
| HttpHost.StreamOfParts | packages/li-httpd/src/lib.li:334-340 | every way of splitting a client's bytes into receives sends the same stream |
| HttpHost.AfterBlockIs | packages/li-httpd/src/lib.li:334-340 | a wake-up's receives end at the first that would block |
| HttpScan.BufHasConnectionClose | packages/li-httpd/src/lib.li:20-35 | 1 exactly if some 'C' with ':' ten bytes on is followed by a 'c' in the header |
| HttpScan.LooksLikeCloseIff | packages/li-httpd/src/lib.li:20-35 | the same test on the three bytes alone |
| HttpScan.ConnectionCloseIsHeard | packages/li-httpd/src/lib.li:20-35 | a request containing "Connection: close" in exactly this spelling is always closed |
| HttpScan.LowerCaseCloseIsMissed | packages/li-httpd/src/lib.li:20-35 | an example request whose close line is written "connection: close" is not heard |
| HttpScan.KeepAliveMisreadIff | packages/li-httpd/src/lib.li:20-35 | a keep-alive request is taken for a close exactly if a 'c' follows the header's value |
| HttpScan.KeepAliveMisread | packages/li-httpd/src/lib.li:20-35 | a keep-alive request with an Accept line that is closed |
| HttpScan.ParseGetPath | packages/li-httpd/src/lib.li:37-53 | the bytes between "GET " and the next space, or the index path |
| HttpScan.GetPathRoundTrip | packages/li-httpd/src/lib.li:37-53 | a request line written for a path reads back to that path |
| HttpScan.OtherwiseIndex | packages/li-httpd/src/lib.li:37-53 | every other request asks for the index |
| HttpServe.SendFailsIff | packages/li-httpd/src/lib.li:66-157 | sending an answer fails iff the last call made for it failed, or the last but one when that is the first send of the error page |
| HttpServe.FileIsSent | packages/li-httpd/src/lib.li:111-157 | a file whose opening, size, header and reading succeed is sent by the fifth call |
| HttpServe.FileIsMissing | packages/li-httpd/src/lib.li:87-157 | a failed opening, size or header, or reading of a file of at most 16384 bytes, is answered with the error page; a larger file whose first send fails is not |
| HttpServe.IndexIsSent | packages/li-httpd/src/lib.li:252-258 | the cached index takes one send |
| HttpServe.SendError | packages/li-httpd/src/lib.li:66-85 | both buffers are released on every path; the result follows from the calls made |
| HttpServe.SendStaticLarge | packages/li-httpd/src/lib.li:87-109 | the file and the header buffer are released once on every path, and the result follows from the calls made (159-181 for the closing variant) |
| HttpServe.SendStaticSmall | packages/li-httpd/src/lib.li:111-139 | the file and both buffers are released once on every path, and the result follows from the calls made (183-211 for the closing variant) |
| HttpServe.SendStatic | packages/li-httpd/src/lib.li:141-157 | no buffer and no file stays open whatever fails, and the result follows from the calls made (213-229 for the closing variant) |
| HttpServe.KeepAliveOf | packages/li-httpd/src/lib.li:240-243 | the request is kept alive unless its header block looks like a close |
| HttpServe.ServeOneRequest | packages/li-httpd/src/lib.li:231-269 | one answer whose target, the path opened and keep-alive are determined by the request bytes, and its failure by how the calls made for it fare; asks to close iff it is not kept alive or failed |
| HttpServe.KeptAliveIff | packages/li-httpd/src/lib.li:240-243 | on the bytes of its request: a reply is kept alive unless a 'C' with ':' ten bytes on is followed by a 'c' |
| HttpServe.CloseIsHonoured | packages/li-httpd/src/lib.li:240-269 | a request containing "Connection: close" is the last to be answered |
| HttpServe.StaysOpen | packages/li-httpd/src/lib.li:240-269 | a request without a 'C' is kept alive, and the next is answered if its answer was sent |
| HttpServe.LastReplyIff | packages/li-httpd/src/lib.li:256-287 | the last reply is the one not kept alive, not sent, or for the last request |
| HttpServe.TargetIs | packages/li-httpd/src/lib.li:259-261 | the file opened is the root followed by the request's path, or by the index name |
| HttpServe.CachedTargetIs | packages/li-httpd/src/lib.li:244-252 | with the index cached, the root path is answered from the cache and any other from its file |
| HttpServe.TryDrainSlot | packages/li-httpd/src/lib.li:271-287 | serves the first complete request of the buffer, or says there is none |
| HttpServe.DrainSlot | packages/li-httpd/src/lib.li:346-354 | serves every complete request in order; what stays in the buffer has no complete header |
| HttpServe.ConnClose | packages/li-httpd/src/lib.li:289-298 | gives back socket, slot and registration exactly if the epoll descriptor is positive |
| HttpServe.AcceptOne | packages/li-httpd/src/lib.li:308-321 | the next waiting client is held by a new slot with its stream and by epoll, or is turned away for want of a slot or registration |
| HttpServe.Register | packages/li-httpd/src/lib.li:312-319 | an accepted socket gets a slot and a registration, or is closed and nothing is held |
| HttpServe.AcceptBatch | packages/li-httpd/src/lib.li:300-323 | keeps sockets, slots and registrations equal; the first waiting clients get the new slots, in order; ends only when none waits or one call failed |
| HttpServe.HandleConnIo | packages/li-httpd/src/lib.li:325-355 | after one wake-up all that arrived before the next would-block was received and every complete request served, or the connection is closed with its client's stream answered |
| HttpServe.HandleConnBlocking | packages/li-httpd/src/lib.li:364-392 | at the end the replies answer the requests of the client's whole stream up to the first that closes |
| HttpServe.RepliesAreDetermined | packages/li-httpd/src/lib.li:231-287 | what a connection is answered is one function of its stream and of how the calls made for it fare |
| HttpServe.AnsweredInFull | packages/li-httpd/src/lib.li:325-392 | if no call fails, the requests up to and including the first that is not kept alive are answered, and all answers are sent |
| HttpServe.ChunkingIsInvisible | packages/li-httpd/src/lib.li:325-392 | two runs on one stream, however it was split, give the same replies in the same order if the calls made fare the same |
| HttpServe.HandleWake | packages/li-httpd/src/lib.li:300-355 | one wake-up: the slots before it and those newly taken are exactly those held and ended after it; a slot woken as readable has received all that had arrived, the others are as they were; an acceptable one takes all waiting clients or meets a failed call |
| HttpServe.KeptUpFurther | packages/li-httpd/src/lib.li:300-355 | keeping up over some wake-ups and one more is keeping up over all of them |
| HttpServe.WakeNext | packages/li-httpd/src/lib.li:300-355 | one more wake-up of a run keeps the account of all slots since it began |
| HttpServe.RunLoop | packages/li-httpd/src/lib.li:300-355 | over any run of wake-ups nothing leaks; every slot there was or that was given to a waiting client is held, live and has kept up with its wake-ups, or ended with its stream answered; clients are left waiting only by failed calls |
| HttpRelay.ReadDigits | packages/li-httpd/src/lib.li:484-494 | the value of the maximal digit run within the block |
| HttpRelay.FirstNumber | packages/li-httpd/src/lib.li:477-495 | the value of the first digit run from a position on, or -1 |
| HttpRelay.ProxyParseRespCl | packages/li-httpd/src/lib.li:467-497 | terminates with the value of the first digit run after the first field position, or -1; reads the byte after the block only if the block ends in a digit |
| HttpRelay.NoLengthIff | packages/li-httpd/src/lib.li:467-497 | -1 exactly if no digit stands behind a position with 'C', 'o' and ':' at offsets 0, 1 and 14 |
| HttpRelay.LengthIs | packages/li-httpd/src/lib.li:467-497 | otherwise the number written by the first digits behind the first such position |
| HttpRelay.ContentLengthRoundTrip | packages/li-httpd/src/lib.li:467-497 | a Content-Length line printed from n parses back to n |
| HttpRelay.Proxy.ReceiveRound | packages/li-httpd/src/lib.li:525-543 | forwards at most what is left, in order; a failure leaves a prefix sent |
| HttpRelay.Proxy.PumpRound | packages/li-httpd/src/lib.li:516-543 | one splice or receive keeps what is sent and what is left in balance |
| HttpRelay.Proxy.PumpCl | packages/li-httpd/src/lib.li:507-546 | success sends exactly the bytes owed; suspension has taken all that arrived and keeps the balance; failure leaves a prefix, and a call failed or the upstream ended short; the chunk buffer is released |
| HttpRelay.Proxy.CacheHeader | packages/li-httpd/src/lib.li:553-561 | caches exactly the header block and its length, if both exist |
| HttpRelay.Proxy.SendHeader | packages/li-httpd/src/lib.li:562-575 | the client has all accumulated bytes and the rest of the length is owed, or a first part of them after a failed send |
| HttpRelay.Proxy.BeginBody | packages/li-httpd/src/lib.li:562-576 | from here on exactly the next bytes of the upstream are relayed, as many as the length still says |
| HttpRelay.Proxy.FinishRespHeaders | packages/li-httpd/src/lib.li:548-576 | fails without sending iff the header is incomplete or has no length; else sends what the plan for the accumulated bytes says |
| HttpRelay.Proxy.FeedCachedHdr | packages/li-httpd/src/lib.li:578-606 | counts header bytes until the held length, then sends the held header and owes the length minus the dropped bytes; parses what was counted if the held header became shorter |
| HttpRelay.Proxy.EnterRelay | packages/li-httpd/src/lib.li:608-622 | expects the cached header iff one is cached |
| HttpRelay.Proxy.OnUp | packages/li-httpd/src/lib.li:644-676 | one wake-up takes one receive and does what its plan says, or pumps; the cache may have changed since the last |
| HttpRelay.Proxy.NextWake | packages/li-httpd/src/lib.li:644-676 | every wake-up keeps the relay on the plan for the wake-ups that are left |
| HttpRelay.Proxy.OnUpRecvCached | packages/li-httpd/src/lib.li:624-631 | a received chunk is counted against the held header, with the body starting behind the chunk |
| HttpRelay.Proxy.OnUpRecvParse | packages/li-httpd/src/lib.li:633-642 | the first chunk is parsed as the response header, with the body starting behind the chunk |
| HttpRelay.Proxy.Relay | packages/li-httpd/src/lib.li:608-676 | for all chunks, wake-ups and cache changes: what is sent is a first part of what the plan owes, all of it on success; it fails only if the plan, a call, the upstream's end or a hang-up says so; while active it has taken all that its wake-ups found |
| HttpRelay.Proxy.DoneOnceArrived | packages/li-httpd/src/lib.li:507-546 | a relay is done as soon as all it owes has arrived, unless a call failed or something hung up |
| HttpRelay.ParsedRelayIff | packages/li-httpd/src/lib.li:548-576 | exactly header and Content-Length bytes iff the first chunk ends between them; else all that was received, or nothing |
| HttpRelay.NoLengthFails | packages/li-httpd/src/lib.li:556-559 | without a cached header, a whole header block that gives no length fails the relay and nothing is sent |
| HttpRelay.ChunkedIsRefused | packages/li-httpd/src/lib.li:556-559 | a chunked response is one |
| HttpRelay.ParsedRelayOversends | packages/li-httpd/src/lib.li:548-576 | a response with one byte behind it in the first chunk: that byte is sent too |
| HttpRelay.CachedRelayIff | packages/li-httpd/src/lib.li:578-606 | with a cached header the client gets the upstream's response iff that header was repeated and a chunk ended with it or there is no body |
| HttpRelay.CachedRelayDrops | packages/li-httpd/src/lib.li:592-605 | a response in one chunk whose body never reaches the client |
| HttpRelay.CountingEnds | packages/li-httpd/src/lib.li:578-606 | when the cache changes at any wake-up, what is sent is decided by the header held at the wake-up that ends the counting and by what was counted before it |
| HttpRelay.CountedExactIff | packages/li-httpd/src/lib.li:592-605 | when sending the held header gives exactly the response |
| HttpRelay.SkippedExactIff | packages/li-httpd/src/lib.li:585-588 | when parsing the counted bytes and skipping a chunk gives exactly the response |
| HttpRelay.ChangedCacheSkips | packages/li-httpd/src/lib.li:585-588 | a schedule in which a shorter header is stored and the body is skipped |
| HttpRelay.BothPathsAgree | packages/li-httpd/src/lib.li:507-606 | when a chunk ends with the repeated header, cached and parsing relays of one response owe the same bytes |
| Paths.SegmentsRender | scripts/httpd_match.py:21-23 | splitting a rendered path gives its segments back |
| Paths.SegmentsByPiece | scripts/httpd_match.py:21-23 | a slash separates segments, and nothing between slashes is none |
| Paths.RenderIs | scripts/httpd_match.py:21-23 | a normal path has a slash before every segment, and is one slash without any |
| Paths.StrippedSlashes | scripts/httpd_match.py:34 | all slashes at the end of a base are stripped, and nothing else |
| Paths.NormalizeIsCanonical | scripts/httpd_match.py:21-23 | normalisation is idempotent and identifies exactly the paths with equal segments |
| Paths.PrefixAtSlashIff | scripts/httpd_match.py:34 | a text prefix ending at a slash is a proper whole-segment prefix |
| Paths.UnderBaseIff | scripts/httpd_match.py:33-36 | the prefix test holds iff the base's segments are a prefix of the path's |
| Routes.MatchIsBySegments | scripts/httpd_match.py:26-37 | a route matches iff methods agree and segments are equal, or a prefix for prefix kinds |
| Routes.SortedStays | scripts/httpd_match.py:41 | the sort is stable |
| Routes.PermutationSortsBack | scripts/httpd_match.py:41 | sorting any permutation of a table by priority restores file order |
| Routes.MatchIsFirstInFileOrder | scripts/httpd_match.py:40-44 | on any permutation the first matching key in file order is returned, and None iff none matches |
| Routes.MatchIgnoresPathSpelling | scripts/httpd_match.py:29 | the answer is the same for the normalised request path |
| Routes.ParseRouteKey | scripts/httpd_config.py:59-84 | the route of a key, or its bad method, its first bad extra or its bad path |
| Routes.KeyIsGoodIff | scripts/httpd_config.py:59-74 | a key gives a route iff its method is a word of capitals, no extra is bad, and its path has no '..' and no '//' once every '://' is dropped |
| Routes.NoSchemeStays | scripts/httpd_config.py:73 | a path without '://' is tested as it is |
| Routes.FirstSchemeDropped | scripts/httpd_config.py:73 | each '://' is dropped, from the left |
| Routes.BadKeyError | scripts/httpd_config.py:60-74 | which error a bad key gives |
| Routes.RouteOfKey | scripts/httpd_config.py:75-84 | the route has the key's method, action and position, and its path but for the suffix of its kind |
| Routes.StarKeyMatches | scripts/httpd_config.py:51-84 | the route of a base with a star matches a request iff the methods agree and the base's segments come first |
| Routes.PlainKeyMatches | scripts/httpd_config.py:51-84 | any other key's route matches iff methods and segments are equal |
| Routes.HeadersAreLastGiven | scripts/httpd_config.py:65-72 | the headers are the lower-cased names of the extras, each with the value given last |
| Routes.HeadersFailIff | scripts/httpd_config.py:68-71 | a key fails for its extras iff one is bad, and reports the first |
| Routes.DesugarConfig | scripts/httpd_config.py:87-96 | every key becomes the route of its position, or the first bad key's error |
| Routes.PathKindInverse | scripts/httpd_config.py:51-56 | base and suffix give the key path back, and exact paths end in no suffix |
| Routes.WitnessOnlyMetByShadows | scripts/httpd_match.py:26-44 | a request exists that a route matches and only routes shadowing it match too |
| Routes.DeadRouteIff | scripts/httpd_match.py:26-44 | a route is never chosen iff an earlier one shadows it, for every table and kind |
| Routes.DeadPrefixRouteIff | scripts/httpd_match.py:26-44 | the same for prefix routes by the string test on normalised bases |
| Routes.ShareRequestIff | scripts/httpd_config.py:99-107 | which pairs of routes match a common request |
| Routes.OverlapAgreesWithMatching | scripts/httpd_config.py:99-107 | the check is exact for like kinds, sound for mixed kinds, and when it misses a mixed pair |
| Routes.OverlapIsSharedIff | scripts/httpd_config.py:99-107 | for any routes, a reported overlap is real iff the methods are equal |
| Routes.DesugaredOverlapIsShared | scripts/httpd_config.py:18-20 | on desugared tables every reported overlap of normalised routes is real |
| Routes.ExactBelowIsMissed | scripts/httpd_config.py:107 | an exact path below a prefix base shares requests with it and is never reported |
| Routes.ExactUnderPrefixIsMissed | scripts/httpd_config.py:107 | /api/users and /api/* |
| Routes.WildcardOverlapIsNotShared | scripts/httpd_config.py:100 | a `*` overlap no request shares, between routes no key can produce |
| Routes.ValidateRoutes | scripts/httpd_config.py:110-118 | the first pair that overlaps at one priority, or none |
| Routes.ClashIff | scripts/httpd_config.py:110-118 | two routes of like kind and one method clash iff they share a request and a priority |
| Routes.DesugaredTablesValidate | scripts/httpd_config.py:87-118 | no desugared table is rejected |
| Realtime.ParseLineIff | routes/realtime/changefeed.py:211-238 | an event is made iff the line is an entry that names a table, and each of its fields is the entry's, or its default |
| Realtime.ParsedAre | routes/realtime/changefeed.py:172-188 | the events of a stretch are those of its lines |
| Realtime.OrIs | routes/realtime/changefeed.py:218-235 | a given, non-empty text stands, else the default |
| Text.LettersChange | routes/realtime/server.py:44-46 | capitals and small letters change into each other, letter by letter, and nothing else changes |
| Realtime.ParsedChanges | routes/realtime/session.py:28-45 | subscription ids are list positions from 100000, strictly increasing |
| Realtime.SubscriptionsAre | routes/realtime/session.py:28-45 | each dictionary of the list gives one subscription, with its own event, schema, table and filter, or their defaults |
| Realtime.JoinRefusedIff | routes/realtime/auth.py:37-43 | a join is refused iff authentication is required and an anonymous session names no subject |
| Realtime.ReceivesIff | routes/realtime/server.py:74-79 | a subscription receives an event iff it asks for it and its session may see the row |
| Realtime.PgTypeIsUpperCase | routes/realtime/server.py:44-46 | the published type is the upper-cased operation |
| Realtime.EventMatchesIff | routes/realtime/session.py:48-62 | a subscription matches by schema, table and operation or their wildcards |
| Realtime.PolicyAgreesIff | docs/realtime.md:115-119 | the row policy departs from the documented table exactly when an anonymous session reads an owned row without a claim or with the owner's, or an unknown role reads by claim; it never refuses a documented row |
| Realtime.AnonymousReadsEveryRow | routes/realtime/auth.py:46-56 | an anonymous session without a claim reads an owned row |
| Realtime.AnonymousReadsByClaim | routes/realtime/auth.py:46-56 | an anonymous session with the owner's claim reads an owned row |
| Realtime.UnknownRoleReadsByClaim | routes/realtime/auth.py:46-56 | a session of an undocumented role reads a row by its claim |
| RealtimeProofs.BroadcastIsExact | routes/realtime/server.py:67-90 | a broadcast adds one frame per passing subscription of an open session, in order, and none for an ended one |
| RealtimeProofs.StepKeepsInv | routes/realtime/server.py:59-196 | every step keeps the delivery invariant |
| RealtimeProofs.RunKeepsInv | routes/realtime/server.py:59-196 | so does every run |
| RealtimeProofs.DrainedFollowsTheFiles | routes/realtime/changefeed.py:148-188 | drained events are a prefix of the polled ones and follow each file's order |
| RealtimeProofs.QuiescentMeansComplete | routes/realtime/changefeed.py:68-79 | with files read and queues empty every event was broadcast |
| RealtimeProofs.EndToEndDelivery | routes/realtime/server.py:59-90 | with both files: a subscription is sent the matching, permitted events of a stretch of the polled ones, and of each file exactly those of a contiguous stretch, in file order |
| RealtimeProofs.OneFileDelivery | routes/realtime/server.py:59-90 | with one file the stretch is that of the events drained while joined |
| RealtimeProofs.EveryFrame | routes/realtime/server.py:67-90 | every frame ever sent carries its session's topic and join reference, the operation in capitals, and the fields of one entry of a file, which its subscription asks for and its session may see |
| RealtimeProofs.PollReadsBoth | routes/realtime/changefeed.py:148-155 | a poll takes the unread lines of both files, the log first |
| RealtimeProofs.JoinOpensStay | routes/realtime/server.py:151-177 | a join opens a stay with the topic, reference, claims and subscriptions asked for and ends the one it replaces, or is refused and changes nothing |
| RealtimeProofs.LeavingEndsStay | routes/realtime/server.py:136-138 | leaving ends the stay in that channel and no other |
| RealtimeProofs.DisconnectingEndsStays | routes/realtime/server.py:114-117 | disconnecting ends the stays of the socket and no other |
| RealtimeProofs.NoTableMeansNoEvents | routes/realtime/session.py:41 | a subscription without a table receives nothing |
| RealtimeProofs.TablesAgree | routes/realtime/server.py:115-117 | both channel tables hold the same sessions, for connected sockets only |
| RealtimeProofs.PublishersAreIsolated | routes/realtime/auth.py:46-56 | a publisher's session never receives another publisher's row |
| RealtimeProofs.EndedStaysAreFinal | routes/realtime/server.py:136-138 | nothing is sent to a session after leave, replacement or disconnect |
| RealtimeServer.ParsePostgresChanges | routes/realtime/session.py:28-45 | the loop builds the subscriptions of the list |
| RealtimeServer.RealtimeServer.BroadcastEvent | routes/realtime/server.py:67-90 | sends the frames of the broadcast in dictionary order |
| RealtimeServer.RealtimeServer.SendToSession | routes/realtime/server.py:74-90 | one frame per subscription that matches and may see the row |
| RealtimeServer.RealtimeServer.DrainOne | routes/realtime/server.py:62-65 | takes the oldest event and broadcasts it |
| RealtimeServer.RealtimeServer.EnqueueChangefeedEvent | routes/realtime/server.py:59-60 | appends to the queue |
| RealtimeServer.RealtimeServer.HandleMessage | routes/realtime/server.py:119-149 | heartbeats and unknown events change nothing; join and leave are the steps |
| RealtimeServer.RealtimeServer.HandleJoin | routes/realtime/server.py:151-177 | files the session in both tables, or nothing if refused |
| RealtimeServer.RealtimeServer.HandleLeave | routes/realtime/server.py:136-138 | drops the topic from both tables |
| RealtimeServer.RealtimeServer.Connect | routes/realtime/server.py:92-96 | the socket becomes active with an empty channel table |
| RealtimeServer.RealtimeServer.Disconnect | routes/realtime/server.py:114-117 | the socket leaves every table |
| RealtimeServer.ChangefeedSource.ReadNewLines | routes/realtime/changefeed.py:172-188 | the parsed events after the offset, which moves to the end |
| RealtimeServer.ChangefeedSource.PollOnce | routes/realtime/changefeed.py:148-155 | both files in turn |
| RealtimeServer.ChangefeedSource.Dispatch | routes/realtime/changefeed.py:241-245 | each registration gets the event once |
| RealtimeDeployment.Deployment.Perform | routes/realtime/server.py:59-196 | each object operation is the step of the model |
| RealtimeDeployment.Deployment.Run | routes/realtime/server.py:59-196 | any run of the objects is a run of the step system |
| Registry.DictRoundTrip | routes/registry/liorm_mock.py:33-35 | a record rebuilt from its dictionary without None values is the same |
| Registry.RowIs | routes/registry/liorm_mock.py:33-35 | a row names each field by its own key, optional ones only if they are not None |
| Registry.RowRefusedIff | routes/registry/liorm_mock.py:62 | a row is refused iff it has an unknown key or lacks a required one |
| Registry.SaveLoadRoundTrip | routes/registry/liorm_mock.py:55-68 | loading what was saved gives the same dictionary in the same order |
| Registry.LoadFailsIff | routes/registry/liorm_mock.py:60-63 | a file cannot be loaded iff one of its rows is bad |
| Registry.LastRowCounts | routes/registry/liorm_mock.py:63 | of several rows for one version the last counts |
| Dicts.PutPlaces | routes/registry/liorm_mock.py:63 | storing keeps the place of every key there was and puts a new one at the end |
| Registry.SeedIsServed | routes/registry/liorm_mock.py:70-83 | a store without a file serves the demo entry and has written it |
| Registry.OpenedFile | routes/registry/liorm_mock.py:45-63 | a store with a file has its rows and leaves the file as it is |
| Registry.RestartIsUnobservable | routes/registry/liorm_mock.py:45-68 | after any run the reopened store is the same state and every later reply is the same |
| Registry.VersionsAreImmutable | routes/registry/liorm_mock.py:124-193 | over any run a version keeps its data, never disappears, and is yanked at most once with a reason |
| Registry.CoverageIffNotNaN | routes/registry/liorm_mock.py:135-141 | stored coverage is at least 80 iff it is not NaN |
| Registry.NaNCoverageIsAccepted | routes/registry/liorm_mock.py:135 | NaN passes the check |
| Registry.FailureChangesNothing | routes/registry/liorm_mock.py:110-193 | rejected requests and reads leave the store as it was |
| Registry.PublishIsIdempotent | routes/registry/liorm_mock.py:124-176 | when a publish succeeds, and that repeating it changes nothing and replies the same |
| Registry.PublishErrorIs | routes/registry/liorm_mock.py:125-157 | what each publish replies, in the order of the checks |
| Registry.YankErrorIs | routes/registry/liorm_mock.py:179-184 | what a yank without token, reason or entry replies |
| Registry.GetAfterPublish | routes/registry/liorm_mock.py:124-176 | a get after a new publish returns the body's own fields |
| Registry.YankThenGone | routes/registry/liorm_mock.py:110-193 | a yank succeeds once; afterwards the version is gone with that reason |
| Registry.ListingIsExact | routes/registry/liorm_mock.py:95-100 | a listing is exactly the stored versions whose name begins with the prefix, if given, and that are not yanked or asked for as such, in increasing order of name and then version |
| Registry.LessIff | routes/registry/liorm_mock.py:100 | names are ordered by the first character that differs, a first part before the whole |
| Registry.YankHidesVersion | routes/registry/liorm_mock.py:98-99 | after a yank no page of a default listing names the version; the pages with yanked versions do |
| Registry.PageIs | routes/registry/liorm_mock.py:93-108 | every page reports the whole total and a limit in 1..500 |
| Registry.PageRows | routes/registry/liorm_mock.py:93-108 | the rows of a page are those of the listing from the offset on, as many as asked for or as there are; a negative offset is 0 |
| Registry.PagesTile | routes/registry/liorm_mock.py:101-108 | pages at offsets 0, L, 2L, ... concatenate to the listing |
| RegistryStore.MockRegistryStore.Open | routes/registry/liorm_mock.py:45-50 | loads the file, seeds it, or fails on a bad row |
| RegistryStore.MockRegistryStore.Load | routes/registry/liorm_mock.py:55-63 | fills the dictionary from the file |
| RegistryStore.MockRegistryStore.LoadRows | routes/registry/liorm_mock.py:60-63 | rows are stored one after another under their own key |
| RegistryStore.MockRegistryStore.Save | routes/registry/liorm_mock.py:65-68 | the file holds the rows of memory in order |
| RegistryStore.MockRegistryStore.SeedDemo | routes/registry/liorm_mock.py:70-83 | the demo entry in memory and on disk |
| RegistryStore.MockRegistryStore.Publish | routes/registry/liorm_mock.py:124-176 | the publish step of the state machine |
| RegistryStore.MockRegistryStore.YankVersion | routes/registry/liorm_mock.py:178-193 | the yank step, changing the record in place |
| RegistryStore.MockRegistryStore.GetPackageVersion | routes/registry/liorm_mock.py:110-122 | the get reply |
| RegistryStore.MockRegistryStore.ListPackages | routes/registry/liorm_mock.py:85-108 | the list reply |
| RegistryStore.MockRegistryStore.Serve | routes/registry/liorm_mock.py:85-193 | any run of requests on the object is the run of the state machine |
| Csv.EscapeIs | data-studio-ui/lib/csv.ts:2-6 | a cell is printed as it is unless it holds a quote, a comma, LF or CR; null prints as nothing |
| Csv.MissingColumn | data-studio-ui/lib/csv.ts:8 | a column that a row does not have prints as nothing |
| Csv.QuotesAreDoubled | data-studio-ui/lib/csv.ts:4 | every quote inside is doubled and nothing else changes |
| Csv.PlainExport | data-studio-ui/lib/csv.ts:7-9 | the text printed for two plain columns and rows |
| Csv.FieldRoundTrip | data-studio-ui/lib/csv.ts:2-6 | an escaped cell reads back to its text |
| Csv.RecordRoundTrip | data-studio-ui/lib/csv.ts:7-8 | a printed record reads back to its cells |
| Csv.CsvRoundTripIff | data-studio-ui/lib/csv.ts:1-10 | reading a printed grid gives header and cells iff there are two columns, or one whose last row is not empty |
| Csv.CsvInjective | data-studio-ui/lib/csv.ts:1-10 | two different grids of two or more columns print differently |
| Csv.SingleColumnCollision | data-studio-ui/lib/csv.ts:1-10 | two different one-column exports print the same |
| TomlMerge.DeepMerge | benchmarks/tier5_http/harness/toml_merge.py:14-21 | the loop fills the merged table |
| TomlMerge.MergeLookup | benchmarks/tier5_http/harness/toml_merge.py:14-21 | what a merge holds at every path, from the lookups of both sides |
| TomlMerge.MergeIdentityAndIdempotence | benchmarks/tier5_http/harness/toml_merge.py:14-21 | the empty table is an identity and a repeated overlay changes nothing |
| TomlMerge.AssociativeIff | benchmarks/tier5_http/harness/toml_merge.py:14-21 | the merge is associative exactly on layerable triples |
| TomlMerge.LayerableWithoutSandwich | benchmarks/tier5_http/harness/toml_merge.py:14-21 | in particular when no path holds a table, a non-table and a table |
| TomlMerge.AssociativityFails | benchmarks/tier5_http/harness/toml_merge.py:17-20 | three layers whose grouping shows |
| TomlMerge.LookupSet | benchmarks/tier5_http/harness/toml_merge.py:49-53 | a dotted write changes the lookup there, above and below, and nowhere else |
| TomlMerge.SetPathFailsIff | benchmarks/tier5_http/harness/toml_merge.py:51-53 | a dotted write fails iff a proper prefix holds a scalar |
| TomlMerge.ScalarsAreLastGiven | benchmarks/tier5_http/harness/toml_merge.py:42-54 | the scalars of the result are exactly the last values given |
| TomlMerge.ParseSucceedsIff | benchmarks/tier5_http/harness/toml_merge.py:42-54 | parsing succeeds iff every item has a key and none extends an earlier one |
| TomlMerge.ItemReadsBack | benchmarks/tier5_http/harness/toml_merge.py:47-49 | an item written from a dotted key and a value reads back as these |
| TomlMerge.ItemIsHeld | benchmarks/tier5_http/harness/toml_merge.py:42-54 | an item gives its value to its path unless a later one writes that path or one above it |
| TomlMerge.ParseErrorIs | benchmarks/tier5_http/harness/toml_merge.py:45-53 | a failing list is reported by its first item without an equals sign or with a key through a scalar |
| TomlMerge.MergeHttpToml | benchmarks/tier5_http/harness/toml_merge.py:24-39 | defaults, scenario and overrides in this order |
| TomlMerge.LayersInOrder | benchmarks/tier5_http/harness/toml_merge.py:24-39 | a scalar comes from the overrides, else from the scenario, else from the defaults |
| TomlMerge.OverridesWin | benchmarks/tier5_http/harness/toml_merge.py:24-54 | an override is found at its path whatever lies below it, and other paths are untouched |
| SetArgs.SnapshotAbove | benchmarks/tier5_http/harness/toml_merge.py:50-53 | an assignment deep in the dictionaries is one replacement in the root's table |
| SetArgs.SetDotted | benchmarks/tier5_http/harness/toml_merge.py:49-53 | the cursor walk in place is one dotted write |
| SetArgs.ParseSetArgs | benchmarks/tier5_http/harness/toml_merge.py:42-54 | the dictionaries built in place hold exactly the parsed table, or the first bad item's error |

## Left out

- The bodies of the runtime calls of li-httpd (`*_i`, `tcp_*`, `net_*`), TLS, HTTP/2, snapshot replies, upstream pools, load balancing and request sending to the upstream: C code that is not part of this model; `HttpHost` and `HttpRelay.Proxy` keep what their callers rely on.
- The cached-index drain (`httpd_drain_slot_i`), the outer epoll loop and the proxy dispatchers: they run in unseen state. `HandleConnIo` and `HandleConnBlocking` are the loops taken when the index cache is not ready.
- Partial sends, slot capacity and the number of bytes of a failed send: a send delivers everything or fails.
- Integers are unbounded in the model; the overflow of a very long Content-Length is not modelled.
- HttpServe.HandleConnBlocking: asks that the client ends or breaks the connection sooner or later, because otherwise the loop need not end.
- HttpServe.ChunkingIsInvisible: compares runs in which the calls made for the connection (sends, opens, reads) fare the same, call by call; these results are inputs of the model.
- HttpRelay.ProxyParseRespCl: asks that the byte after a block that ends in a digit can be read, because the code reads it; no block cut at CRLFCRLF ends so.
- HttpRelay.Proxy.Relay: bytes read from the upstream beyond the response's length are taken off the wire and not kept; other slots store in the cache only between two wake-ups of this one, as in one thread.
- TOML reading, the regular expressions of route keys but for the letters of the method, route names and the trimming of actions: keys arrive taken apart. Request headers and hosts play no part in matching.
- Caddy rendering, sites, upstream tables and limits of the HTTP configuration.
- JSON text, timestamps of frames, reply and system frames, JWT decoding, sockets, threads and awaits inside one broadcast: a broadcast is one step.
- Native and subprocess changefeed polls, `push_mock`, unsubscribing, log truncation and half-written lines.
- liorm_store, plans, lidb_import and HTTP parameter parsing of the registry; body and file fields of unexpected types; a file changed by someone else; concurrent requests.
- deep_merge shares sub-dictionaries with its inputs; the model copies values, so later writes through a shared sub-dictionary are not captured.
- Port allocation, the command palette, UI pages, benchmark drivers and shell scripts: input and output or easy.
