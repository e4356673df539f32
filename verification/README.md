# http-native, verified

http-native is a JavaScript HTTP framework with a Rust core. This project models its data structures,
wire formats and stateful limits in Dafny and proves properties of them. `dafny verify dfyconfig.toml`
checks everything.

Each component comes as values with their lemmas and, where the program updates state in place, as a
class or a method with loops that is proved to do what the value-level step does.

| component | files |
|---|---|
| routing: segment tree, stack splitting, one method's routes | `RadixTree`, `Router` |
| response cache: index-linked LRU list, whole runs, the object | `RouteCache`, `CacheRuns`, `LruCache` |
| cache namespaces of several servers, per-thread caches | `Namespaces` |
| rate limiting: sliding windows, the table of buckets, runs of many callers | `RateLimit`, `RateLimiter`, `RateRuns` |
| sessions: sharded store, expiry, signed cookies | `Sessions`, `SessionExpiry`, `SessionStore`, `SessionCookie` |
| WebSocket framing (RFC 6455, sections 5.2 and 5.3) | `WebSocket` |
| binary bridge: request and response envelopes | `Wire`, `RequestEnvelope`, `RequestCodec`, `ResponseEnvelope`, `ResponseCodec` |
| HTTP/1.1 responses: assembly, patching, cookie injection, an independent reader | `Search`, `HttpResponse`, `HttpReader` |
| handler specialisation: queries, templates, rendering | `QueryText`, `Json`, `FastPath`, `Rendering`, `Renderer` |
| handler specialisation: probing, from probe to response, source splitting, template text | `Probe`, `ProbeObjects`, `SpecialisedRoute`, `TopLevel`, `TemplateText` |
| multipart bodies (RFC 2046, section 5.1.1) | `Multipart`, `MultipartParser` |
| circuit breaker | `BreakerMachine`, `CircuitBreaker` |

Abstract throughout: hashing and HMAC (any function), compression (its result is an input), how many
replacement characters stand for invalid UTF-8, how a multipart header section describes its part, and
time (a parameter). Concurrent calls are atomic steps in any order. Fixed-width integers are written
out where they matter: 32-bit saturation and truncation, 8, 16 and 32-bit length fields.

Where the code falls short of its documentation the model follows the code:

- The eviction of the response cache frees a node that it goes on using. `RouteCache` has both the step
  as written and the repaired one; the refinement holds for the repaired one, and exactly the runs
  without eviction are right as written.
- The circuit breaker does not bound concurrent probes, whatever the configured maximum unless it is
  zero: calls that arrive half-open start a body without passing the counter, and a reset clears the
  counter while a probe is still running.
- The rate limit fails with a maximum of 2^32-1, where the running total saturates, and at time zero,
  where every check prunes the last hit. Windows over an hour lose hits when an idle bucket is evicted.
- An update of a session that has expired brings back whatever data it leaves alone.
- The specialised handler differs from the handler itself for reserved names, names with different
  first and last values, header fields spelled in upper case, fields repeated with a missing later
  value, queries whose percent escapes JavaScript refuses, and template escapes that only JavaScript
  knows. Each has its exact condition.
- Probing freezes anything computed from a parameter, drops headers, and takes the last of several
  answers.
- The request envelope truncates a body length over 32 bits.
- A cache namespace that is released and taken again before a thread notices keeps its old entries.

## Model

| member | source | states |
|---|---|---|
| `RadixTree.RouterIsScan` | rsrc/src/router.rs:152-231 | For any registered patterns and any request segments, the tree search finds what a linear scan over the registrations finds: same route, captured values exactly the segments at parameter positions; at most 16 parameters per route |
| `RadixTree.ScanIsBest` | rsrc/src/router.rs:198-231 | The scan answers exactly when some pattern matches, with the lexicographically best match (static before parameter, left to right), latest registration on ties |
| `RadixTree.MatchIsBest` | rsrc/src/router.rs:198-231 | A search of any well-formed tree within the stack limit returns a best match and extends the accumulator by its captures, or nothing with the accumulator as it was |
| `RadixTree.OverflowExactly` | rsrc/src/router.rs:211-231 | No request makes the accumulator overflow if and only if every registered route has at most 16 parameters |
| `RadixTree.OverflowingRequest` | rsrc/src/router.rs:211-231 | A registered route with too many parameters yields a concrete request whose search overflows |
| `RadixTree.InsertLookup` | rsrc/src/router.rs:152-196 | Inserting a pattern changes the handler of that pattern only |
| `RadixTree.BuildLookup` | rsrc/src/router.rs:152-196 | After any registrations each pattern holds its latest handler |
| `Router.RadixNode.Insert` | rsrc/src/router.rs:152-196 | In-place insertion into linked nodes takes the value tree where `Insert` takes it, and touches only its own nodes |
| `Router.RadixNode.MatchPath` | rsrc/src/router.rs:198-231 | The backtracking search with its shared accumulator answers as the value search; a failed search leaves the accumulator unchanged |
| `Router.SplitSegmentsStack` | rsrc/src/router.rs:706-722 | Fills the buffer with the non-empty segments, or reports one more than its size when they do not fit |
| `Router.SegmentsOfRender` | rsrc/src/router.rs:692-702 | Splitting a rendered request path gives back its segments |
| `Router.SegmentsConcat` | rsrc/src/router.rs:692-702 | A slash anywhere separates: the segments of two paths joined by one are theirs in order, whether leading, trailing or doubled |
| `Router.SegmentsOfWord` | rsrc/src/router.rs:692-702 | A word without slashes is its own segment, the empty one none |
| `Router.MethodRoutes.MatchRoute` | rsrc/src/router.rs:330-385 | Exact paths win; otherwise the answer is the linear scan over the parameterised routes of the method |
| `Router.MethodRoutes.AddPattern` | rsrc/src/router.rs:302-309 | Registering adds one route at the end of the scan order and nothing else |
| `RouteCache.GetRefines` | rsrc/src/router.rs:776-790 | `get` on linked nodes is a most-recent-first list moving its hit to the front, or dropping an expired entry; links, index and free list stay a partition of the nodes |
| `RouteCache.InsertRefines` | rsrc/src/router.rs:792-828 | `insert` with the eviction repaired (unlink without freeing) is the list insertion with least-recent eviction |
| `RouteCache.InvalidateRefines` | rsrc/src/router.rs:830-835 | `invalidate` removes the key from the list |
| `RouteCache.InsertAsWrittenExactly` | rsrc/src/router.rs:810-827 | As written, an insertion keeps the structure valid if and only if it does not evict |
| `RouteCache.NextInsertShares` | rsrc/src/router.rs:810-827 | After one eviction as written, the next new key shares a node with the previous one, linked to itself, and a lookup of the one answers with the other |
| `CacheRuns.RunRefines` | rsrc/src/router.rs:764-879 | Every run of get, insert and invalidate refines the list, with the eviction repaired |
| `CacheRuns.GetIsFresh` | rsrc/src/router.rs:776-790 | In every run a hit is the latest stored entry of its key, not invalidated and not expired |
| `CacheRuns.GetFindsRetained` | rsrc/src/router.rs:776-828 | An entry is still found while fewer distinct keys have been used since than each capacity given, where a capacity of zero holds one |
| `CacheRuns.SizeBound` | rsrc/src/router.rs:792-828 | In every run the size stays within the largest of one and the capacities given, and the structure is valid |
| `CacheRuns.AsWrittenUntilEviction` | rsrc/src/router.rs:792-828 | Until the first eviction the program as written behaves as the repaired one |
| `CacheRuns.AsWrittenExactly` | rsrc/src/router.rs:810-827 | A run as written is valid throughout if and only if no step of it evicts |
| `CacheRuns.WitnessWrongEntry` | rsrc/src/router.rs:810-827 | Any three insertions of different keys at capacity one make a lookup of the second key answer with the third entry as written, and miss when repaired |
| `LruCache.Cache.Get` | rsrc/src/router.rs:776-790 | The object with its map, node vector, links and free list goes where the value step goes |
| `LruCache.Cache.Insert` | rsrc/src/router.rs:792-828 | Likewise for `insert`, both as written and repaired |
| `LruCache.Cache.Invalidate` | rsrc/src/router.rs:830-835 | Likewise for `invalidate` |
| `LruCache.Cache.RemoveLink` | rsrc/src/router.rs:857-872 | Unlinking in place |
| `LruCache.Cache.PushHead` | rsrc/src/router.rs:845-855 | Linking at the head in place |
| `RateLimit.DecisionIsExact` | rsrc/src/rate_limit.rs:128-177 | With a fixed maximum below 2^32-1 and a fixed window, a call is admitted exactly if the cost admitted in the window ending now leaves room, and `remaining` is exact |
| `RateLimit.WindowBound` | rsrc/src/rate_limit.rs:128-177 | The cost admitted in any half-open window ending at any instant never exceeds the maximum |
| `RateLimit.LimitsExactly` | rsrc/src/rate_limit.rs:29-51 | The bound holds over all runs of a non-decreasing clock from a start if and only if the start is positive and the maximum is below 2^32-1 |
| `RateLimit.UnlimitedAtZero` | rsrc/src/rate_limit.rs:29-38 | At time zero pruning drops hits at once, so two calls admit twice the maximum |
| `RateLimit.UnlimitedAtTop` | rsrc/src/rate_limit.rs:148-155 | With the maximum 2^32-1 the saturating total admits two calls of full cost at any one instant |
| `RateLimit.RunFaithful` | rsrc/src/rate_limit.rs:29-51 | In every run the deque holds the admitted hits of the window, `total` is their sum and timestamps strictly increase |
| `RateLimit.RetryHonoured` | rsrc/src/rate_limit.rs:79-85 | A cost-1 caller denied once who waits the advertised seconds, with nothing admitted meanwhile, is admitted |
| `RateLimit.RetryNeeded` | rsrc/src/rate_limit.rs:79-85 | Such a caller who comes back at any time before the last advertised second is denied again |
| `RateLimit.ResetIsFirst` | rsrc/src/rate_limit.rs:53-85 | The advertised reset is the first instant at which something that counts has left the window, or a full window from now if nothing counts; the advertised delay is the least whole number of seconds that reaches it, and none for an admitted call |
| `RateLimit.DeniedAddNothing` | rsrc/src/rate_limit.rs:149-153 | Denied calls add nothing to what counts against the window |
| `RateLimit.NeverCollected` | rsrc/src/rate_limit.rs:60-62 | The collection test after a check never holds, so `check` never drops its own bucket |
| `RateLimiter.SlidingWindow.PruneExpired` | rsrc/src/rate_limit.rs:29-38 | The prune loop on the deque is the value-level pruning |
| `RateLimiter.SlidingWindow.Check` | rsrc/src/rate_limit.rs:143-161 | One bucket in place: new state and decision are those of the specification |
| `RateLimiter.Limiter.Check` | rsrc/src/rate_limit.rs:128-177 | The decision is that of the caller's bucket, and the table takes one step of the run semantics: only that bucket changes, up to eviction |
| `RateLimiter.Limiter.Reset` | rsrc/src/rate_limit.rs:179-217 | One step of the run semantics: exactly the named buckets go, and they are counted |
| `RateLimiter.NamespaceKeys` | rsrc/src/rate_limit.rs:188-206 | Resetting a namespace names exactly its keys when no name contains the separator |
| `RateLimiter.MaybeEvict` | rsrc/src/rate_limit.rs:94-126 | Nothing below the cap is touched; above it stale buckets go first, then the least recently seen, down to the target |
| `RateLimiter.StorageKeyInjective` | rsrc/src/rate_limit.rs:71-77 | Storage keys keep callers apart when namespaces do not contain the separator |
| `RateLimiter.StorageKeyCollides` | rsrc/src/rate_limit.rs:71-77 | Every namespace with a separator inside shares a storage key with another namespace |
| `RateRuns.AnsweredAlone` | rsrc/src/rate_limit.rs:128-177 | In any interleaving of checks of many callers, evictions and resets, each check is answered as if the caller had made only its own calls since its last reset, for windows of up to an hour and as long as what was used within the hour fits the eviction target |
| `RateRuns.SharedWindowBound` | rsrc/src/rate_limit.rs:94-177 | What the shared limiter grants one caller since its last reset never exceeds the maximum in any window |
| `RateRuns.EvictionHarmlessExactly` | rsrc/src/rate_limit.rs:94-126 | Dropping a bucket unseen for more than an hour changes no later answer if and only if the window is at most an hour |
| `RateRuns.LongWindowForgets` | rsrc/src/rate_limit.rs:94-126 | With any longer window some caller that its bucket denies is admitted once the bucket is evicted |
| `RateRuns.OnlyStaleGo` | rsrc/src/rate_limit.rs:94-126 | While the recently used buckets fit the target, only stale ones are evicted |
| `WebSocket.EncodeParse` | rsrc/src/websocket.rs:51-122 | An encoded frame followed by any octets parses to the same opcode, payload and length |
| `WebSocket.EncodeMaskedParse` | rsrc/src/websocket.rs:76-97 | A masked client frame is unmasked to its payload |
| `WebSocket.MaskTwice` | rsrc/src/websocket.rs:91-96 | Masking twice is the identity |
| `WebSocket.OversizedRejected` | rsrc/src/websocket.rs:72-74 | Frames over 16 MiB never parse |
| `WebSocket.ParseStable` | rsrc/src/websocket.rs:51-99 | A successful parse is not changed by more octets |
| `WebSocket.PrefixIncomplete` | rsrc/src/websocket.rs:51-99 | Every shorter prefix of a parsed frame yields nothing |
| `WebSocket.DrainStream` | rsrc/src/websocket.rs:51-122 | A concatenation of encoded frames parses to the same list |
| `WebSocket.ChunkingIrrelevant` | rsrc/src/websocket.rs:51-99 | However a stream is cut into appended chunks, the same frames come out and the same octets remain |
| `WebSocket.ChunkedStream` | rsrc/src/websocket.rs:51-122 | Any chunking of encoded frames yields exactly these frames |
| `WebSocket.ParseFrame` | rsrc/src/websocket.rs:51-99 | The offset-moving parser computes the specification |
| `WebSocket.Unmask` | rsrc/src/websocket.rs:91-96 | The in-place loop combines each octet with key octet `i % 4` |
| `WebSocket.EncodeFrame` | rsrc/src/websocket.rs:102-122 | The pushing encoder computes the specification |
| `HttpResponse.PatchIsRebuild` | rsrc/src/response.rs:127-149 | Patching the connection header of a response built for one choice gives octet for octet the response built for the other |
| `HttpResponse.OwnHeaderFirst` | rsrc/src/lib.rs:3007-3057 | The first occurrence of the searched text is the framework's own header, whatever other headers and body hold |
| `HttpResponse.InjectIsHeader` | rsrc/src/response.rs:153-171 | The injected cookie is one more header line; everything else stays |
| `HttpResponse.BlankLineFound` | rsrc/src/response.rs:157-163 | The first blank line is the one that ends the headers |
| `HttpResponse.BuildResponse` | rsrc/src/lib.rs:3007-3059 | The writer produces the specified text, dropping headers with line breaks |
| `HttpReader.BuiltRead` | rsrc/src/lib.rs:3007-3059 | An independent reader gets back the status, the length of the sent body, the connection choice, the coding, the caller's headers in order without those that would clash or break a line, and the body |
| `RequestEnvelope.BuiltDecodes` | src/bridge.js:782-871 | Every frame that the native side builds decodes to what the plan asks of its request: the url if url or query is needed, the path if needed, one flag for a needed query that is there, one for a body, the wanted headers, and as much of the body as 32 bits announce; or to an unknown method |
| `RequestEnvelope.RecoversExactly` | rsrc/src/lib.rs:2009-2086 | All of this is recovered with the whole body if and only if the body length fits 32 bits |
| `RequestEnvelope.BuildsExactly` | rsrc/src/lib.rs:2009-2086 | A frame is refused if and only if some length that is sent exceeds its field |
| `RequestEnvelope.SelectedExactly` | rsrc/src/lib.rs:2088-2114 | A header is sent, in its place, if and only if the plan asks for all headers or for its name up to the case of letters |
| `RequestEnvelope.PrefixesRejected` | src/bridge.js:1343-1375 | Every strict prefix of a built frame is rejected as truncated |
| `RequestEnvelope.LongBodyPrefixAccepted` | rsrc/src/lib.rs:2065-2065 | With a body over 32 bits of length a frame without its last octet still decodes as the whole |
| `RequestEnvelope.DecodeMore` | src/bridge.js:782-871 | Once a frame decodes, octets added at the end change nothing |
| `RequestEnvelope.SelectionKeepsLookups` | rsrc/src/lib.rs:2088-2114 | Dropping unselected headers changes no value that the route's plan asks for, and hides every other |
| `RequestCodec.BuildDispatchEnvelope` | rsrc/src/lib.rs:2009-2086 | The pushing writer computes the specified frame, with the same refusals |
| `RequestCodec.DecodeRequestEnvelope` | src/bridge.js:782-871 | The offset-moving decoder computes the specification, errors included |
| `RequestCodec.EnsureHeaderLookup` | src/bridge.js:1232-1254 | The header object holds for each lower-case name its last value and no reserved name |
| `Wire.ValuesRead` | rsrc/src/lib.rs:3547-3555 | Length-prefixed values are read back as written |
| `Wire.PairsRead` | rsrc/src/lib.rs:3532-3545 | Length-prefixed header pairs are read back as written |
| `ResponseEnvelope.ReadExactly` | rsrc/src/lib.rs:2951-2993 | The native reader recovers status, headers and body if and only if status, header count and body length are in range |
| `ResponseEnvelope.TrailerExactly` | rsrc/src/lib.rs:2484-2549 | The cache trailer is found exactly if one was written and the body is at most 1 MB, with the time to live capped at 86400, whatever the body holds |
| `ResponseCodec.EncodeResponseEnvelope` | src/bridge.js:904-979 | The encoder fills a buffer of the computed size in place with the specified octets, and refuses over-long names and values |
| `ResponseCodec.ReadResponseEnvelope` | rsrc/src/lib.rs:2951-2993 | The reader with its joint length check computes the specification |
| `ResponseCodec.ExtractNcacheTrailer` | rsrc/src/lib.rs:2484-2549 | The walk over length fields computes the specification |
| `Json.QuoteRead` | rsrc/src/lib.rs:2406-2428 | Every string survives escaping followed by parsing |
| `Json.ObjectDenotes` | rsrc/src/lib.rs:2164-2222 | Rendered members joined in braces parse to exactly these members in this order |
| `Json.ListDenotes` | rsrc/src/lib.rs:2192-2206 | Rendered values joined in brackets parse to the list of the values |
| `FastPath.AgreesExactly` | rsrc/src/lib.rs:2264-2345 | For every request the compiled source resolves to what the handler's expression evaluates to if and only if the request holds nothing under a name hidden from the handler (reserved, or a header field not in lower case) and, for parameters and headers, the first and the last value of the name are the same |
| `FastPath.BothSides` | rsrc/src/lib.rs:2264-2345 | What either side computes, from the values that the request holds under the name |
| `FastPath.ParamAgrees` | src/bridge.js:1069-1081 | The native side takes the first value of a parameter name, the handler the last one, or none of a reserved name |
| `FastPath.HeaderAgrees` | src/bridge.js:1232-1254 | The native side takes the first value of a header name, the handler the last one, or none of a reserved name |
| `FastPath.QueryObjectIs` | src/bridge.js:1218-1230 | Pushing query entries leaves each key with its one value or the array of its values |
| `FastPath.QueryKeysExactly` | src/bridge.js:1149-1153 | The query object holds a key if and only if it occurs and is none of the seven names that reach an object's prototype |
| `Rendering.BucketsComplete` | rsrc/src/lib.rs:2347-2363 | Grouping keeps each key's values complete and in order, and keys in order of appearance |
| `Rendering.QueryPreserved` | rsrc/src/lib.rs:2347-2391 | The rendered query object parses to the object that the handler would have sent |
| `Rendering.ObjectParsed` | rsrc/src/lib.rs:2155-2224 | The rendered object parses to exactly the fields that have a value, in order, for any missing subset |
| `Rendering.ObjectExactly` | rsrc/src/lib.rs:2155-2224 | For every template and request the rendered body parses to the object that the handler would have sent if and only if the fields of each name are settled: the last one is safe and, if the request holds nothing for it, it holds nothing for the earlier ones; the prototype's name sends nothing |
| `Rendering.FieldExactly` | rsrc/src/lib.rs:2169-2217 | One field contributes the same on both sides if and only if its expression is safe |
| `Rendering.NameExactly` | rsrc/src/lib.rs:2169-2217 | Fields of one name leave the same member on both sides if and only if they are settled |
| `Rendering.SettledAlone` | rsrc/src/lib.rs:2169-2217 | A field whose name stands once is settled if and only if it is safe |
| `Rendering.TextPreserved` | rsrc/src/lib.rs:2226-2262 | With safe expressions the rendered text is what the template literal evaluates to |
| `Rendering.TextExactly` | rsrc/src/lib.rs:2226-2262 | With at most one expression that is not safe the texts are equal if and only if that one is hidden from the handler and its native text spells the missing value |
| `Rendering.RepeatedHeaderDiffers` | rsrc/src/lib.rs:2307-2311 | An instance of `FastPath.AgreesExactly`: of a header sent twice the native side takes the first value and the handler the last |
| `Rendering.RepeatedFieldDiffers` | rsrc/src/lib.rs:2183-2183 | An instance of `Rendering.ObjectExactly`: a repeated field whose later value is missing is sent by the native side only |
| `Renderer.AppendJsonString` | rsrc/src/lib.rs:2406-2428 | The escaping loop computes the specified quoting |
| `Renderer.SerializeQueryObject` | rsrc/src/lib.rs:2347-2391 | The bucket loop and the rendering loop compute the specification |
| `Renderer.RenderDynamicJsonBody` | rsrc/src/lib.rs:2155-2224 | The loop with its `wrote_field` flag computes the specification |
| `Renderer.RenderDynamicTextBody` | rsrc/src/lib.rs:2226-2262 | The pushing loop computes the specification |
| `Renderer.LookupQueryValue` | rsrc/src/lib.rs:2332-2345 | Collects a key's values in order: none, one, or many |
| `Renderer.LookupParamValue` | rsrc/src/lib.rs:2295-2305 | Answers the first parameter of the name, as the specification says |
| `Renderer.LookupHeaderValue` | rsrc/src/lib.rs:2307-2311 | Answers the first header of the name, case ignored, as the specification says |
| `Renderer.ParseQuery` | src/bridge.js:1124-1156 | From the request target on, splitting, decoding and pushing entries leave the specified query object |
| `QueryText.DecodeExactly` | src/bridge.js:1209-1216 | The native side decodes a key or value as JavaScript does if and only if JavaScript accepts its percent escapes or there is none in it |
| `QueryText.StrictExactly` | src/bridge.js:1209-1216 | Decoding is refused if and only if some percent sign is not followed by two hexadecimal digits |
| `QueryText.EntriesExactly` | rsrc/src/lib.rs:2313-2330 | Both sides see the same query entries if and only if every key and value is decoded alike |
| `QueryText.PrintedEntriesRead` | src/bridge.js:1124-1156 | Any entries, percent-encoded and joined behind any path, are read as exactly these entries in this order by both sides |
| `QueryText.PairsConcat` | src/bridge.js:1130-1136 | Ampersands separate: the pairs of two queries joined by one are theirs in order, and empty pairs are none |
| `QueryText.OnePair` | src/bridge.js:1138-1147 | A text between separators is a key and a value around the first equals sign, or a key with an empty value |
| `QueryText.PlainDecoded` | src/bridge.js:1209-1216 | Without percent signs only plus signs change, into blanks |
| `QueryText.Utf8Exactly` | src/bridge.js:1209-1216 | Octets decode to a text if and only if they are its UTF-8 encoding |
| `SpecialisedRoute.TargetQueryPreserved` | rsrc/src/lib.rs:2288-2391 | For such targets the rendered query object parses to the object that the handler would have sent |
| `Renderer.MaterializeParams` | src/bridge.js:1069-1081 | The loop leaves each name its last value and no reserved name |
| `TopLevel.SplitSound` | rsrc/src/analyzer.rs:726-773 | When splitting succeeds, joining the pieces restores the input and every piece is balanced, outside strings at its end, and free of top-level separators |
| `TopLevel.SplitSucceedsExactly` | rsrc/src/analyzer.rs:726-773 | Splitting succeeds exactly on balanced input |
| `TopLevel.BalancedExactly` | rsrc/src/analyzer.rs:735-773 | A text is balanced if and only if its literals end and, outside them, the brackets of each kind are nested |
| `TopLevel.SplitOfJoin` | rsrc/src/analyzer.rs:726-773 | Splitting joined whole pieces gives back the pieces |
| `TopLevel.SplitTopLevel` | rsrc/src/analyzer.rs:726-773 | The loop over depth and string variables computes the specification |
| `TopLevel.FindTopLevel` | rsrc/src/analyzer.rs:775-814 | Answers the first position of the target at top level, if there is one |
| `Probe.ProbeExactly` | src/index.js:1203-1338 | Probing yields a template that serves every request as the handler would if and only if all calls of the handler amount to one JSON object of bare parameters and unmarked constants, and on the probe run the first answer is the object that the mock saw last; strings given to `send` and the textual screen are left out |
| `Probe.AmountsExactly` | src/index.js:298-400 | Status, headers and body are read off a handler's calls: the last status, the first answer, the last accepted value of each header with the content type defaulted at the answer; a response is the template's if and only if these are |
| `Probe.HeadersAreSent` | src/index.js:311-400 | Each header sent is the last one accepted, except that a content type missing or empty at the first answer takes that answer's own |
| `Probe.TypeSet` | src/index.js:121-139 | Three short names stand for full content types, any other value for itself |
| `Probe.SimpleHandlerPreserved` | src/index.js:1314-1338 | A handler that is a status and one `json` call of this kind is replaced by exactly that template |
| `Probe.BranchingFrozen` | src/index.js:1284-1304 | A handler that branches on a parameter is frozen in the probed branch and answered wrongly for the special value |
| `Probe.HeaderDropped` | src/index.js:1279-1280 | No template serves a handler that sets a header |
| `Probe.HeaderLost` | src/index.js:1279-1280 | Every handler with one accepted header call before a constant answer gets a template, and is served without the header |
| `Probe.SecondAnswerWins` | src/index.js:1261-1266 | A handler that answers twice is served with its last answer instead of its first |
| `Probe.GenerateFilled` | src/index.js:1314-1331 | Generating from markers recovers the template they were filled into |
| `Probe.GenerateSound` | src/index.js:1314-1331 | A generated template has no marker constants and gives back the captured data on markers |
| `SpecialisedRoute.ProbedRoutePreserved` | src/index.js:1203-1338 | End to end: for a handler with that property, the natively rendered template parses, for every request of the route, to the object with which the handler called on that request answers |
| `ProbeObjects.Probed` | src/index.js:1241-1311 | The calls made on the mock object, and the template generated from it, are those of the specification |
| `ProbeObjects.Performed` | src/index.js:298-400 | The same calls on the real response object give the specified response |
| `TemplateText.UnescapeExactly` | rsrc/src/analyzer.rs:842-867 | Whatever text of a template literal JavaScript accepts, the analyzer accepts, with the same value if and only if it holds no carriage return and no escape that only JavaScript knows |
| `TemplateText.DanglingRefused` | rsrc/src/analyzer.rs:842-867 | Text before an escaped dollar sign is refused, so the analyzer never takes one for an expression |
| `ProbeObjects.ResponseObject.SendJson` | src/index.js:343-356 | The real response object keeps its first body and replaces a content type that is missing or empty |
| `ProbeObjects.ResponseObject.SendAny` | src/index.js:374-400 | The real `send`: text, octets, nothing, or JSON, kept only if it is the first body |
| `ProbeObjects.MockResponse.SendJson` | src/index.js:1261-1266 | The mock keeps its last data |
| `ProbeObjects.GenerateResolvedFields` | src/index.js:1314-1331 | The loop over entries computes the specification and gives up at the first value that is no primitive |
| `Sessions.ProjectionExact` | rsrc/src/session.rs:327-354 | The projected size is the exact size after deletions, then mutations |
| `Sessions.EveryRunSound` | rsrc/src/session.rs:270-323 | In every reachable store each session is within the data limit, each shard within its capacity and holding its own ids |
| `Sessions.SessionBound` | rsrc/src/session.rs:137-147 | The total is at most max(64, max_sessions) |
| `Sessions.EvictsExactly` | rsrc/src/session.rs:293-309 | An accepted update removes another session if and only if the session is new and its shard has reached its share of the capacity; then a least recently accessed one goes and no other |
| `Sessions.RejectedChangesNothing` | rsrc/src/session.rs:288-291 | A rejected upsert leaves the store as it was |
| `Sessions.RunIsFlat` | rsrc/src/session.rs:249-361 | Apart from eviction the shards act as one map, after every run |
| `Sessions.GetIsFlat` | rsrc/src/session.rs:249-263 | What a lookup answers is decided by that one map |
| `SessionExpiry.LivesForItsAge` | rsrc/src/session.rs:249-323 | After an answered lookup or an accepted update a session that is left alone is answered, with that data, exactly before the configured age has passed |
| `SessionExpiry.GoneStaysGone` | rsrc/src/session.rs:249-361 | After an unanswered lookup, or once destroyed, a session that is left alone is never answered |
| `SessionExpiry.ExpiryExactly` | rsrc/src/session.rs:270-323 | The store equals, all through a run, one in which expired data is forgotten before an update if and only if no update of the run meets an expired session, leaves some of its data alone and is small enough itself |
| `SessionExpiry.StepExactly` | rsrc/src/session.rs:270-323 | The same for one step from any store |
| `SessionExpiry.RevivedAnswered` | rsrc/src/session.rs:249-323 | What an accepted update keeps of a session, expired or not, the next lookup in time answers |
| `SessionExpiry.RevivalWitness` | rsrc/src/session.rs:249-323 | Data stored at 0 for ten time units is answered at 51 after an empty update at 50 |
| `SessionStore.ProjectedDataSize` | rsrc/src/session.rs:327-354 | The loops over both maps, in any order, compute the size that would result |
| `SessionStore.SessionTable.Get` | rsrc/src/session.rs:249-263 | In place: expired sessions are dropped, live ones touched and returned |
| `SessionStore.SessionTable.Upsert` | rsrc/src/session.rs:270-323 | In place: accepts exactly what fits; an eviction takes a least recently accessed session of the shard |
| `SessionStore.SessionTable.Destroy` | rsrc/src/session.rs:357-361 | In place: the session goes and nothing else changes |
| `SessionStore.SessionTable.SessionCount` | rsrc/src/session.rs:385-387 | The sum over the shards |
| `SessionStore.OldestSession` | rsrc/src/session.rs:295-303 | A session that no other of the shard predates |
| `SessionCookie.HexRoundTrip` | rsrc/src/session.rs:415-443 | Encoded octets decode to themselves |
| `SessionCookie.HexDecodeExactly` | rsrc/src/session.rs:428-452 | A text decodes to given octets exactly if it is their encoding up to the case of its digits |
| `SessionCookie.VerifyExactly` | rsrc/src/session.rs:176-202 | A cookie is accepted for an id exactly if it is that id's signed cookie up to the case of its digits |
| `SessionCookie.VerifyAcceptsOwn` | rsrc/src/session.rs:205-209 | Every cookie that was built is accepted |
| `SessionCookie.EncodeHex` | rsrc/src/session.rs:415-422 | The encoding loop computes the specification |
| `SessionCookie.DecodeHex` | rsrc/src/session.rs:428-443 | The decoding loop computes the specification, refusals included |
| `Namespaces.EveryRunSound` | rsrc/src/lib.rs:473-521 | In every run of start, reload and close, a namespace's count is the number of servers holding it and no zero entry remains |
| `Namespaces.UnheldLookup` | rsrc/src/router.rs:889-924 | While nobody holds a namespace a lookup answers only from what was inserted since the counts last changed, with no holder since: nothing from a holder's time comes back |
| `Namespaces.UnheldLookupAlways` | rsrc/src/router.rs:889-924 | The same for every lookup: a latest change always exists |
| `Namespaces.SomeLastChange` | rsrc/src/lib.rs:473-507 | Every run has a step of its latest change, or none since the start |
| `Namespaces.StepGeneration` | rsrc/src/lib.rs:473-507 | Any change of the counts advances the generation |
| `Namespaces.StaleExactly` | rsrc/src/router.rs:889-906 | What a thread's cache would answer is still answered after any events without an access of that thread if and only if the generation has not moved or somebody holds the namespace now |
| `Namespaces.StaleAfterReopening` | rsrc/src/router.rs:889-906 | A consequence: a namespace held again before the thread's next access keeps its old entries |
| `Namespaces.Registry.Register` | rsrc/src/lib.rs:473-487 | The loop adds one holder to each namespace and advances the generation unless there is none |
| `Namespaces.Registry.Unregister` | rsrc/src/lib.rs:489-507 | The loop takes one holder from each namespace, removing counts that reach zero |
| `Namespaces.Registry.Replace` | rsrc/src/lib.rs:509-521 | Only the difference of the two sets changes |
| `Namespaces.ThreadCaches.GetCached` | rsrc/src/router.rs:908-924 | Synchronises, then looks up without creating a cache |
| `Namespaces.ThreadCaches.InsertCached` | rsrc/src/router.rs:926-937 | Synchronises, then inserts with the capacity set to at least one |
| `Multipart.PrintParse` | src/multipart.js:108-177 | For a boundary without line breaks, parsing a printed body gives back the printed parts if and only if each part is printable: its header section starts with no end mark and holds no early blank line, and its data holds no delimiter |
| `Multipart.PartsAreSlices` | src/multipart.js:121-144 | The parts are slices of the body, in order and without overlap |
| `MultipartParser.CollectExactly` | src/multipart.js:146-173 | A body is refused exactly if it has too many files or some file or field is too large; otherwise all files come in order and each field with its last value |
| `MultipartParser.PostedIsReceived` | src/multipart.js:108-177 | The form posted is the form received |
| `MultipartParser.IndexOfFrom` | src/multipart.js:200-209 | The nested loop answers the first occurrence at or behind an offset |
| `MultipartParser.ParseParts` | src/multipart.js:121-174 | The loop terminates, with body length minus offset as measure, and computes the specification |
| `MultipartParser.ParseMultipartBody` | src/multipart.js:108-177 | The whole parser computes the specification |
| `BreakerMachine.EveryRunSound` | src/circuit-breaker.js:43-127 | Under every interleaving, closed implies the failure count below the threshold, and the half-open counter never exceeds its maximum |
| `BreakerMachine.ProbeWaits` | src/circuit-breaker.js:68-72 | No call body starts from open before the timeout has elapsed since that opening |
| `BreakerMachine.AdmitsExactly` | src/circuit-breaker.js:68-127 | A call starts its body while closed, whenever half-open, and while open if and only if the timeout has passed since that opening and the half-open counter is below its maximum |
| `BreakerMachine.HalfOpenAfterTimeout` | src/circuit-breaker.js:68-81 | Half-open is only ever reached after the timeout |
| `BreakerMachine.OpensExactlyAtThreshold` | src/circuit-breaker.js:97-109 | A closed circuit opens by a completing call exactly at the threshold of consecutive failures or by a failed probe |
| `BreakerMachine.CounterExact` | src/circuit-breaker.js:111-127 | A step keeps the half-open counter equal to the running probes exactly if it is none of the drifting kinds |
| `BreakerMachine.CapExactly` | src/circuit-breaker.js:68-127 | The documented cap on concurrent probes holds over all runs if and only if it is zero |
| `BreakerMachine.CapExactlyPerRun` | src/circuit-breaker.js:111-127 | A run keeps the cap throughout if and only if no call is let in, outside the closed phase, while as many probes are running |
| `BreakerMachine.ResetForgetsProbes` | src/circuit-breaker.js:57-66 | With a cap of one, two probes run at once although no call arrives half-open: a reset forgets the running one |
| `BreakerMachine.CapWithoutDrift` | src/circuit-breaker.js:68-81 | Without drift the running probes are what the half-open counter says |
| `BreakerMachine.CapFails` | src/circuit-breaker.js:111-127 | With any positive cap, for every number some run has that many probes at once |
| `BreakerMachine.CollapseGoesNegative` | src/circuit-breaker.js:123-127 | Probes that fail together drive the half-open counter below zero |
| `CircuitBreaker.CircuitBreaker.Begin` | src/circuit-breaker.js:95-116 | A call up to its `await`, in place |
| `CircuitBreaker.CircuitBreaker.EndClosed` | src/circuit-breaker.js:97-109 | The end of a call admitted while closed, in place |
| `CircuitBreaker.CircuitBreaker.EndProbe` | src/circuit-breaker.js:119-127 | The end of a probe, in place |
| `CircuitBreaker.CircuitBreaker.TryHalfOpen` | src/circuit-breaker.js:68-81 | Starts a probe exactly when open, timed out and below the cap |
| `CircuitBreaker.CircuitBreaker.Handle` | src/circuit-breaker.js:83-145 | Whatever arrives, the object stays where its history of events leads |
| `CircuitBreaker.CircuitBreaker.ValidIsSound` | src/circuit-breaker.js:43-127 | So every object keeps the invariants of runs, and the cap unless its history overfills it |
| `Router.MethodRoutes.AddExact` | rsrc/src/router.rs:292-301 | Registering an exact path changes the answer for that path only |
| `LruCache.Cache.MoveToHead` | rsrc/src/router.rs:837-843 | Unlinking and relinking at the head, unless already there |
| `LruCache.Cache.RemoveNode` | rsrc/src/router.rs:874-878 | Unlinking, emptying and freeing a node in place |
| `LruCache.Cache.EvictTail` | rsrc/src/router.rs:810-827 | The eviction step in place, as written or repaired |
| `RateLimiter.SlidingWindow.PushHit` | rsrc/src/rate_limit.rs:40-51 | A hit joins the last one of the same time or is appended, and the total grows |
| `WebSocket.ReadPayload` | rsrc/src/websocket.rs:76-99 | Key, payload and unmasking in place compute the specification |
| `ResponseCodec.WritePairs` | src/bridge.js:954-963 | The headers are written one behind the other, and nothing before them changes |
| `ResponseCodec.WriteU32` | src/bridge.js:1382-1387 | The four low octets, least significant first |
| `ResponseCodec.ReadHeader` | rsrc/src/lib.rs:2968-2978 | One header with its joint length check, as the specification reads it |
| `RequestCodec.PushSelected` | rsrc/src/lib.rs:2075-2081 | Writes the selected headers in order, or stops at one that is too long |
| `RequestCodec.ReadParams` | src/bridge.js:819-826 | The loop reads the announced number of values, or finds the frame truncated |
| `RequestCodec.ReadHeaders` | src/bridge.js:828-839 | The loop reads the announced number of headers, or finds the frame truncated |
| `Renderer.GroupQuery` | rsrc/src/lib.rs:2348-2363 | The loop with its search for a bucket computes the grouping |
| `Renderer.ResolveDynamicValue` | rsrc/src/lib.rs:2264-2293 | Dispatches to the lookup of the source's kind |
| `Renderer.AppendField` | rsrc/src/lib.rs:2169-2217 | Appends one member behind a comma where needed, or nothing for a missing value |
| `ProbeObjects.ResponseObject.Set` | src/index.js:311-329 | Sets one header under its lower-case name, or nothing if name or value would break a line |
| `ProbeObjects.ResponseObject.SetType` | src/index.js:339-341 | Sets the normalised content type |
| `ProbeObjects.MockResponse.SendAny` | src/index.js:1267-1278 | The mock keeps sent text and objects and overlooks primitives |
| `SessionStore.DeleteKeys` | rsrc/src/session.rs:311-314 | The deletion loop removes exactly the named keys |
| `SessionStore.Merge` | rsrc/src/session.rs:316-319 | The merge loop, in any order, lets the mutations win |
| `Namespaces.ThreadCaches.Sync` | rsrc/src/router.rs:889-906 | A new generation drops the caches of unheld namespaces |
| `MultipartParser.NextCut` | src/multipart.js:121-144 | One turn of the loop up to the part's data |
| `CircuitBreaker.CircuitBreaker.Trip` | src/circuit-breaker.js:48-55 | Opens unless open already, in place |
| `CircuitBreaker.CircuitBreaker.Reset` | src/circuit-breaker.js:57-66 | Closes and clears both counters, in place |

## Left out

- Eviction in `RouteCache` and what builds on it: `GetRefines`, `RunRefines` and `Namespaces.UnheldLookup` speak of the repaired eviction; the one in the program is covered by the lemmas whose names say `AsWritten`.
- RateRuns.SharedWindowBound: bounds what is granted since the caller's last reset, with one maximum and window per caller; what was used within the hour is taken to fit the eviction target, since otherwise live buckets go.
- Multipart.PrintParse: boundaries without line breaks.
- Rendering.TextExactly: one unsafe expression; with several, differences may cancel out.
- Namespaces: the generation is unbounded; its 64-bit wrap-around is not modelled. Starts that fail after registering, and interleavings inside one call, are not modelled.
- Router.MethodRoutes.MatchRoute: routes of one method; the table from the seven method codes to these is a lookup and left out.
- RateLimiter.MaybeEvict: repeatedly removes a minimum instead of sorting once; ties are left open, as an unstable iteration order leaves them.
- Sessions: the random generation of ids and the `Set-Cookie` attributes.
- Probe.ProbeExactly: leaves out strings passed to `send` (their template literal), the source text of generated handlers, and the textual side-effect screen. `html`, cookies, `sendStatus` and native caching on the response object are left out; header names are ASCII.
- SpecialisedRoute.ProbedRoutePreserved: takes the template from the probe to the renderer directly; the generated source text and its parsing lie between. Numbers are tokens.
- FastPath: the text-level recognition of `req.params.x` and its kin; expressions are already parsed. Template literals are lists of segments, with `TemplateText` for their text.
- QueryText: request targets are ASCII.
- HttpReader.BuiltRead: the reason phrase is skipped, as readers may (RFC 9112, section 4); header names hold no colon. Octets are written as characters; choosing whether to compress is an input.
- RequestEnvelope: header names are ASCII tokens, for which JavaScript and Rust agree on lower case.
- The session trailer of the response envelope and the stream-start envelope.
- HTTP/2 and HTTP/3 bridging, sockets, TLS, runtimes and timeouts; WebSocket publishing, topics and close frames.
- Compiling manifests, access analysis of arbitrary JavaScript, JSON5 literals, middleware, logging, OpenAPI, telemetry, environment loading, command line and development reload.
