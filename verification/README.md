# eggfetch: a verified model of the stateful core

eggfetch is an HTTP client. This project models the parts of it that carry state, arithmetic or
an ordering obligation, and proves what they promise:

* **The cookie jar** (`Cookies`, `CookieJar`, `CookieThreads`, `CookieLookup`). The jar keeps an
  incrementally maintained "earliest expiry" watermark beside its map, and reads skip eviction
  when the watermark is not due. `JarInner` is a class whose methods update the map and the
  watermark as the source does. `CookieThreads` runs any number of threads over one jar, one label
  per lock acquisition, with `expire_if_due` split at its two locks. Its main theorem relates every
  run to a plain map without any watermark. `CookieLookup` is the filter, sort, dedupe and
  serialise pipeline of a request.
* **Response decompression** (`ContentCodings`, `Buffered`, `LimitingStream`, `Streaming`,
  `StreamTrips`, `BufferedToStreaming`, `StreamingExamples`, `SaturatingCounter`). The buffered
  decoder is a method proved against a function; the streaming decoder stack is a state machine
  whose runs are arbitrary sequences of chunk transfers. The two are related in both directions,
  each with the exact condition under which it holds; which chunks trip a limiter on the way is
  characterised for every run, and so is which runs that were not tripped can be finished.
* **Body state machines** (`NativeBody`, `LimitedStream`, `ResponseBodies`). The poll functions are
  class methods; runs are sequences of clock readings, inner poll results and calls.
* **Command-line codecs** (`Base64`, `Forms`, `Redaction`, `RedactionMeaning`). The loops are
  methods proved against recursive functions, which are proved against independent decoders and an
  independent reading of what redaction means.

A `string` is the sequence of UTF-8 code units of a Rust string, so lengths are byte counts. Clock
readings, URL components, parsed `Set-Cookie` attributes and the "is an IP literal" test are
inputs. A foreign decoder is one function per coding that yields some bytes and then either the end
of stream or an error; both decoding paths share it. Ratios are reals; `ceil` and `usize`
saturation are kept. A label or label sequence that is not possible gives `None`, so a theorem over
`Run(...).Some?` speaks about exactly the reachable states.

What the model shows about the code that its comments do not say, each with the exact condition
and an input:

* `update_from_response` removes first and inserts afterwards, so a header that expires a cookie
  does not undo an earlier live header of the same response (`CookieJar.BatchEqualsInOrderIff`;
  a session cookie followed by its own `Max-Age=0` in `CookieJar.BatchMayDiffer`).
* `set` validates values, `parse_set_cookie` does not, so a header built from response cookies need
  not split back into its pairs (`CookieLookup.SplitUndoesJoinIff`,
  `CookieLookup.AcceptedCookieMaySplit`).
* A cookie name may hold "=", and then its pair does not read back as its name and value
  (`CookieLookup.PairReadsBackIff`).
* A lookup evicts and reads under different locks, so it can send a cookie that was stale at the
  time it captured, exactly if another call stored the cookie in between by a clock that was
  behind and no later call replaced or removed it (`CookieLookup.LookupIsStaleIff`, `CookieLookup.LookupMayBeStale`).
* A blank `Content-Encoding` with an invalid ratio passes `decompress_stream` and is refused by
  `decompress_buffered` (`ContentCodings.SetUpVerdictsAgreeIff`,
  `ContentCodings.SetUpVerdictsMayDiffer`). This is about the two public functions called directly:
  the client validates the limit before it reaches either
  (`crates/eggfetch-core/src/response_decode.rs`, lines 20 to 27).
* An outer decoder may stop reading before the inner one has ended; what lies beyond is judged by
  the buffered path only (`Streaming.StreamingRefinesBuffered`,
  `StreamingExamples.UndrainedRunMayDiffer`).
* A layer that makes bytes out of an empty input is refused by the streaming limiter and accepted
  by the buffered path (`BufferedToStreaming.CanStreamIff`,
  `StreamingExamples.BytesFromNothingDiffer`).
* A ratio limiter judges each chunk against the bytes counted so far, so it can trip on an early
  chunk of a body whose total is in order (`StreamTrips.ChunkTripsIff`,
  `StreamingExamples.EarlyChunkMayTrip`). Without a ratio no chunking of an accepted body trips
  (`StreamTrips.WithoutRatioNothingTrips`).
* The final size verdict of `decompress_buffered` can never fire; the final ratio verdict can, with
  two codings (`Buffered.FinalVerdictIff`, `Buffered.FinalRatioVerdictCanFire`).
* The comment on `parse_content_encodings` speaks of the outermost coding first; the code keeps
  header order and decodes in reverse, as section 8.4 of RFC 9110 asks. The model follows the code.

## Model

| member | source | states |
|---|---|---|
| `Cookies.PathMatchesIff` | crates/eggfetch-core/src/cookie.rs:683-703 | a path matches iff the cookie path is absolute and the request path continues it by nothing, at a "/" or behind one (section 5.1.4 of RFC 6265) |
| `Cookies.DomainMatchesIff` | crates/eggfetch-core/src/cookie.rs:713-729 | a host matches iff it equals the domain ignoring case, or neither is an IP literal and the domain follows some dot of the host (section 5.1.3 of RFC 6265) |
| `Text.EqIgnoreCaseIff` | crates/eggfetch-core/src/cookie.rs:713-729 | two texts are equal ignoring case iff they agree letter by letter up to the case of ASCII letters |
| `Cookies.KeyOfIff` | crates/eggfetch-core/src/cookie.rs:180-191 | two cookies have one key iff their names and paths are equal and their domains are equal ignoring case |
| `Cookies.ValidValueIff` | crates/eggfetch-core/src/cookie.rs:751-764 | a value is valid iff it holds visible ASCII only, and no quote, comma, semicolon or backslash |
| `Cookies.ValidNameIff` | crates/eggfetch-core/src/cookie.rs:740-749 | a name is valid iff it is not empty and holds no control character, no space and none of the same four |
| `Cookies.DefaultCookiePath` | crates/eggfetch-core/src/cookie.rs:773-781 | the default path is absolute and a prefix of every absolute URL path |
| `Cookies.DefaultPathCoversItsUrl` | crates/eggfetch-core/src/cookie.rs:773-781 | a URL path matches its own default path iff it is absolute |
| `Cookies.DefaultPathIs` | crates/eggfetch-core/src/cookie.rs:773-781 | the default path is the URL path up to its last "/", or "/" if there is but the leading one or none |
| `Cookies.TrimLeadingDots` | crates/eggfetch-core/src/cookie.rs:803-806 | exactly the leading dots of a Domain attribute are dropped |
| `Cookies.ExpirationIs` | crates/eggfetch-core/src/cookie.rs:868-907 | Max-Age decides alone, non-positive as deletion and capped at 400 days; without it Expires decides; without both the cookie is a session cookie |
| `Cookies.AcceptedHeaderIff` | crates/eggfetch-core/src/cookie.rs:786-840 | a header is accepted iff its name is valid and its Domain, without leading dots, is not empty and covers the host; the further test for IP literals narrows nothing |
| `Cookies.AcceptedIs` | crates/eggfetch-core/src/cookie.rs:840-862 | which attribute ends up in which field of the stored cookie: host-only iff there is no Domain, an absolute explicit path or else the default one |
| `Cookies.SentIff` | crates/eggfetch-core/src/cookie.rs:655-677 | for every request URL: an accepted cookie matches iff the host is its own (without Domain) or lies within its domain (with one), the path matches and a Secure cookie goes over https |
| `Cookies.DefaultCookieSentIff` | crates/eggfetch-core/src/cookie.rs:520-554 | a default cookie is a session cookie with the given name and value, sent to every host wherever the path is absolute |
| `Cookies.AcceptedMatchesOrigin` | crates/eggfetch-core/src/cookie.rs:786-862 | an accepted cookie matches the URL that set it iff it is not Secure over plain HTTP and an explicit path covers the URL: the domain acceptance test implies the domain send test |
| `CookieJar.EarliestAfterAdding` | crates/eggfetch-core/src/cookie.rs:202-209 | the minimum expiry of a map is that of the map less one entry, joined with the entry's expiry |
| `CookieJar.EarliestIsUnique` | crates/eggfetch-core/src/cookie.rs:202-209 | there is only one value the full scan can give, whatever the map's iteration order |
| `CookieJar.InsertIsExact` | crates/eggfetch-core/src/cookie.rs:215-232 | from an exact watermark the four-way incremental insert gives the jar a full rescan would give |
| `CookieJar.RemoveIsExact` | crates/eggfetch-core/src/cookie.rs:234-240 | the same for removal |
| `CookieJar.NotDueMeansNothingStale` | crates/eggfetch-core/src/cookie.rs:630-640 | when the exact watermark is not due, a full scan would leave the whole jar unchanged |
| `CookieJar.RecheckRefinesFullScan` | crates/eggfetch-core/src/cookie.rs:642-651 | the re-checked eviction has exactly the effect of the unconditional one |
| `CookieJar.EvictAt` | crates/eggfetch-core/src/cookie.rs:618-628 | an eviction drops exactly the entries with an expiry at or before its time |
| `CookieJar.SetReplacesIff` | crates/eggfetch-core/src/cookie.rs:467-501 | setting another cookie, live or expired, drops a stored one iff name, domain ignoring case and path are all the same; it is stored itself iff it is live |
| `CookieJar.DeleteRemovesIff` | crates/eggfetch-core/src/cookie.rs:561-568 | `delete` drops a stored cookie iff name, domain ignoring case and path are all the given ones |
| `CookieJar.LastIndex` | crates/eggfetch-core/src/cookie.rs:313-342 | the last header of a batch for a key with a given liveness, and no later one |
| `CookieJar.BatchAtKey` | crates/eggfetch-core/src/cookie.rs:313-342 | after an update each key holds the last live cookie of the batch, else nothing if the batch held an expired one, else its old entry |
| `CookieJar.BatchStoresIff` | crates/eggfetch-core/src/cookie.rs:313-342 | after a response a cookie is stored iff it came live in it and no later live one is the same cookie, or it was stored and no header is the same cookie; two headers for different paths both stay |
| `CookieJar.InOrderAtKey` | crates/eggfetch-core/src/cookie.rs:313-342 | the reference for comparison: header-by-header processing leaves at each key what its last header says |
| `CookieJar.BatchEqualsInOrderIff` | crates/eggfetch-core/src/cookie.rs:313-342 | the update equals header-by-header processing iff no key has an expired last header after a live one |
| `CookieJar.BatchMayDiffer` | crates/eggfetch-core/src/cookie.rs:313-342 | at every time from the epoch on, a response that sets a cookie and then deletes it by Max-Age=0, both accepted, leaves it stored, while header-by-header processing leaves nothing |
| `CookieJar.JarInner.constructor` | crates/eggfetch-core/src/cookie.rs:284-291 | a new jar is empty and its watermark exact |
| `CookieJar.JarInner.RecomputeNextExpiry` | crates/eggfetch-core/src/cookie.rs:202-209 | the scan sets the watermark to the unique earliest expiry and changes no cookie |
| `CookieJar.JarInner.InsertCookieAt` | crates/eggfetch-core/src/cookie.rs:215-232 | the in-place insert is the modelled step, and keeps the watermark exact |
| `CookieJar.JarInner.RemoveCookieAt` | crates/eggfetch-core/src/cookie.rs:234-240 | the in-place removal is the modelled step, and keeps the watermark exact |
| `CookieJar.JarInner.Set` | crates/eggfetch-core/src/cookie.rs:467-501 | `set` succeeds iff name and value are valid, and then stores a live cookie or drops the key of an expired one |
| `CookieJar.JarInner.SetDefault` | crates/eggfetch-core/src/cookie.rs:520-554 | `set_default_cookie` succeeds iff name and value are valid, stores a session cookie for every host, and keeps the watermark exact |
| `CookieJar.JarInner.Delete` | crates/eggfetch-core/src/cookie.rs:561-568 | `delete` removes the case-folded key by the modelled step |
| `CookieJar.JarInner.Clear` | crates/eggfetch-core/src/cookie.rs:575-582 | `clear` leaves an empty jar with no watermark |
| `CookieJar.JarInner.Partition` | crates/eggfetch-core/src/cookie.rs:316-326 | the loop over the headers separates live cookies from the keys of expired ones, in order |
| `CookieJar.JarInner.RemoveKeys` | crates/eggfetch-core/src/cookie.rs:334-336 | the removal loop drops exactly the keys of the expired cookies |
| `CookieJar.JarInner.StoreAll` | crates/eggfetch-core/src/cookie.rs:337-340 | the insertion loop stores the live cookies in order |
| `CookieJar.JarInner.Update` | crates/eggfetch-core/src/cookie.rs:313-342 | `update_from_response` gives the batch's store with a rescanned watermark, or the same jar for an empty batch |
| `CookieJar.JarInner.ExpireAll` | crates/eggfetch-core/src/cookie.rs:618-628 | `expire_stale` keeps exactly the live cookies and rescans |
| `CookieJar.JarInner.ExpireIfDue` | crates/eggfetch-core/src/cookie.rs:630-651 | `expire_if_due` on an exact jar has the effect of `expire_stale` at the same time |
| `CookieThreads.StepRefinesReference` | crates/eggfetch-core/src/cookie.rs:202-240 | every lock step of every operation keeps the watermark exact and acts on the stored cookies as one atomic call on a plain map |
| `CookieThreads.EveryRunRefinesReference` | crates/eggfetch-core/src/cookie.rs:618-651 | in every interleaving of any number of threads with any clocks, the watermark is exactly the earliest expiry, and the cookies are those of a watermark-free map on which each completed `expire_if_due` is a full scan at its captured time, at its last lock acquisition |
| `CookieThreads.BatchOrigin` | crates/eggfetch-core/src/cookie.rs:313-342 | every entry after an update is an old entry, or a cookie of the batch that its clock found live, under its own key |
| `CookieThreads.ApplyAtKey` | crates/eggfetch-core/src/cookie.rs:202-240 | after any call a cookie is under a key iff the call puts it there, or it was there and the call neither replaces nor removes it |
| `CookieThreads.PutByCall` | crates/eggfetch-core/src/cookie.rs:313-342 | what a call puts into the jar is a minted cookie under its own key, live by the call's own clock or a session cookie |
| `CookieThreads.EntryOrigin` | crates/eggfetch-core/src/cookie.rs:202-240 | every entry after any step was there before, or the call of that step put it there under its own key |
| `CookieThreads.StepKeepsMinted` | crates/eggfetch-core/src/cookie.rs:535-548 | every step keeps entries under their own keys and drawn from cookies with unique creation indices |
| `CookieThreads.EveryRunKeepsIndicesDistinct` | crates/eggfetch-core/src/cookie.rs:849-861 | in every reachable jar no two entries share a creation index |
| `CookieThreads.CompletedMeansFresh` | crates/eggfetch-core/src/cookie.rs:630-651 | when a thread completes `expire_if_due`, whether or not it took the write lock, nothing in the jar is stale at the time it had captured |
| `CookieThreads.StaleEntryIff` | crates/eggfetch-core/src/cookie.rs:630-651 | in every run after that, the jar holds a cookie stale at that time iff some later `set` or `update_from_response` put it there by a clock behind that time and every call since keeps it; the condition speaks of the calls, not of the jar |
| `CookieThreads.ReaderHasEvicted` | crates/eggfetch-core/src/cookie.rs:630-651 | every thread about to read has completed its eviction, at the time remembered for it |
| `CookieLookup.CollectMatches` | crates/eggfetch-core/src/cookie.rs:363-372 | the filter loop, over any iteration order of the map, collects exactly the matching cookies |
| `CookieLookup.Position` | crates/eggfetch-core/src/cookie.rs:377-382 | where a stable sort places an element: behind all that may precede it, before all others |
| `CookieLookup.InsertSorted` | crates/eggfetch-core/src/cookie.rs:377-382 | insertion keeps the order and adds exactly one element |
| `CookieLookup.SortMatches` | crates/eggfetch-core/src/cookie.rs:377-382 | the result is sorted by path length descending, then creation index ascending, and is a permutation |
| `CookieLookup.Serialise` | crates/eggfetch-core/src/cookie.rs:386-397 | the loop emits one pair per (name, path), the earliest created one, in order, and the text is those pairs joined by "; " |
| `CookieLookup.CookiesForUrl` | crates/eggfetch-core/src/cookie.rs:352-404 | the header is the joined answer of section 5.4 of RFC 6265, and absent iff nothing matches |
| `CookieLookup.RequestHeader` | crates/eggfetch-core/src/cookie.rs:352-404 | the whole call, run alone, answers from the live cookies of the jar and leaves exactly those stored |
| `CookieLookup.LookupAnswersReference` | crates/eggfetch-core/src/cookie.rs:352-404 | among any other threads, a thread about to read has completed its eviction, and the header it sends, for any iteration order, is the one header of the watermark-free reference map at that read |
| `CookieLookup.AnswerHoldsFirst` | crates/eggfetch-core/src/cookie.rs:363-397 | a cookie is in the answer iff it is stored, matches, and no matching cookie of its name and path was created before it |
| `CookieLookup.AnswerOrder` | crates/eggfetch-core/src/cookie.rs:377-382 | of two cookies in an answer the one with the longer path comes first, and with equal lengths the one created first |
| `CookieLookup.LookupIsStaleIff` | crates/eggfetch-core/src/cookie.rs:352-404 | the answer of a lookup holds a cookie stale at its captured time iff the cookie matches, leads its name and path, and a call since the eviction put it into the jar by a clock behind that time and no later call replaced or removed it |
| `CookieLookup.LookupMayBeStale` | crates/eggfetch-core/src/cookie.rs:352-404 | such a run: one thread evicts at time 10, another then stores by a clock reading 3 a cookie that expires at 5 |
| `CookieLookup.AnswerIsUnique` | crates/eggfetch-core/src/cookie.rs:352-404 | with distinct creation indices there is only one answer, so the map's order cannot show |
| `CookieLookup.ReachableHeaderIsUnique` | crates/eggfetch-core/src/cookie.rs:352-404 | in every reachable state of every run there is only one header the lookup can give, whatever the map's iteration order |
| `CookieLookup.SplitUndoesJoinIff` | crates/eggfetch-core/src/cookie.rs:386-397 | cutting the header at "; " gives back the pairs iff no pair contains "; " |
| `CookieLookup.ValidatedHeaderReadsBack` | crates/eggfetch-core/src/cookie.rs:740-764 | names and values that passed validation are read back pair by pair |
| `CookieLookup.PairReadsBackIff` | crates/eggfetch-core/src/cookie.rs:391-396 | a pair reads back at its first "=" as the cookie's name and value iff the name holds no "=" |
| `CookieLookup.RunWithoutResponsesIsValidated` | crates/eggfetch-core/src/cookie.rs:467-501 | in every run without response updates all stored cookies are validated |
| `CookieLookup.RunWithoutResponsesReadsBack` | crates/eggfetch-core/src/cookie.rs:467-501 | so every header such a jar sends splits back into exactly the answer's pairs |
| `CookieLookup.AcceptedCookieMaySplit` | crates/eggfetch-core/src/cookie.rs:786-798 | an accepted response cookie with value "; " whose header does not split back |
| `CookieLookup.AcceptedCookieIsSentBack` | crates/eggfetch-core/src/cookie.rs:313-404 | after an update with one live accepted header, in any jar and with separate clock readings for Max-Age, liveness and lookup, every lookup for that URL before expiry holds a pair for its name and path, created no later |
| `Text.WhiteIff` | crates/eggfetch-core/src/compression.rs:217-223 | white space is the five ASCII control characters for it and the space |
| `Text.TrimIs` | crates/eggfetch-core/src/compression.rs:217-223 | trimming takes away white space only, and all of it at both ends |
| `ContentCodings.FromWireIff` | crates/eggfetch-core/src/compression.rs:145-155 | a token is recognised as a coding iff it spells that coding's wire name, or the alias of gzip, in any case and between white space |
| `ContentCodings.SkippedIff` | crates/eggfetch-core/src/compression.rs:157-160 | a part is skipped iff it is blank or spells `identity` |
| `ContentCodings.SignificantAt` | crates/eggfetch-core/src/compression.rs:217-223 | the tokens are the trimmed parts of the header at rising positions, and every other part says nothing |
| `ContentCodings.ParsedIff` | crates/eggfetch-core/src/compression.rs:217-255 | a header is validated and parsed as a list of codings iff its parts name exactly those codings in that order and otherwise say nothing |
| `ContentCodings.JoinedNamesParse` | crates/eggfetch-core/src/compression.rs:134-141 | wire names joined by commas are parsed back as the very codings in the very order |
| `ContentCodings.RefusedHeaderIff` | crates/eggfetch-core/src/compression.rs:244-255 | a header is refused iff some part cannot be read, and the error carries the first such part, trimmed |
| `ContentCodings.ValidatedIffNothingLost` | crates/eggfetch-core/src/compression.rs:217-255 | a header is validated iff the parsed list is what its parts say, in order and in full |
| `ContentCodings.CheckedIff` | crates/eggfetch-core/src/compression.rs:389-406 | set-up accepts a header iff its parts list at most four codings and a configured ratio is positive; otherwise the ratio is reported before an unsupported coding and that before the depth |
| `ContentCodings.StreamSetUpIff` | crates/eggfetch-core/src/compression.rs:282-311 | a stream is set up to undo exactly the codings its header lists; a blank header meets no further check |
| `ContentCodings.BlankHasNoTokens` | crates/eggfetch-core/src/compression.rs:282-295 | a header of white space names no coding |
| `ContentCodings.SetUpVerdictsAgreeIff` | crates/eggfetch-core/src/compression.rs:282-311 | both paths reach the same set-up verdict iff the header is not blank with an invalid ratio |
| `ContentCodings.SetUpVerdictsMayDiffer` | crates/eggfetch-core/src/compression.rs:282-293 | a blank header with ratio zero: pass-through for the stream, an error for the buffered path |
| `Buffered.Ceil` | crates/eggfetch-core/src/compression.rs:414-445 | the least integer not below a real |
| `Buffered.OverRatioIsQuotientTest` | crates/eggfetch-core/src/compression.rs:470-471 | comparing against the product is the source's comparison of the quotient |
| `Buffered.BoundIs` | crates/eggfetch-core/src/compression.rs:414-445 | the layer bound is the smaller of the size limit and the rounded-up, capped ratio budget, and the ratio is the tighter one iff the budget is at most the size limit |
| `Buffered.SyncReadLimited` | crates/eggfetch-core/src/compression.rs:578-602 | however the reader splits its output, the loop returns all bytes iff they fit and the decoder completed; too much output wins over a later decoding error |
| `Buffered.DecodeLayer` | crates/eggfetch-core/src/compression.rs:456-529 | one pass of the loop drains the decoder within the bound and then applies the quotient test to the layer's own input |
| `Buffered.JudgeOutput` | crates/eggfetch-core/src/compression.rs:537-561 | the four-way final verdict, with the quotient test against the wire |
| `Buffered.DecompressBuffered` | crates/eggfetch-core/src/compression.rs:380-564 | the imperative decoder, with all its early returns, equals the layer-by-layer function that the lemmas below speak about |
| `Buffered.LayersAreStages` | crates/eggfetch-core/src/compression.rs:456-529 | the limited loop succeeds iff every layer of the unlimited decoding completes, fits the bound and keeps its own ratio, and then returns the unlimited result |
| `Buffered.FittingOutputIsWithinSize` | crates/eggfetch-core/src/compression.rs:537-561 | output that passed the layer bound is within the size limit |
| `Buffered.FinalVerdictKinds` | crates/eggfetch-core/src/compression.rs:537-561 | which error a final violation gives, with the tighter bound deciding when both are violated |
| `Buffered.FinalVerdictIff` | crates/eggfetch-core/src/compression.rs:537-561 | after successful layers the size verdict never fires, and the ratio verdict fires iff the output is exactly the rounded-up budget above the unrounded one |
| `Buffered.SingleCodingNeedsNoFinalVerdict` | crates/eggfetch-core/src/compression.rs:537-561 | with one coding the result is that of the single layer: no final verdict fires |
| `Buffered.FinalRatioVerdictCanFire` | crates/eggfetch-core/src/compression.rs:537-561 | with two codings a concrete body passes all layers and is refused by the final ratio verdict alone |
| `Buffered.AcceptedIff` | crates/eggfetch-core/src/compression.rs:414-564 | a body is accepted iff every layer is in order and the wire ratio holds, and then the result is the full decoding |
| `Buffered.RefusedWith` | crates/eggfetch-core/src/compression.rs:456-529 | a body with a layer out of order is refused with the error of its first such layer: too much output beats a decoding error, and both beat the ratio |
| `Buffered.AcceptedMeetsLimits` | crates/eggfetch-core/src/compression.rs:414-564 | every accepted body meets the size limit, the wire ratio and the ratio of each of its layers |
| `Buffered.StagesPeelEncodings` | crates/eggfetch-core/src/compression.rs:456-529 | undoing the last n codings in reverse order leaves the body under the first ones |
| `Buffered.EncodedDecodes` | crates/eggfetch-core/src/compression.rs:456-529 | every layer of an encoded body decodes, and exactly the body is left |
| `Buffered.BufferedUndoesEncoding` | crates/eggfetch-core/src/compression.rs:389-529 | for every header that lists the applied codings in order, none up to four, the unlimited buffered path returns what was encoded iff the encoded data is not empty or the body is (section 8.4 of RFC 9110): empty data is never decoded |
| `SaturatingCounter.StepKeepsInv` | crates/eggfetch-core/src/compression.rs:850-862 | each load, exchange (also spuriously failing) and overflow store keeps the counter the saturated sum and does not lower it |
| `SaturatingCounter.CounterIsSaturatedSum` | crates/eggfetch-core/src/compression.rs:850-862 | in every interleaving the counter is min(`usize::MAX`, initial + completed amounts) |
| `SaturatingCounter.CounterNeverDecreases` | crates/eggfetch-core/src/compression.rs:850-862 | the counter never decreases along a run |
| `LimitingStream.Stream.constructor` | crates/eggfetch-core/src/compression.rs:900-912 | a new limiter has counted nothing and tripped nothing |
| `LimitingStream.Stream.PollNext` | crates/eggfetch-core/src/compression.rs:972-1003 | one poll is one step of the run the theorems speak about, and its result is recorded |
| `LimitingStream.PassedCheckMeans` | crates/eggfetch-core/src/compression.rs:918-946 | a check that finds no violation bounds the count by the size limit and by ratio times compressed bytes |
| `LimitingStream.ChunkVerdict` | crates/eggfetch-core/src/compression.rs:918-1003 | a chunk is refused as too large iff the count goes beyond the size limit, for the ratio iff it does not and the count exceeds ratio times the compressed bytes, and passed on unchanged otherwise |
| `LimitingStream.NextKeepsSafety` | crates/eggfetch-core/src/compression.rs:972-1003 | every poll keeps pass-through, the size bound and the ratio bound |
| `LimitingStream.PollsFacts` | crates/eggfetch-core/src/compression.rs:972-1003 | n polls give n results and poll below at most n times |
| `LimitingStream.EveryRunIsLimited` | crates/eggfetch-core/src/compression.rs:918-1003 | in every run the passed chunks are those below, less the one that tripped; their total never exceeds a size limit below `usize::MAX`, nor the ratio at the moment of delivery while unsaturated |
| `LimitingStream.TrippedStreamIsFused` | crates/eggfetch-core/src/compression.rs:972-1003 | after a limit error only the end follows and the stream below is never polled again |
| `Streaming.CheckIsMonotone` | crates/eggfetch-core/src/compression.rs:918-946 | more compressed bytes never turn a passing check into a failing one |
| `Streaming.EveryRunKeepsInv` | crates/eggfetch-core/src/compression.rs:296-362 | in every unfailed state all counters are exact up to saturation, no limit is exceeded, bytes move up the stack unchanged |
| `Streaming.ConsumedIsStage` | crates/eggfetch-core/src/compression.rs:296-332 | every layer has consumed and emitted prefixes of what full decoding gives, and all of it once ended |
| `Streaming.StreamedBytes` | crates/eggfetch-core/src/compression.rs:276-362 | whatever the chunking, a run that reaches the end delivered exactly the full decoding |
| `Streaming.EndedLayer` | crates/eggfetch-core/src/compression.rs:828-1003 | a decoder that ended completed on its full input, and its limiter would pass its full output against its full input |
| `Streaming.StreamingRefinesBuffered` | crates/eggfetch-core/src/compression.rs:276-564 | for every run that reaches the end, the buffered path returns the same bytes iff each intermediate layer fits the buffered output bound and every layer left unread decodes within its ratio |
| `Streaming.SingleCodingAgrees` | crates/eggfetch-core/src/compression.rs:276-564 | with one coding, every run that reaches the end has the buffered path's bytes, without condition |
| `StreamTrips.StageInMemory` | crates/eggfetch-core/src/compression.rs:414-445 | no layer of a body accepted under a ratio outgrows the byte counters |
| `StreamTrips.EmittedIsPrefix` | crates/eggfetch-core/src/compression.rs:296-332 | whatever chunk a decoder may emit next continues its output towards the full decoding |
| `StreamTrips.EmitFailsIff` | crates/eggfetch-core/src/compression.rs:828-1003 | in every state of the invariant, over an accepted body, a chunk fails the stack iff the ratio guard of its layer or of the last limiter fires, and then with the ratio error |
| `StreamTrips.ChunkTripsIff` | crates/eggfetch-core/src/compression.rs:828-1003 | for every run over a body the buffered path accepts and every chunk that may come next: the stream fails iff a ratio is configured and the layer's output exceeds ratio times what the layer has consumed, or, at the last layer, the output exceeds ratio times the wire bytes pulled |
| `StreamTrips.FailureHasACause` | crates/eggfetch-core/src/compression.rs:828-1003 | every failed run over an accepted body ends with a broken decoder or with a chunk over a ratio |
| `StreamTrips.WithoutRatioNothingTrips` | crates/eggfetch-core/src/compression.rs:828-1003 | without a ratio nothing but a broken decoder fails an accepted body, whatever the chunking |
| `StreamTrips.SizeTripIsTooLarge` | crates/eggfetch-core/src/compression.rs:918-1003 | whatever the chunking, a stream refused for its size has a full decoding beyond the size limit |
| `StreamTrips.SizeTripIsRefused` | crates/eggfetch-core/src/compression.rs:276-564 | the buffered path refuses that body too, with the error of its first layer out of order; that is the size error iff the size is the tighter bound and that layer's output is beyond it |
| `StreamTrips.SizeVerdictsAgree` | crates/eggfetch-core/src/compression.rs:276-564 | with one coding and no ratio both paths refuse with the same error |
| `BufferedToStreaming.EmitRest` | crates/eggfetch-core/src/compression.rs:296-362 | once a layer's input has ended it can emit all that is left, without tripping, and then end |
| `BufferedToStreaming.WithoutRatioEveryRunFinishes` | crates/eggfetch-core/src/compression.rs:276-564 | without a ratio no run over an accepted body gets stuck: every run without a broken decoder continues to an end that delivers the buffered path's bytes |
| `BufferedToStreaming.CanStreamIff` | crates/eggfetch-core/src/compression.rs:276-564 | an accepted body is delivered by some run that all decoders end iff no layer makes bytes from an empty input under a ratio |
| `BufferedToStreaming.BufferedRefinesStreaming` | crates/eggfetch-core/src/compression.rs:276-564 | for every body the buffered path accepts and every unfailed run over it, however chunked: the run has a continuation that finishes its open decoders iff none of those makes bytes from an empty input under a ratio and the wire can still be pulled or what was pulled allows for the whole body; and every run that finishes has delivered the buffered bytes |
| `BufferedToStreaming.StreamingUndoesEncoding` | crates/eggfetch-core/src/compression.rs:276-332 | for every header that lists the applied codings in order, every run of the stack set up from that header that reaches the end delivers the original body, under any limits |
| `BufferedToStreaming.EncodedRunCanFinish` | crates/eggfetch-core/src/compression.rs:296-332 | without limits every run over an encoded body, for every body, encoder and chunking, continues to an end that delivers the body, unless a decoder breaks |
| `StreamingExamples.UndrainedRunMayDiffer` | crates/eggfetch-core/src/compression.rs:296-332 | a concrete run that reaches the end although the outer layer is corrupt beyond what was read, which the buffered path refuses |
| `StreamingExamples.EarlyChunkMayTrip` | crates/eggfetch-core/src/compression.rs:918-1003 | two bytes that decode to two bytes under ratio 1: accepted when buffered, failed when both come out after the first was pulled |
| `StreamingExamples.BytesFromNothingDiffer` | crates/eggfetch-core/src/compression.rs:456-529 | a body accepted under ratio 1 whose inner layer decodes to nothing and whose outer one makes a byte of it: no run of the stream delivers it |
| `NativeBody.NativeResponseBody.constructor` | crates/eggfetch-core/src/body.rs:479-498 | a new body holds its lease, has no timers and is neither started nor done |
| `NativeBody.NativeResponseBody.PollFrame` | crates/eggfetch-core/src/body.rs:512-616 | the imperative poll is one step of the runs below, for every clock and inner result |
| `NativeBody.LeaseHeldIffNotDone` | crates/eggfetch-core/src/body.rs:455-616 | in every run the lease is held exactly until the body is done |
| `NativeBody.DoneIffTerminal` | crates/eggfetch-core/src/body.rs:512-616 | a poll leaves the body done iff it reports an error or the end |
| `NativeBody.AtMostOneError` | crates/eggfetch-core/src/body.rs:512-616 | after an error or the end only the end follows, so at most one error is reported |
| `NativeBody.DeliveredIsPrefix` | crates/eggfetch-core/src/body.rs:512-616 | delivered frames are a prefix of the inner frames, at most one shorter, and all of them while the body is not done |
| `NativeBody.DeadlineIsFixed` | crates/eggfetch-core/src/body.rs:455-466 | no poll changes the deadline or the read timeout |
| `NativeBody.PollIsExpected` | crates/eggfetch-core/src/body.rs:512-616 | in every run every poll answers exactly as a reference that knows no flag and no timer: from the earlier results, the clock readings of the poll and the inner result alone |
| `NativeBody.PendingPollIff` | crates/eggfetch-core/src/body.rs:585-616 | a pending poll that passed its deadline checks reports the total timeout iff the deadline is reached at the timer reading, else the read timeout iff the interval since the last arming has passed, else nothing |
| `NativeBody.FireTimeIs` | crates/eggfetch-core/src/timeout.rs:396-407 | a timer fires after the full interval if that instant is representable, else after the fallback, else at once |
| `NativeBody.NoFrameAfterDeadline` | crates/eggfetch-core/src/body.rs:512-616 | the poll that observes the deadline expired reports the total timeout, and neither it nor any later poll delivers a frame |
| `NativeBody.EveryRunIsHistory` | crates/eggfetch-core/src/body.rs:512-616 | in every run the flags and both timers hold exactly what the history says: started, over, the deadline, and the instant counted from the last arming |
| `NativeBody.ReadTimeoutIsEarned` | crates/eggfetch-core/src/body.rs:512-616 | a read timeout of the body's own is reported only while the inner body is pending, the total timer has not fired in that poll and the full interval has passed since the last arming |
| `LimitedStream.LimitedResponseStream.constructor` | crates/eggfetch-core/src/body.rs:757-765 | a new wrapper has counted nothing |
| `LimitedStream.LimitedResponseStream.PollNext` | crates/eggfetch-core/src/body.rs:766-795 | one poll of the wrapper is one step of the chain the theorem speaks about |
| `LimitedStream.NestedLimitsAreTheSmaller` | crates/eggfetch-core/src/body.rs:1021-1033 | around any wrappers, two more bounds and the smaller one alone give the same results and the same number of polls below, on every poll trace of any stream |
| `LimitedStream.EveryRunIsBounded` | crates/eggfetch-core/src/body.rs:766-795 | over every poll trace of any wrapped stream no more than the outermost bound is delivered |
| `LimitedStream.TrippedChainIsFused` | crates/eggfetch-core/src/body.rs:766-795 | once a bound has tripped nothing below is polled again and only the end is reported |
| `LimitedStream.CollectLimited` | crates/eggfetch-core/src/body.rs:1000-1018 | the collecting loop over any stack of limiting wrappers returns the first error, of the stream or of a bound, or all the bytes |
| `LimitedStream.CollectedIff` | crates/eggfetch-core/src/body.rs:1000-1018 | collecting succeeds iff no item is an error and the total is within every bound, and then gives the concatenation |
| `ResponseBodies.ResponseBody.constructor` | crates/eggfetch-core/src/body.rs:730-753 | a new body has released no permit |
| `ResponseBodies.ResponseBody.Attach` | crates/eggfetch-core/src/body.rs:901-923 | attaching replaces and releases an earlier permit, or releases the new one if the body cannot hold it |
| `ResponseBodies.ResponseBody.Take` | crates/eggfetch-core/src/body.rs:1095-1178 | taking a stream leaves the body consumed and moves its permit to the stream, or releases it when the decoders cannot be set up |
| `ResponseBodies.ResponseBody.Bytes` | crates/eggfetch-core/src/body.rs:1000-1018 | `bytes()` leaves the body consumed and its permit released, success or not, and returns the collected bytes or the first error of the stream, of a bound or of the decoder set-up |
| `ResponseBodies.StreamedBytesIff` | crates/eggfetch-core/src/body.rs:1000-1018 | on a stream `bytes()` succeeds iff no chunk failed and the total is within every bound ever applied, and then returns the concatenation |
| `ResponseBodies.LimitTwiceIsLimitOnce` | crates/eggfetch-core/src/body.rs:1021-1054 | on every body a second bound is the smaller bound alone: the same verdict on a buffered body, the same stored limit on an encoded one, the same answers on every trace of a plain stream |
| `ResponseBodies.LimitBufferedIff` | crates/eggfetch-core/src/body.rs:1021-1024 | a buffered body is refused iff it is longer than the limit, and `bytes()` hands it over otherwise; a consumed body yields nothing |
| `ResponseBodies.LimitStreamIff` | crates/eggfetch-core/src/body.rs:1025-1033 | after limiting a plain stream `bytes()` succeeds iff no chunk failed and the total is within every earlier bound and the new one, and no poll trace delivers more than it |
| `ResponseBodies.LimitEncodedIs` | crates/eggfetch-core/src/body.rs:1034-1051 | on an encoded body the new size limit is at most the old and the given one, and one of the two |
| `ResponseBodies.TakenIff` | crates/eggfetch-core/src/body.rs:1095-1178 | exactly what taking a body hands over: the bytes, the plain stream with its bounds, the encoded stream if raw, or else a stream decoded by exactly the codings its header lists |
| `ResponseBodies.AttachedIs` | crates/eggfetch-core/src/body.rs:901-923 | a streaming body holds the permit attached last and releases the one before; any other releases the new one; bounds and limits stay |
| `ResponseBodies.EndingReleases` | crates/eggfetch-core/src/body.rs:730-753 | the terminal item of a stream, its drop, `bytes()` and the drop of the body each release the permit held at once |
| `ResponseBodies.NextConserves` | crates/eggfetch-core/src/body.rs:730-923 | every call and poll keeps each permit with exactly one holder or released once |
| `ResponseBodies.EverySequenceConservesLeases` | crates/eggfetch-core/src/body.rs:901-1178 | after every sequence of calls each attached permit is with the body, with one stream, or released, exactly once |
| `ResponseBodies.AtMostOneConsumption` | crates/eggfetch-core/src/body.rs:1000-1178 | over every sequence of calls at most one consumption succeeds, and it leaves the body consumed |
| `ResponseBodies.AllGoneAllReleased` | crates/eggfetch-core/src/body.rs:730-753 | once the body is consumed or dropped and the streams have ended, exactly the attached permits are back in the pool |
| `ResponseBodies.ConsumedIsNeverLeft` | crates/eggfetch-core/src/body.rs:1095-1178 | whatever calls follow, a consumed body stays consumed |
| `ResponseBodies.LaterConsumptionsAreRefused` | crates/eggfetch-core/src/body.rs:1095-1178 | in every sequence of calls, once one has consumed the body every later `bytes`, `bytes_stream` or `raw_bytes_stream` is refused and changes nothing: no stream, no permit, no state |
| `Base64.PushQuantum` | crates/eggfetch-cli/src/output.rs:199-229 | one turn of the loop appends the four characters of a chunk of one to three bytes |
| `Base64.Base64Encode` | crates/eggfetch-cli/src/output.rs:199-229 | the chunk loop computes the encoding the lemmas below speak about |
| `Base64.QuantumDecodes` | crates/eggfetch-cli/src/output.rs:199-229 | each quantum, padded or not, is undone by the decoder of section 4 of RFC 4648 |
| `Base64.DecodeUndoesEncode` | crates/eggfetch-cli/src/output.rs:199-229 | decoding undoes encoding for every byte string |
| `Base64.EncodedLength` | crates/eggfetch-cli/src/output.rs:199-229 | the length is four times the number of started triples |
| `Base64.PaddingOnlyAtEnd` | crates/eggfetch-cli/src/output.rs:199-229 | a character is "=" iff it is the last one of an input that is not whole triples, or the last but one when a single byte is left over |
| `Forms.PushEncoded` | crates/eggfetch-cli/src/input.rs:67-82 | one turn of the loop appends the encoding of one byte |
| `Forms.PercentEncode` | crates/eggfetch-cli/src/input.rs:67-82 | the byte loop computes the encoding the lemmas below speak about |
| `Forms.DecodeUndoesEncode` | crates/eggfetch-cli/src/input.rs:67-82 | "+" and "%XX" decoding undoes it for every byte string |
| `Forms.LiteralIff` | crates/eggfetch-cli/src/input.rs:67-82 | letters, digits and "-", "_", ".", "~" stand for themselves and nothing else does; a space is "+" |
| `Forms.ArgumentIff` | crates/eggfetch-cli/src/input.rs:28-33 | an argument is accepted iff it is a name without "=", then "=", then a value, and gives exactly those two |
| `Forms.FieldRoundTrip` | crates/eggfetch-cli/src/main.rs:322-335 | an encoded field is never empty, holds no "&" and splits at its first "=" into its name and value |
| `Forms.FormRoundTrip` | crates/eggfetch-cli/src/main.rs:322-335 | parsing the joined body (section 5.1 of the WHATWG URL Standard) gives back every list of fields |
| `Forms.BuildFormBody` | crates/eggfetch-cli/src/main.rs:322-335 | the loop over the arguments succeeds iff each has an "=", and the body parses back to exactly the fields given |
| `Redaction.LeastFindIsFirst` | crates/eggfetch-cli/src/output.rs:129-138 | the least of the four searches is the first terminator, or the length |
| `Redaction.NextCut` | crates/eggfetch-cli/src/output.rs:120-150 | the searches of one turn decide between stopping, skipping and marking |
| `Redaction.EndOfUserinfo` | crates/eggfetch-cli/src/output.rs:129-138 | the computed end is the first terminator |
| `Redaction.ReplaceUserinfo` | crates/eggfetch-cli/src/output.rs:139-146 | the in-place edit keeps the text on both sides and moves the scan behind the mark |
| `Redaction.RedactCredentials` | crates/eggfetch-cli/src/output.rs:120-150 | the loop that edits the string it scans terminates and computes the redaction of the message |
| `Redaction.RedactedIsClean` | crates/eggfetch-cli/src/output.rs:120-150 | in the output every "://" whose "@" precedes any terminator has exactly the mark in between |
| `Redaction.CleanIsFixed` | crates/eggfetch-cli/src/output.rs:120-150 | a message in which nothing leaks is left unchanged |
| `Redaction.RedactionIsIdempotent` | crates/eggfetch-cli/src/output.rs:120-150 | redaction is idempotent, and changes a message iff something in it leaks |
| `RedactionMeaning.RedactionReplacesUserinfo` | crates/eggfetch-cli/src/output.rs:120-150 | a userinfo anywhere in a message becomes the mark, and the text before and after it is redacted on its own: nothing else is touched |
| `RedactionMeaning.UserinfoDoesNotShow` | crates/eggfetch-cli/src/output.rs:120-150 | messages that differ only in a userinfo have the same redaction |

## Left out

- The gzip, deflate, brotli and zstd algorithms and the deflate framing sniff: each coding is one function from input bytes to output bytes and an ending.
- Feature gating and `accept_encoding_value`: compile-time configuration; all four codings are present.
- Floating-point rounding, NaN and infinite ratios: ratios are reals, and the ratio test multiplies where the source divides (`Buffered.OverRatioIsQuotientTest` relates the two).
- `url::Url`, the text of `Set-Cookie`, dates, IP literals and clocks: inputs of the model; overflow of `SystemTime` in the Max-Age addition and wrap-around of the creation counter are not modelled.
- Lower-casing beyond ASCII in a cookie key, and trimming of white space beyond ASCII in a header value.
- The clock reading, validation and parsing that `set` and `update_from_response` do before their lock: merged with the lock step, since they touch only the thread's own data and the clock is arbitrary.
- CookieLookup.RequestHeader: is the call run alone; among other threads a lookup is the labels `CheckUnderRead`, `CheckUnderWrite` and `Read` of `CookieThreads`, about which `CookieLookup.LookupAnswersReference` and `CookieLookup.LookupIsStaleIff` speak.
- Streaming.StreamingRefinesBuffered: sizes are at most `usize::MAX`, as any body in memory is; beyond that the saturated counters no longer determine the ratio.
- The absent per-layer limiter of a stream without a ratio: modelled as a limiter without limits, which passes everything. `CountingStream` is `Streaming.Feed`.
- `saturating_fetch_add` as a loop: it is modelled as the steps of its loop under interleaving, where the result of interest lies.
- The link from the decoded stream that `ResponseBody` hands out to the decoder stack, and the timeouts of its lease policy: `bytes()` takes the items its stream yields as given.
- NativeBody.ReadTimeoutIsEarned: sets apart an inner body that itself fails with a read timeout, which is passed through unchanged.
- Lock poisoning, `Debug` output and memory ordering weaker than sequential consistency on the single counter.
- `all_cookies`, `get`, the pool, retries, redirects, proxies, `client.rs`, header and authentication helpers, request bodies, argument handling, file output, bindings and scripts: they would add only easy members or are other subsystems.
