# Envoy proxy extensions: a verified model

This project models, in Dafny, the stateful and arithmetic parts of a set of Envoy extensions and
proves what they promise over every input and every run.

| file | component |
|---|---|
| `Common.dfy` | optional values, machine integers and 64-bit wrap-around |
| `Numerals.dfy`, `BigInteger.dfy` | the `java.math.BigInteger` printer of the Dubbo bridge: in-place long division of base-2^32 words into nine-digit groups, then a signed decimal numeral |
| `Hessian.dfy`, `JsonBridge.dfy` | JSON to Hessian and back, for every iteration order of the hash maps |
| `GenericTypes.dfy` | `populateGenericTypes`, passes over a tree against one annotation of it |
| `DubboFrames.dfy`, `DubboUpstream.dfy` | the response stream with its heartbeats, and the stream object that router, dispatcher and connection drive |
| `CacheEntries.dfy`, `LruCache.dfy`, `LocalCache.dfy` | the LRU cache and its sixteen shards |
| `CacheSender.dfy` | lookup through the cache levels, and the fill |
| `RedisClient.dfy` | the asynchronous Redis client on top of hiredis |
| `FilterStream.dfy`, `DynamicDowngrade.dfy`, `ServiceDowngrade.dfy` | the two downgrade filters between upstream and client |
| `RollingNumber.dfy`, `CircuitBreaker.dfy` | the pruned rolling sums and the breaker on top of them |
| `JsonEscape.dfy` | `escapeForJson` against the string grammar of section 7 of RFC 8259 |

Objects that the program updates in place are classes. What surrounds such an object (bytes received,
notices given, callbacks run, what the client has) is ghost state or a parameter, and `Valid()` ties
the fields to it. A method called `Lifetime` drives an object through an arbitrary list of calls, so its
postcondition is about every run. A debug-only `ASSERT` of the program does not restrict the model where the
release build goes on without it.

A method is proved against a function of its inputs, and that function is tied to laws stated without it: what
number is written for a BigInteger, what kind of value a JSON document becomes, what each Dubbo frame is answered
with, that the cache keeps its items in the order of their last uses, what each level is given, which updates trip
the breaker, which headers the client gets.

Some promises hold only under a condition, and the condition is part of what is proved:

- How the upstream bytes are split never matters exactly when the body decoders answer from the body of
  their own frame; the decoder is handed everything buffered behind the header
  (`DubboFrames.ChunkIndependence`, `DubboFrames.OverreadExample`). For any decoder, the end of a truncated
  stream is noticed exactly when the last chunk has bytes (`DubboFrames.EndNoticed`,
  `DubboFrames.EmptyEndIsLost`).
- Response headers and stream reset together reach the router at most once exactly when no queued local
  reply is sent after upstream bytes were answered on a stream that is still up; answering only after a request
  was written is enough (`DubboUpstreams.Lifetime`, `DubboUpstreams.UnaskedAnswerExample`).
- Converting a JSON document and writing it back is exact on exactly the `Lossless` documents: nothing but
  null at depth 50, and no first member of a name dropped for being null, unless a later member of that name
  stands in for it with the null of depth 50 (`JsonBridge.LosslessExactly`, `JsonBridge.JsonRoundTripExact`).
- An insertion keeps a shard's bytes within its maximum exactly when they and the new entry together fit
  into the 64-bit counter; past that nothing is evicted (`LruCache.LruCacheImpl.Insert`,
  `LruCache.WrapExample`). The program does not get there: a shard's maximum is below 2^60, so every value of at
  most 15/16 of 2^64 bytes keeps it (`LocalCaches.LocalCache.InsertCache`), and the one caller, `insertResponse` at
  source/common/sender/cache_request_sender.cc:294-309, inserts at most 512 KB.
- The fill reaches every level with a lifetime exactly when the entry has a message or no level before the
  last has a lifetime: a copy of an entry without a message is nothing, and the last level gets the entry
  itself (`CacheSender.FillReachesAll`, `CacheSender.MessagelessFillExample`). What is written is the original with
  a new expiry exactly when the original is as long as its message, has none or is never copied
  (`CacheSender.FillKeepsLength`). The one caller,
  `insertResponse` at source/common/sender/cache_request_sender.cc:294-309, always has a message. Every expiry
  is now plus lifetime exactly when that fits into 64 bits on every written level (`CacheSender.ExpiriesExact`,
  `CacheSender.WrappedExpiryExample`).
- A nonempty command map means a working Redis client exactly while the client works or no command that
  hiredis refused is left in the map (`RedisClients.AsyncClient.NonEmptyMeansWorking`). A client that loses its
  connection strands callbacks exactly when such a command is left (`RedisClients.AsyncClient.DisconnectCb`,
  `RedisClients.RefusedCommandExample`). Even then they run by the end.
- A Redis client that wants to reconnect is dead for good exactly after an attempt that got no usable context:
  it is still marked as reconnecting and no timer is set (`RedisClients.Perform`, `RedisClients.Lifetime`,
  `RedisClients.LostRetryExample`).
- Every Redis callback runs exactly once unless another one is stored under its id meanwhile; ids are 64 bits
  wide, so that takes more than 2^64 commands (`RedisClients.AsyncClient.Get`, `RedisClients.Lifetime`,
  `RedisClients.OverwrittenExample`).
- The breaker trips on consecutive slow requests exactly when their number modulo 2^32 reaches the limit
  (`CircuitBreakers.SlowCounterIsRun`, `CircuitBreakers.SlowWrapExample`).
- In a window of the breaker the errors are within the requests exactly when no more failed updates straddle
  its beginning than updates without an error are in it: an update reads the clock once for the request and
  again for the error (`CircuitBreakers.ErrorsWithinRequests`, `CircuitBreakers.StraddlingExample`).
- The side request of a downgrade carries the request bytes received before the response headers. That is the
  whole request body exactly when no more bytes come after them (`DynamicDowngrade.Lifetime`,
  `ServiceDowngrade.Lifetime`).

A BigInteger with a nonzero signum and an empty magnitude is written as the text "" or "-".

## Model

| member | source | states |
|---|---|---|
| Numerals.DecimalRoundTrip | source/common/dubbo/utility.cc:460-463 | the digits printed for a number read back as that number |
| Numerals.DecimalSplit | source/common/dubbo/utility.cc:459-470 | the numeral of a * 10^k + b is the numeral of a followed by exactly the k low digits of b |
| Numerals.FillZeroIsLowDigits | source/common/dubbo/utility.cc:465-468 | a group below 10^k takes at most k digits, and filled with zeros it is exactly its k low digits |
| BigInteger.DivideOne | source/common/dubbo/utility.cc:287-289 | dividend = digit * 10^9 + rest with the digit a word, without leaving 64 bits |
| BigInteger.DivideByWord | source/common/dubbo/utility.cc:278-304 | in place: old value = new value * 10^9 + remainder, words stay below 2^32, no 64-bit overflow, and `from` stops at the first nonzero word |
| BigInteger.Groups | source/common/dubbo/utility.cc:451-458 | the loop terminates; the groups denote the magnitude; the leading group is nonzero unless the magnitude is zero |
| BigInteger.GroupTextIsDecimal | source/common/dubbo/utility.cc:459-470 | the zero-filled concatenation of the groups is the canonical decimal numeral of the number they denote |
| BigInteger.AppendGroups | source/common/dubbo/utility.cc:459-470 | the reversed loop appends the most significant group bare and every other filled to nine digits |
| BigInteger.PrintWords | source/common/dubbo/utility.cc:451-477 | an int64 when the signed value fits, otherwise its exact decimal numeral as text |
| BigInteger.ConvertBigInteger | source/common/dubbo/utility.cc:382-478 | for every instance, well formed or not, and the last fields named "mag" and "signum": null where a field, its value or its kind is missing, zero for a zero sign, otherwise the number sign times the sum of (item mod 2^32) * 2^(32 * (n - 1 - i)), as an int64 if it fits and else as its numeral, with a minus exactly when negative |
| BigInteger.SignedNumberWrites | source/common/dubbo/utility.cc:423-477 | what is written for a sign and items spells exactly that number |
| BigInteger.ConvertExamples | source/common/dubbo/utility.cc:382-478 | 5, -5, 2^32 + 2 and 2^32 - 1 from one or two words |
| JsonBridge.FromJsonMeaning | source/common/dubbo/utility.cc:72-124 | for every document, repeated names included: a converted document means the document with null members dropped on request, the first member of a name, and everything from depth 50 on replaced by null |
| JsonBridge.BecomesExactly | source/common/dubbo/utility.cc:72-124 | a document becomes a value if and only if that value has the right kind at every position: strings, int32 integers, other int64 longs, all other numbers doubles, untyped lists and maps, the member that counts under each name, null from depth 50 on; and nothing binary, dated, typed or of a class occurs anywhere |
| JsonBridge.ReadEmit | source/common/dubbo/utility.cc:501-621 | whatever order each single map is iterated in, what is written for a value of scalars, lists, string-keyed maps and instances of unregistered classes reads back as its meaning and leaves the rest alone |
| JsonBridge.ScalarsWritten | source/common/dubbo/utility.cc:517-597 | the one call on the writer for each kind of scalar; binary data as a string, a date as its milliseconds, a class without definition as null |
| JsonBridge.ContainersRead | source/common/dubbo/utility.cc:598-621 | a list, typed or not, reads back as what its items read back as, in order; a map, typed or not, as what its entries do, under their names |
| JsonBridge.InstanceRead | source/common/dubbo/utility.cc:501-515 | a class instance reads back as its field values under the field names, the first of a repeated name, as many as there are both names and values |
| JsonBridge.JsonRoundTrip | source/common/dubbo/utility.cc:72-124 | converting and writing any document, under any hash order, gives its meaning with null members dropped on request and the cut at depth 50 |
| JsonBridge.JsonRoundTripKeepingNulls | source/common/dubbo/utility.cc:72-124 | with null members kept, the round trip of any document is its meaning cut at depth 50 |
| JsonBridge.LosslessExactly | source/common/dubbo/utility.cc:74-119 | dropping and cutting change nothing exactly when every node at depth 50 is null already and no null member that counts is dropped |
| JsonBridge.JsonRoundTripExact | source/common/dubbo/utility.cc:72-124 | the round trip is exact on exactly those documents |
| GenericTypes.PopulateGenericTypes | source/common/dubbo/utility.cc:740-748 | running the passes in list order is the one-pass annotation of the tree |
| GenericTypes.PassExtendsAnnotation | source/common/dubbo/utility.cc:694-738 | a pass over an annotated tree is the annotation with one more type: additions never change what a later path matches |
| GenericTypes.AnnotateIdempotent | source/common/dubbo/utility.cc:740-748 | applying the list twice is applying it once |
| GenericTypes.AnnotatedAt | source/common/dubbo/utility.cc:694-738 | every position is kept, and a map gains "class" exactly when it had none and some path matches; the value is the first matching type |
| GenericTypes.OnlyClassAdded | source/common/dubbo/utility.cc:701-708 | a position that is new is such a "class" member and nothing else |
| GenericTypes.FirstMatchLeads | source/common/dubbo/utility.cc:694-748 | the match of a position is the name of the first type whose path leads there, "*" standing for any item or member |
| GenericTypes.FindStep | source/common/dubbo/utility.cc:694-738 | positions go through the items of untyped lists and the members of untyped maps only |
| DubboFrames.ParseAfterSkip | source/upstreams/http/dubbo/upstream_request.cc:189-212 | dropping complete heartbeats before more bytes come changes neither outcome nor what is skipped |
| DubboFrames.SkipIsComplete | source/upstreams/http/dubbo/upstream_request.cc:189-212 | what is left after the loop starts with no complete heartbeat and has the same outcome |
| DubboFrames.AnswerIsFinal | source/upstreams/http/dubbo/upstream_request.cc:214-320 | with a local decoder an answer is the answer to every longer stream |
| DubboFrames.RunIsParse | source/upstreams/http/dubbo/upstream_request.cc:396-410 | with a local decoder any list of chunks, empty ones included, has the outcome of the bytes as a whole, and an end of stream counts if and only if the last chunk has bytes |
| DubboFrames.ChunkIndependence | source/upstreams/http/dubbo/upstream_request.cc:396-410 | over all lists of chunks, the split never matters if and only if the body decoders are local |
| DubboFrames.OverreadExample | source/upstreams/http/dubbo/upstream_request.cc:243-268 | a decoder that looks past its body answers the same bytes differently when they come apart |
| DubboFrames.EndNoticed | source/upstreams/http/dubbo/upstream_request.cc:396-410 | for any decoder, a truncated stream is reported if and only if its last chunk has bytes |
| DubboFrames.EmptyEndIsLost | source/upstreams/http/dubbo/upstream_request.cc:396-399 | however a truncated stream came, an end that comes with an empty chunk goes unnoticed |
| DubboFrames.ReplyKinds | source/upstreams/http/dubbo/upstream_request.cc:214-320 | success exactly for an OK response with a value that fits or with null, the exception code exactly for one with an exception that fits, close exactly for protocol errors, value kind exactly on success |
| DubboFrames.WantedIsParsed | source/upstreams/http/dubbo/upstream_request.cc:177-320 | status, kind, payload and close flag of the answer to the first frame behind whole heartbeats, by its header, shape, status and size, and to a truncated stream |
| DubboFrames.SomethingWanted | source/upstreams/http/dubbo/upstream_request.cc:177-320 | every stream has such an answer, or none yet |
| DubboUpstreams.DubboUpstream.constructor | source/upstreams/http/dubbo/upstream_request.cc:69-74 | an open stream, nothing written, heard or said, default codes 501 and 503 |
| DubboUpstreams.DubboUpstream.Cleanup | source/upstreams/http/dubbo/upstream_request.cc:377-392 | guard, stream and connection are let go; the connection is closed only on request and if still held |
| DubboUpstreams.DubboUpstream.ResetStream | source/upstreams/http/dubbo/upstream_request.cc:394-394 | the stream is let go and a held connection closed |
| DubboUpstreams.DubboUpstream.Destroy | source/upstreams/http/dubbo/upstream_request.cc:76-79 | a held connection is closed unless a response without the close flag was sent |
| DubboUpstreams.DubboUpstream.WriteRequest | source/upstreams/http/dubbo/upstream_request.cc:119-172 | the first call writes, or queues exactly one local reply; later calls do nothing; the route's codes take effect |
| DubboUpstreams.DubboUpstream.HandleRawResponse | source/upstreams/http/dubbo/upstream_request.cc:322-349 | headers, then the body unless it is empty or the router reset the stream meanwhile |
| DubboUpstreams.DubboUpstream.HandleResponse | source/upstreams/http/dubbo/upstream_request.cc:351-365 | the getter's body and, if it gives one, its code; plain JSON without a getter; what either throws is thrown and then nothing has changed |
| DubboUpstreams.DubboUpstream.RunPosted | source/upstreams/http/dubbo/upstream_request.cc:137-144 | a queued reply is shown with code 400 or the getter's own if the stream is still up and dropped if not; what making it throws leaves the callback |
| DubboUpstreams.DubboUpstream.ReadResponse | source/upstreams/http/dubbo/upstream_request.cc:177-320 | the loop terminates and the outcome is that of the buffered bytes as a whole; while waiting exactly the complete heartbeats are gone |
| DubboUpstreams.DubboUpstream.OnUpstreamData | source/upstreams/http/dubbo/upstream_request.cc:396-410 | ignored after an answer, after cleanup or without bytes; otherwise the router gets the wanted answer to everything ever received, 200 or the configured code or the getter's own, headers and then the body, or an error where making it throws |
| DubboUpstreams.DubboUpstream.AnswerUpstream | source/upstreams/http/dubbo/upstream_request.cc:396-410 | a reply that cannot be made is replaced, once, by an error that says why; only a throw inside the handler leaves the callback |
| DubboUpstreams.DubboUpstream.OnEvent | source/upstreams/http/dubbo/upstream_request.cc:412-434 | a closed connection resets an unanswered stream once and lets an answered one go silently |
| DubboUpstreams.DubboUpstream.OnWatermark | source/upstreams/http/dubbo/upstream_request.cc:436-446 | forwarded exactly while the stream is up |
| DubboUpstreams.Lifetime | source/upstreams/http/dubbo/upstream_request.cc:76-434 | over every interleaving: one write at most; once the stream is let go of, and it is by every reset and close, the router hears nothing more; connection left open only after an answer without close or a reported close; one final notice at most if and only if no call of the run sends the queued reply on an answered stream, which takes bytes answered before a request was written |
| DubboUpstreams.UnaskedAnswerExample | source/upstreams/http/dubbo/upstream_request.cc:137-144 | a frame answered before the request, then a queued reply: two final notices, for every decoder and frame as long as plain JSON does not throw |
| LruCache.DrainedIsPrefix | source/common/cache/local_cache_impl.cc:25-30 | eviction keeps a prefix of the recency order whose counter fits, takes nothing needlessly and no round too many, and spares the newest item if that fits |
| LruCache.DrainedFitsExactly | source/common/cache/local_cache_impl.cc:21-30 | after an insertion the bytes really kept are within the maximum if and only if their sum did not wrap around the 64-bit counter; if it did, nothing is evicted |
| LruCache.PrefixIsLater | source/common/cache/local_cache_impl.cc:25-30 | in a list ordered by last use every prefix was used later than all that follows it |
| LruCache.SizesAgree | source/common/cache/local_cache_impl.h:45-56 | list, dictionary and contents have one size, so the repair branch is never taken |
| LruCache.LruCacheImpl.constructor | source/common/cache/local_cache_impl.cc:14-14 | an empty, coherent cache with the given maximum |
| LruCache.LruCacheImpl.RemoveImpl | source/common/cache/local_cache_impl.cc:60-68 | exactly the key goes from list, dictionary and counter; within the maximum the counter is the exact sum and does not underflow |
| LruCache.LruCacheImpl.Remove | source/common/cache/local_cache_impl.cc:55-58 | exactly the key goes |
| LruCache.LruCacheImpl.DrainNumber | source/common/cache/local_cache_impl.cc:80-91 | exactly the given number of least recent items goes, or all |
| LruCache.LruCacheImpl.Insert | source/common/cache/local_cache_impl.cc:16-31 | the contents are the drained list of the new item and the others; list, dictionary and counter agree modulo 2^64; the maximum is kept if and only if the sum fits into 64 bits; whatever goes was last used before everything that stays |
| LruCache.LruCacheImpl.Recall | source/common/cache/local_cache_impl.cc:28-30 | the eviction loop terminates and leaves the drained contents |
| LruCache.LruCacheImpl.CheckMemory | source/common/cache/local_cache_impl.h:45-56 | clears everything when the sizes differ and changes nothing otherwise |
| LruCache.LruCacheImpl.Lookup | source/common/cache/local_cache_impl.cc:33-53 | an unexpired stored entry with a message is always returned, as a copy, and its key becomes the most recently used; exactly an expired one is dropped; nothing stored is ever cleared by the repair branch |
| LruCache.WrapExample | source/common/cache/local_cache_impl.cc:16-31 | an insertion that wraps the counter evicts nothing, and a removal then leaves the counter above the maximum |
| LocalCaches.LocalCache.constructor | source/common/cache/local_cache_impl.cc:93-106 | sixteen distinct empty shards of a sixteenth of the maximum, 128 MB by default |
| LocalCaches.LocalCache.LookupCache | source/common/cache/local_cache_impl.cc:108-111 | nothing, or a copy of the value last inserted for the key, not removed since and unexpired now; never nothing while such a value is stored with a message; exactly the expired item of the key goes |
| LocalCaches.LocalCache.InsertCache | source/common/cache/local_cache_impl.cc:120-122 | the value is last for its key and is stored unless it alone exceeds its shard; the maximum is kept if and only if the shard and the value fit into 64 bits together, and by every value of at most 15/16 of 2^64 bytes |
| LocalCaches.LocalCache.RemoveCache | source/common/cache/local_cache_impl.cc:124-126 | nothing is current for the key any more, the other keys of its shard stay |
| LocalCaches.LocalCache.StoredWithinMaximum | source/common/cache/local_cache_impl.cc:99-105 | as long as no insertion has wrapped a counter, all shards together store no more than the configured maximum |
| LocalCaches.SameShard | source/common/cache/local_cache_impl.cc:108-126 | two keys share a shard exactly when their first bytes agree modulo 16 |
| CacheSender.SilentAfterCancel | source/common/sender/cache_request_sender.h:109-112 | whatever happens after a cancel, nothing is promised beyond what was before it |
| CacheSender.NoticeIsFinal | source/common/sender/cache_request_sender.cc:186-218 | a notice is neither taken back nor followed by another |
| CacheSender.NoticesExactly | source/common/sender/cache_request_sender.cc:186-218 | success with level and entry exactly for the first hit, failure exactly when every level of a started lookup missed |
| CacheSender.HeardAll | source/common/sender/cache_request_sender.cc:186-218 | without a cancel every answer is heard, and the next level is asked exactly after a miss that was not the last |
| CacheSender.ToldOnce | source/common/sender/cache_request_sender.cc:186-218 | once the caller has been told, no further call changes what it has been told |
| CacheSender.CancelSilences | source/common/sender/cache_request_sender.h:109-112 | for every list of calls, whatever is called after a cancel leaves what the caller has been told as it was |
| CacheSender.FillReachesAll | source/common/sender/cache_request_sender.cc:228-241 | every considered level with a lifetime is written if and only if the entry has a message or no level before the last has a lifetime |
| CacheSender.MessagelessFillExample | source/common/sender/cache_request_sender.cc:228-241 | an entry without a message reaches the second of two levels and not the first |
| CacheSender.FillKeepsLength | source/common/sender/cache_request_sender.cc:230-241 | every written entry is the original with only its expiry changed if and only if the original is as long as its message, has none or is never copied |
| CacheEntries.SizeAdds | source/common/cache/http_cache_entry.h:34-38 | the length of a message is that of all header names and values and of the body |
| CacheSender.ExpiriesExact | source/common/sender/cache_request_sender.cc:230-238 | every written entry expires at now plus the lifetime of its level if and only if that sum fits into 64 bits for every written level |
| CacheSender.WrappedExpiryExample | source/common/sender/cache_request_sender.cc:230-238 | a lifetime that passes 2^64 makes an entry that expired at time zero |
| CacheSender.CacheGetterSetter.constructor | source/common/sender/cache_request_sender.cc:170-172 | no key, no lookup, no hit |
| CacheSender.CacheGetterSetter.SetCacheKey | source/common/sender/cache_request_sender.h:99-105 | the first key counts |
| CacheSender.CacheGetterSetter.CancelLookup | source/common/sender/cache_request_sender.h:109-112 | the lookup is cancelled; what was promised stays |
| CacheSender.CacheGetterSetter.LookupCache | source/common/sender/cache_request_sender.cc:174-184 | fails without levels, callback or key and starts otherwise |
| CacheSender.CacheGetterSetter.LookupCacheOnce | source/common/sender/cache_request_sender.cc:186-218 | does nothing when over, stopped or without a callback; reports failure past the last level; asks the current level otherwise |
| CacheSender.CacheGetterSetter.OnLevelAnswer | source/common/sender/cache_request_sender.cc:197-215 | a hit is reported with its level, a miss moves on, and anything after the end is ignored |
| CacheSender.CacheGetterSetter.NoticesAsPromised | source/common/sender/cache_request_sender.cc:186-218 | the caller knows exactly what the history promises: the first hit, or failure after every level missed; `hit_in_cache_` is that level |
| CacheSender.CacheGetterSetter.InsertCache | source/common/sender/cache_request_sender.cc:220-242 | only the levels before the hit, or all after a miss, once each and in order, with the original message and their own expiry; the last has the length of the original, a copy that of its message; the entry is not used after it is moved |
| CacheSender.Lifetime | source/common/sender/cache_request_sender.cc:174-218 | over every run the calls alone decide what has happened and what the caller has been told: at most one notice, for the first hit or after every level missed, and by `CancelSilences` none after a cancel |
| RedisClients.AsyncClient.constructor | source/common/redis/async_client.cc:10-30 | nothing registered; the first connection attempt made |
| RedisClients.AsyncClient.Connect | source/common/redis/async_client.cc:32-58 | a usable context is attached, any failure leaves none and runs what is registered |
| RedisClients.AsyncClient.Get | source/common/redis/async_client.cc:68-78 | a working client stores the callback under the next 64-bit id, any other does nothing; a callback still stored there is overwritten, which takes 2^64 commands before |
| RedisClients.AsyncClient.CommandCb | source/common/redis/async_client.h:187-216 | a reply on the attached context runs the callback stored under its id once and forgets it: with the text if there is one, else the error text of the context, else nothing; it is the command's own callback unless one was overwritten; on any other context nothing |
| RedisClients.AsyncClient.ResetAsyncContext | source/common/redis/async_client.h:218-240 | the context is let go, and every registered callback runs once with nothing |
| RedisClients.AsyncClient.RunRemaining | source/common/redis/async_client.h:235-239 | whatever is registered runs once, with nothing, in any order |
| RedisClients.AsyncClient.ConnectCb | source/common/redis/async_client.h:120-161 | success leads to authentication or straight to work and resets the retry count, and a refused AUTH command leaves the client connected only; failure lets the context go and retries or ends |
| RedisClients.AsyncClient.AuthenticateCb | source/common/redis/async_client.h:99-118 | success makes the client work, failure ends it for good |
| RedisClients.AsyncClient.DisconnectCb | source/common/redis/async_client.h:163-181 | a passive disconnect lets the context go and retries or ends, and strands callbacks if and only if a refused command is left in the map; an active one changes nothing |
| RedisClients.AsyncClient.WaitingToReconnect | source/common/redis/async_client.h:242-262 | a timer while retries are wanted and left, the end otherwise, nothing while one is pending |
| RedisClients.AsyncClient.ReconnectCb | source/common/redis/async_client.h:183-185 | the timer makes one more attempt; without a usable context the client is dead though still marked as reconnecting |
| RedisClients.AsyncClient.Destroy | source/common/redis/async_client.h:70-78 | every callback ever registered has run if and only if it was not overwritten |
| RedisClients.AsyncClient.NonEmptyMeansWorking | source/common/redis/async_client.h:163-240 | a nonempty map means a working client with a live context if and only if the client works or no refused command is left in the map |
| RedisClients.Perform | source/common/redis/async_client.h:99-262 | a dead client does not change; one that wants to reconnect dies if and only if its timer fires and no usable context comes; a client whose AUTH command was refused does not change until it is disconnected; a callback is overwritten exactly by a command under its id |
| RedisClients.Lifetime | source/common/redis/async_client.h:70-262 | over every run ending in destruction no callback ran twice and each ran unless overwritten, which takes more than 2^64 commands; a dead client never works, registers or runs anything again; the condition on the map holds in every state |
| RedisClients.RefusedCommandExample | source/common/redis/async_client.cc:73-77 | a refused command outlives its connection in the map |
| RedisClients.LostRetryExample | source/common/redis/async_client.h:183-185 | a client that should reconnect and is marked as reconnecting, with no context and no timer |
| RedisClients.OverwrittenExample | source/common/redis/async_client.cc:73-77 | after 2^64 commands with the first unanswered, the next takes its id and its callback is lost |
| DynamicDowngrade.HttpDynamicDowngradeFilter.DecodeHeaders | source/filters/http/dynamic_downgrade/dynamic_downgrade_filter.cc:181-194 | a downgrade is considered exactly for a request that matches the route |
| DynamicDowngrade.HttpDynamicDowngradeFilter.DecodeData | source/filters/http/dynamic_downgrade/dynamic_downgrade_filter.cc:196-202 | request bytes may come before or after the response headers; those before are kept where a side request will need them |
| DynamicDowngrade.HttpDynamicDowngradeFilter.EncodeHeaders | source/filters/http/dynamic_downgrade/dynamic_downgrade_filter.cc:204-293 | paused exactly when the response matches and the side request is under way and not already over; the side request carries exactly the request bytes received so far, or none to the cache |
| DynamicDowngrade.HttpDynamicDowngradeFilter.Classify | source/filters/http/dynamic_downgrade/dynamic_downgrade_filter.cc:204-232 | downgrade needs both matches, caching needs the request match, no response match and the cache conditions |
| DynamicDowngrade.HttpDynamicDowngradeFilter.CacheResponse | source/filters/http/dynamic_downgrade/dynamic_downgrade_filter.cc:243-256 | a cache-only response passes, cached at once if it has no body |
| DynamicDowngrade.HttpDynamicDowngradeFilter.SendDowngradeRequest | source/filters/http/dynamic_downgrade/dynamic_downgrade_filter.cc:257-292 | pause or suspend, and which |
| DynamicDowngrade.HttpDynamicDowngradeFilter.EncodeData | source/filters/http/dynamic_downgrade/dynamic_downgrade_filter.cc:295-325 | original data passes, or is dropped and replaced at the end by the whole replacement body |
| DynamicDowngrade.HttpDynamicDowngradeFilter.OnSuccess | source/filters/http/dynamic_downgrade/dynamic_downgrade_filter.cc:327-352 | a paused stream is resumed with the replacement, any other is left alone |
| DynamicDowngrade.HttpDynamicDowngradeFilter.OnFailure | source/filters/http/dynamic_downgrade/dynamic_downgrade_filter.cc:354-366 | a paused stream is resumed with the original, any other is left alone |
| DynamicDowngrade.HttpDynamicDowngradeFilter.OnDestroy | source/filters/http/dynamic_downgrade/dynamic_downgrade_filter.cc:371-375 | a side request still under way is cancelled |
| DynamicDowngrade.Lifetime | source/filters/http/dynamic_downgrade/dynamic_downgrade_filter.cc:181-375 | in every run, with request bytes before and after the response headers, the client gets the original, or the headers of the side response with x-downgrade-status: DYNAMIC and its body, never a mixture; the pause is decided by the matches and the send, resumption and replacement by the first completion after it; a cache-only response is unchanged and cached whole |
| FilterStreams.FirstSideIsFirst | source/filters/http/dynamic_downgrade/dynamic_downgrade_filter.cc:327-366 | the completion that counts is the first one after the send |
| FilterStreams.JoinedInOrder | source/filters/http/dynamic_downgrade/dynamic_downgrade_filter.cc:196-202 | request bytes are joined in the order they come |
| FilterStreams.UploadedInOrder | source/filters/http/dynamic_downgrade/dynamic_downgrade_filter.cc:196-202 | so are those among the steps after the response headers |
| ServiceDowngrade.Filter.DecodeHeaders | source/filters/http/service_downgrade/service_downgrade.cc:55-68 | a downgrade is considered exactly for a request that matches the route |
| ServiceDowngrade.Filter.DecodeData | source/filters/http/service_downgrade/service_downgrade.cc:70-75 | request bytes may come before or after the response headers; those before are kept for the side request |
| ServiceDowngrade.Filter.EncodeHeaders | source/filters/http/service_downgrade/service_downgrade.cc:77-139 | paused exactly when the response matches and the side request is under way and not already over; the side request carries exactly the request bytes received so far |
| ServiceDowngrade.Filter.SendDowngradeRequest | source/filters/http/service_downgrade/service_downgrade.cc:98-138 | pause or suspend, and which |
| ServiceDowngrade.Filter.EncodeData | source/filters/http/service_downgrade/service_downgrade.cc:141-154 | original data passes, or is dropped and replaced at the end by the whole replacement body |
| ServiceDowngrade.Filter.OnSuccess | source/filters/http/service_downgrade/service_downgrade.cc:156-180 | a paused stream is resumed with the replacement, any other is left alone |
| ServiceDowngrade.Filter.OnFailure | source/filters/http/service_downgrade/service_downgrade.cc:182-193 | a paused stream is resumed with the original, any other is left alone |
| ServiceDowngrade.Filter.OnDestroy | source/filters/http/service_downgrade/service_downgrade.cc:198-205 | the exchange is over; later completions find nothing to resume |
| ServiceDowngrade.Lifetime | source/filters/http/service_downgrade/service_downgrade.cc:55-205 | as for the dynamic filter without a cache and with SERVICE, and completions after destruction change nothing |
| RollingNumbers.RollingNumber.constructor | source/common/stats/rolling_number.cc:8-10 | an empty window of whole seconds |
| RollingNumbers.RollingNumber.RemoveOldBuckets | source/common/stats/rolling_number.cc:51-56 | every bucket before the window goes, and no sum that can still be asked for changes |
| RollingNumbers.RollingNumber.AddToCurrent | source/common/stats/rolling_number.cc:42-49 | the amount is added to the current second and to no other |
| RollingNumbers.RollingNumber.Increment | source/common/stats/rolling_number.cc:27-32 | the increment is in the log, pruned buckets stay equivalent to it, and at most window + 1 remain |
| RollingNumbers.RollingNumber.Sum | source/common/stats/rolling_number.cc:12-25 | the sum of all increments ever made at or after the first nanosecond of the window, pruned or not; one second is 10^9 nanoseconds |
| RollingNumbers.RollingNumber.BucketBound | source/common/stats/rolling_number.cc:51-56 | at most one bucket per second of the window and one more |
| RollingNumbers.WindowByTime | source/common/stats/rolling_number.cc:12-45 | the seconds later than now minus the window are the times from that nanosecond on |
| CircuitBreakers.MemoryOfTrips | source/filters/http/circuit_breaker/impl.cc:60-63 | the remembered end is the latest of all tripping updates, and once forgotten all of them are over |
| CircuitBreakers.OpenIffRemembered | source/filters/http/circuit_breaker/impl.cc:8-21 | the remembered end decides exactly whether some tripping update is not older than the break duration |
| CircuitBreakers.SlowCounterIsRun | source/filters/http/circuit_breaker/impl.cc:31-39 | the counter is, modulo 2^32, the number of slow updates since the last fast one or observed expiry, and stays zero without a threshold |
| CircuitBreakers.SlowWrapExample | source/filters/http/circuit_breaker/impl.cc:31-48 | of slow updates in a row and a limit of one, number n trips the breaker if and only if n modulo 2^32 is not zero |
| CircuitBreakers.TrippingExactly | source/filters/http/circuit_breaker/impl.cc:31-58 | an update trips exactly when the run of slow ones, modulo 2^32, reaches its limit, or the window holds enough updates and failed * 100 is at least the percentage times their number |
| CircuitBreakers.RunStep | source/filters/http/circuit_breaker/impl.cc:8-39 | a response time beyond the threshold lengthens the run of slow updates, any other and an observed expiry end it |
| CircuitBreakers.ErrorsWithinRequests | source/filters/http/circuit_breaker/impl.cc:23-29 | in any window the errors do not exceed the requests if and only if no more failed updates straddle its beginning than updates without an error are in it |
| CircuitBreakers.StraddlingExample | source/filters/http/circuit_breaker/impl.cc:23-29 | a failed update counted in two seconds: one error in a window without a request |
| CircuitBreakers.CircuitBreakerImpl.constructor | source/filters/http/circuit_breaker/impl.h:26-35 | closed, three separate empty counters |
| CircuitBreakers.CircuitBreakerImpl.IsOpen | source/filters/http/circuit_breaker/impl.cc:8-21 | open at t if and only if some tripping update u has t at most u plus the break duration |
| CircuitBreakers.CircuitBreakerImpl.Count | source/filters/http/circuit_breaker/impl.cc:23-29 | the three counters have seen exactly the updates, each at the second it read itself |
| CircuitBreakers.CircuitBreakerImpl.ShouldBreak | source/filters/http/circuit_breaker/impl.cc:41-58 | breaks exactly when the history says the update trips |
| CircuitBreakers.CircuitBreakerImpl.UpdateMetrics | source/filters/http/circuit_breaker/impl.cc:23-64 | counters, 32-bit slow count and open phase are those of the longer history, whatever the nine readings of the clock in order |
| JsonEscape.ReadEscaped | source/common/common/proxy_utility.cc:21-49 | whatever follows, a reader of the grammar takes exactly the escape of a byte and gets that byte |
| JsonEscape.UnescapeEscape | source/common/common/proxy_utility.cc:18-52 | unescaping the escape of any byte string gives it back, and the escape holds no byte below 0x20 |
| JsonEscape.EscapeForJson | source/common/common/proxy_utility.cc:18-52 | the loop writes that escape: a valid string body that denotes the source |
| JsonEscape.EscapeUnchanged | source/common/common/proxy_utility.cc:18-52 | a string is written unchanged exactly when it holds no quote, backslash or control byte |
| JsonEscape.EscapeForms | source/common/common/proxy_utility.cc:20-49 | which bytes get a two-byte escape and which a six-byte one, and which |

## Left out

- References, instances of the classes registered with a converter of their own other than BigInteger, and map keys that are not strings in the Hessian-to-JSON writer: a reference graph need not terminate there, and key text depends on hash order.
- JsonBridge.JsonRoundTrip: an integer above the int64 range means its double, whatever the rounding; other numbers are exact.
- The converters chosen by a declared Java type (checks before the untyped path) and request encoding.
- `decodeDubboFromBuffer`: the same heartbeat loop on a buffer of its own.
- `populateSingleGenericType` edits its tree in place; here it is a function on trees, so sharing of nodes is not modelled.
- BigInteger.DivideByWord: the shift and or of the dividend are a multiplication and an addition, which agree because the low 32 bits are clear and the word is below 2^32.
- Header decoding, the Hessian decoder, response getters and the request conversion are parameters. After an exception that leaves a callback the run ends.
- DubboUpstreams.DubboUpstream.WriteRequest: the router does not encode on a stream it has given up, which the source asserts.
- Locks of the cache and the breaker manager, and the posting of lookup results to a worker.
- CacheSender.CacheGetterSetter.LookupCache: one successful start per object. TTL matching by regular expression is a function of the level name; removal from all levels, cache keys, the 512 KB limit and the HTTP callbacks on top of the lookup are not modelled.
- Reply callbacks of the Redis client do not call back into it. `set` and `del` register nothing.
- Downgrade filters: no trailers; the filter manager keeps to the returned statuses; a cancelled side request of the dynamic filter reports nothing, which for the cache sender is `CacheSender.SilentAfterCancel`. Header matchers are functions, and URI rewriting of the side request is not modelled.
- RollingNumbers.RollingNumber.Sum: doubles are exact reals and the clock does not go back.
- The manager's map from ids to breakers, local rate limits, the Lua and WAF filters, Kafka, the synchronous Redis client, filter factories, configuration, admin handlers, statistics and logging.
