# URL shortener core in Dafny

A model of the core of a URL-shortening HTTP service written in Go, with proofs about it. The model covers:

- the **distributed counter**. A Redis key is the fast copy and a single MongoDB document the durable copy. A Redis stream carries every increment from one to the other, and a replication tick copies it over.
- the **base62 codec** for counter values.
- the **random short-code generator**, which hex-encodes three bytes and keeps five characters.
- the **URL and alias validator**.
- the **URL mapping storage**, a MongoDB collection with a unique `short_url` index.
- the **URL service**: creation with a write-through cache, and lookup with a cache-aside read that deletes expired mappings.
- the **application errors** and how they map to HTTP status codes.

Each Go file of the core is one module:

| file | module |
|---|---|
| `go_runtime.dfy` | the pieces of Go's runtime the core relies on |
| `wrappers.dfy` | `Option` |
| `errors.dfy` | models/errors.go |
| `base62.dfy` | services/base62.go |
| `short_code_generator.dfy` | services/short_code_generator.go |
| `url_validator.dfy` | services/url_validator.go |
| `url_storage.dfy` | services/url_storage.go |
| `url_service.dfy` | services/url_service.go |
| `distributed_counter.dfy` | services/distributed_counter.go |

The pieces of Go's runtime in `go_runtime.dfy` are int64 wrap-around, UTF-8 byte length, `strings.HasPrefix`, `strconv.FormatInt` and `fmt.Sscanf("%d")`.

How the outside world enters the model:

- Everything the program reads from outside is a parameter: the clock (`now`), the random bytes, the result of `url.Parse`, and the outcome of the code generator.
- Each Redis or MongoDB call that can fail takes a flag saying whether it fails. The driver's error is `Errors.StoreFault`.
- Objects whose fields the source updates in place are classes:
  - `Storage.UrlStorage` holds the collection as a `map` from short code to mapping.
  - `Service.UrlService` holds the storage and the cache, a `map` from `"url:" + code` to the URL.
  - `Counter.DistributedCounter` holds the Redis key, the durable document, the stream and the acked positions.

`AppError.Error` and `GetStatusCode` are the accessors of `Errors.AppError`: the `error` interface reports the message alone and the status is read separately. `GetStatusCodeFromError` and `SentinelMessagesDistinct` state what they mean for the handlers.

Where the tests and the code disagree, the model follows the code:

- `ValidateURL` and `ValidateAlias` return plain `errors.New` values carrying the sentinel messages, not the `models.Err*` sentinels.
- The validator tests compare against the sentinels.
- So the HTTP layer reports validation failures as 500, not 400. `Validation.ValidationErrorsAre500` proves this.

Other behaviour of the code that the model makes explicit:

- `url_service.go:46` uses `Generate()` as if it returned `(string, error)`. The generator in services/short_code_generator.go returns only a string. The service therefore takes the generator's outcome as a `Result<string>` parameter, and `ShortCodes.Generate` models the generator itself.
- The Redis stream hands every field back as a string. So entries written by `GetNextCounter` reach the replication tick as `StrField(FormatInt64(v))` and are read back through `Sscanf`. `Counter.IncrementRecordCounter` shows that this returns `v`.

## Model

| member | source | states |
|---|---|---|
| Errors.GetStatusCodeFromError | models/errors.go:35-43 | an error whose chain of causes holds no `*AppError`, nil included, gives 500; an `*AppError` gives its own `GetStatusCode()` |
| Errors.AsAppError | models/errors.go:36-40 | `errors.As` finds an `*AppError` exactly when one is on the chain of causes, and a bare one is found as itself |
| Errors.AppError.Error | models/errors.go:14-17 | the `error` interface of an AppError yields its Message, not its status |
| Errors.AppError.GetStatusCode | models/errors.go:19-22 | an AppError reports the status it was made with |
| Errors.SentinelStatuses | models/errors.go:25-43 | the URL format, URL scheme, alias length and alias character errors give 400, alias-exists gives 409, not-found and expired give 404 |
| Errors.WrappingKeepsStatus | models/errors.go:36-43 | wrapping an error with `%w` never changes the status it is reported with |
| Errors.UnknownErrorsAre500 | models/errors.go:41-42 | nil, a plain error and a wrapped driver error are all reported as 500 |
| Errors.SentinelMessagesDistinct | models/errors.go:26-32 | the seven sentinel errors have pairwise distinct `Error()` texts |
| GoRuntime.Wrap64 | services/url_service.go:56 | int64 arithmetic: the result is congruent to the exact value modulo 2^64 and equal to it when it fits |
| GoRuntime.Utf8Length | services/url_validator.go:45 | `len` of a Go string counts UTF-8 bytes: between one and four per character |
| GoRuntime.AsciiLength | services/url_validator.go:45 | for ASCII text the byte length is the character count |
| GoRuntime.ScanDigitRun | services/distributed_counter.go:163 | the run `Sscanf` takes for `%d` is the longest prefix of decimal digits: a prefix of the input, all digits, followed by a non-digit or the end |
| GoRuntime.ScanInt64 | services/distributed_counter.go:159-169 | a successfully scanned string starts with a decimal digit or a sign; underscores and base prefixes end the digit run as `%d` does |
| GoRuntime.ScanFormatRoundTrip | services/distributed_counter.go:159-169 | scanning the decimal text of any int64 gives that int64 back |
| GoRuntime.DecimalValueOfFormat | services/distributed_counter.go:163 | (proof helper) the digits `FormatInt` writes for a natural number have that number as their decimal value |
| GoRuntime.FormatInt64 | services/distributed_counter.go:43-46 | the text go-redis writes for the int64 `counter` field: non-empty, a leading '-' exactly when the value is negative, decimal digits after it |
| GoRuntime.FormatNat | services/distributed_counter.go:44 | the decimal text of a natural number is non-empty |
| Base62.AlphabetLayout | services/base62.go:10-11 | the alphabet has 62 characters: the digits, then A-Z, then a-z, each at its digit value |
| Base62.IndexOf | services/base62.go:50 | `strings.IndexRune` on the alphabet gives -1 or a position holding that character |
| Base62.IndexOfDigit | services/base62.go:50 | looking up the character at position d gives d back |
| Base62.MemberIffIndexed | services/base62.go:50-51 | (proof helper) a character is in the alphabet exactly when its lookup is not -1 |
| Base62.Encode | services/base62.go:23-42 | the two loops compute `Encoding(num)`: most significant digit first, "0" for 0, "" for a negative number |
| Base62.InvalidCharacter | services/base62.go:52 | Decode's error is a plain error (status 500) whose message begins "invalid character '" followed by the offending character itself |
| Base62.Decode | services/base62.go:45-58 | fails exactly when some character is outside the alphabet, with the error for the first such character; otherwise returns the sum of index(s[i])·62^(\|s\|−1−i) |
| Base62.DecodeEncode | tests/unit/services/base62_test.go:125-142 | decoding the encoding of every n ≥ 0 gives n |
| Base62.EncodeDecode | services/base62.go:23-58 | a non-empty alphabet string without a leading '0' (or "0" itself) is the encoding of its own value |
| Base62.EncodeDecodeDigit | services/base62.go:24-41 | (proof helper) a single alphabet character has its index as value and is that value's encoding |
| Base62.PrefixInAlphabet | services/base62.go:50-51 | (proof helper) dropping the last character of an alphabet string leaves an alphabet string |
| Base62.EncodingWellFormed | services/base62.go:24-41 | for n ≥ 0 the encoding is non-empty and uses only alphabet characters; for n > 0 it has no leading '0' |
| Base62.DigitsWellFormed | services/base62.go:29-32 | the digits the loop produces are in the alphabet, with no leading '0' for n > 0 |
| Base62.DigitsAppend | services/base62.go:29-32 | (proof helper) dividing 62v + d by 62 appends the digit d to the digits of v |
| Base62.ValueOfDigits | services/base62.go:45-58 | the positional value of the digits of n is n |
| Base62.ValueAppend | services/base62.go:54 | (proof helper) appending a character multiplies the value by 62 and adds the character's index |
| Base62.WeightedAppend | services/base62.go:54 | (proof helper) every positional term gains one factor of 62 when a character is appended |
| Base62.ScaleTerm | services/base62.go:54 | (proof helper) reordering the factors of a positional term does not change it |
| Base62.WeightedNonNegative | services/base62.go:54 | (proof helper) the value of an alphabet string is never negative |
| Base62.ReverseAppend | services/base62.go:35-39 | (proof helper) reversing s + [c] puts c first |
| Base62.ReverseAt | services/base62.go:37-38 | position k of the reversal holds position \|s\|-1-k of the input, as the `i, j` loop copies it |
| Base62.EncodeExamples | tests/unit/services/base62_test.go:8-56 | 0→"0", 1→"1", 10→"A", 61→"z", 62→"10", 3844→"100", and a negative number gives "" |
| Base62.EncodeSingleDigit | services/base62.go:29-41 | for 0 < n < 62 the encoding is the single alphabet character at n |
| Base62.DecodeEmpty | services/base62.go:45-58 | the empty string has value 0 |
| ShortCodes.HexEncode | services/short_code_generator.go:20 | hex encoding doubles the length |
| ShortCodes.HexEncodeAt | services/short_code_generator.go:20 | characters 2i and 2i+1 are the high and low nibble of byte i, in lower-case hex |
| ShortCodes.Generate | services/short_code_generator.go:17-21 | the code has exactly five characters |
| ShortCodes.GenerateDigits | services/short_code_generator.go:18-20 | the code is hex(byte 0), hex(byte 1), then the high nibble of byte 2 |
| ShortCodes.GenerateIsHex | tests/unit/services/short_code_generator_test.go:25-34 | five characters, each in "0123456789abcdef" |
| ShortCodes.HexDigitInjective | services/short_code_generator.go:20 | (proof helper) distinct nibbles give distinct hex digits |
| ShortCodes.GenerateEqualIff | services/short_code_generator.go:18-20 | two byte triples give the same code iff they agree on their first 20 bits |
| ShortCodes.DroppedNibbleCollides | services/short_code_generator.go:20 | byte triples that differ only in the last nibble give the same code |
| Validation.Normalize | services/url_validator.go:19-22 | input starting with http:// or https:// is kept; anything else gets https:// in front; the result always has one of the two prefixes |
| Validation.ValidateURL | services/url_validator.go:18-36 | succeeds iff the normalised URL parses with a non-empty scheme and host, and then returns it; otherwise gives the format error or the scheme/host error |
| Validation.ValidateURLIdempotent | services/url_validator.go:20-35 | validating a validated URL returns it unchanged |
| Validation.ValidateAlias | services/url_validator.go:39-60 | the only outcomes are acceptance, the length error and the character error |
| Validation.AliasAcceptedIff | services/url_validator.go:39-60 | an alias is accepted iff it is empty, or has 3 to 20 characters, all letters, digits or '-' |
| Validation.AliasLengthCheckedFirst | services/url_validator.go:44-47 | a non-empty alias whose byte length is below 3 or above 20 gets the length error, before any character is looked at |
| Validation.AliasCharsChecked | services/url_validator.go:49-57 | an alias of valid byte length with one character outside [A-Za-z0-9-] gets the character error |
| Validation.AliasByteLengthExamples | tests/unit/services/url_validator_test.go:123-128 | "ab" gets the length error; "éé" (4 bytes) passes the length check and gets the character error |
| Validation.AliasAcceptedExample | tests/unit/services/url_validator_test.go:98-102 | "my-alias123" is accepted |
| Validation.ValidationErrorsAre500 | services/url_validator.go:27-55 | every error the validator returns is a plain error, so it is reported as 500 |
| Storage.IsExpired | services/url_storage.go:86-91 | a mapping without expiration is never expired; one with an expiration is not expired at or before that instant, since `time.After` is strict |
| Storage.ExpiryIsPermanent | services/url_storage.go:86-91 | no expiration never expires; a mapping is live up to and including its expiration and expired at every later instant, for good |
| Storage.Stamped | services/url_storage.go:31-35 | the stored document has the given short code, created and updated at now, and all other fields as given |
| Storage.UrlStorage.constructor | services/url_storage.go:20-24 | the storage starts over a collection in which every document sits under its own short_url |
| Storage.UrlStorage.Store | services/url_storage.go:27-40 | inserts the stamped mapping under a new code; an already-present code gives the duplicate-key error and leaves the collection unchanged; a driver failure changes nothing |
| Storage.UrlStorage.Get | services/url_storage.go:43-59 | found exactly when some document has that short_url, and then returns that document; a missing code is not-found, not an error |
| Storage.UrlStorage.Exists | services/url_storage.go:62-73 | true exactly when some stored document has that short_url |
| Storage.UrlStorage.Delete | services/url_storage.go:76-83 | removes that code and leaves every other document unchanged; deleting a missing code is not an error |
| Storage.UrlStorage.GetByAlias | services/url_storage.go:94-110 | found exactly when some document has that alias, and then returns one of them |
| Storage.UrlStorage.GetByUserID | services/url_storage.go:113-130 | returns exactly the stored mappings of that user, each once |
| Storage.UrlStorage.Update | services/url_storage.go:133-143 | overwrites the document with the mapping and updated_at = now; a missing code is a no-op (no upsert); a moved short_url that clashes breaks the unique index and changes nothing |
| Storage.StoreThenGet | services/url_storage.go:27-59 | Store followed by Get returns the mapping with the code as short_url, created_at = updated_at = now and the other fields as given |
| Storage.UpdateInPlace | services/url_storage.go:133-143 | (proof helper) an Update whose mapping keeps its short_url replaces only that entry |
| Service.CacheKey | services/url_service.go:74 | the cache key is "url:" followed by the code |
| Service.CacheKeyRoundTrip | services/url_service.go:74 | the code can be read back from its cache key |
| Service.CodeOfRoundTrip | services/url_service.go:74 | (proof helper) every "url:" key is the cache key of the code it names |
| Service.CacheKeyInjective | services/url_service.go:99 | two codes share a cache key iff they are the same code |
| Service.ExpirationFor | services/url_service.go:54-58 | there is an expiration iff ExpirationMs > 0; it is now + ms·10^6 nanoseconds when that product fits in int64, and congruent to it modulo 2^64 in any case |
| Service.HugeExpirationIsPast | services/url_service.go:56 | ExpirationMs = 9223372036855 overflows, so the mapping is stored already expired |
| Service.CacheWorthy | services/url_service.go:77-88 | a mapping without expiration is always cached (for 24 hours); one with an expiration is cached exactly when `time.Until` of it is positive, i.e. now is before it |
| Service.CacheWorthyIsLive | services/url_service.go:77-88 | whatever is cached is not expired; only a mapping at exactly its expiration instant is neither cached nor expired |
| Service.UrlService.constructor | services/url_service.go:11-17 | a service over a valid storage with an empty cache |
| Service.UrlService.CreateShortURL | services/url_service.go:20-94 | URL checked first, then alias; an existing alias gives ErrAliasAlreadyExists; every error leaves storage and cache untouched; on success the code is the alias or the generated code and the stored mapping has the validated URL, alias, user, expiration now+ms iff ms > 0; the cache gets the URL iff there is no expiration or it lies after now (cache errors ignored); the cache stays coherent with storage |
| Service.UrlService.DeleteExpiredURL | services/url_service.go:145-157 | drops the cache entry and the document; a failing delete is ignored |
| Service.UrlService.GetOriginalURL | services/url_service.go:97-142 | with useCache and a cache hit, returns the cached URL and touches nothing; otherwise a storage error is returned, a missing code gives ErrShortCodeNotFound, an expired one is deleted from cache and storage and gives ErrShortCodeExpired, a live one returns its URL and, with useCache, repopulates the cache under the create-time rule |
| Service.CreateThenGet | tests/unit/services/url_service_test.go:139-165 | a create followed by a lookup before the expiration returns the validated URL, with or without the cache |
| Counter.FastValue | services/distributed_counter.go:37 | INCR counts a missing key as 0 and otherwise starts from the key's int64 value |
| Counter.IncrementRecord | services/distributed_counter.go:43-46 | the entry GetNextCounter XADDs carries the counter as decimal text in a string field (signed exactly when negative) and the Unix timestamp |
| Counter.CounterOf | services/distributed_counter.go:154-169 | an int64 field is taken as it is; an absent field or one of another type gives nothing; a string goes through Sscanf |
| Counter.IncrementRecordCounter | services/distributed_counter.go:43-57 | the entry GetNextCounter appends for v is read back as v |
| Counter.UnparsableSkipped | services/distributed_counter.go:154-169 | "12x" gives 12 and "1_0" gives 1 (`%d` stops at the first non-digit); "x" and "" give nothing; a tick over absent, other-typed or unparsable fields keeps the durable value |
| Counter.DurableRange | services/distributed_counter.go:152-192 | the durable value after a run of entries is the start value or the counter of one of the replicable entries |
| Counter.ReadCount | services/distributed_counter.go:142-146 | XREAD with COUNT 100 returns min(100, length) entries |
| Counter.LastWriteWins | services/distributed_counter.go:172-182 | the durable value is the counter of the last replicable entry; there is no monotonic check |
| Counter.NothingReplicable | services/distributed_counter.go:154-187 | a run with no parsable, successfully upserted entry leaves the durable value as it was |
| Counter.StartForgotten | services/distributed_counter.go:172-182 | (proof helper) once a run holds a replicable entry, the starting durable value no longer matters |
| Counter.ReplayIdempotent | services/distributed_counter.go:142-192 | a second tick over the same entries with the same outcomes changes nothing |
| Counter.RangesCompose | services/distributed_counter.go:152-192 | processing one run of entries and then the next is processing both |
| Counter.AckedCompose | services/distributed_counter.go:186-190 | (proof helper) the entries acked over two adjacent ranges are those acked over their union |
| Counter.NoMonotonicCheck | services/distributed_counter.go:172-182 | entries 5 then 3 leave the durable value at 3 |
| Counter.DistributedCounter.constructor | services/distributed_counter.go:24-30 | a counter over the given Redis key, MongoDB document, stream and acked positions |
| Counter.DistributedCounter.GetNextCounter | services/distributed_counter.go:33-60 | on success the key goes from old (0 if missing) to old+1, which is returned, and exactly one entry for it is appended unless XADD fails, which changes nothing else; a failing or overflowing INCR returns an error and changes nothing |
| Counter.DistributedCounter.InitializeCounter | services/distributed_counter.go:79-108 | creates the document with 0 when there is none and otherwise leaves it; on success the key equals the document; each failing call returns its own wrapped error |
| Counter.DistributedCounter.InitializeFromMongoDB | services/distributed_counter.go:111-134 | with a document: copies it to the key and returns it; without: bootstraps through InitializeCounter and returns 0; failures give their wrapped errors |
| Counter.DistributedCounter.GetCurrentCounter | services/distributed_counter.go:63-76 | a failing GET returns 0 and the wrapped GET error and changes nothing, whatever the key holds; key present: returns it and changes nothing; key absent: the outcome of InitializeFromMongoDB (document d: returns d and sets the key to d; both absent: creates the document at 0, sets the key to 0, returns 0; each failing store call returns 0 with its wrapped error and the state it leaves) |
| Counter.DistributedCounter.ReplicateToMongoDB | services/distributed_counter.go:137-195 | a failed read changes nothing; otherwise the oldest min(100, length) entries are processed in order whatever was acked: each parsable counter whose upsert succeeds overwrites the durable value and is acked, every other entry is skipped and stays unacked |
| Counter.DistributedCounter.ReplicateFrom | services/distributed_counter.go:137-195 | the corrected tick: the same processing over up to 100 entries from the cursor, returning the position after them |
| Counter.DistributedCounter.ReplicateAll | services/distributed_counter.go:137-195 | when every read and upsert succeeds, corrected ticks repeated until the stream is drained replicate every entry from the cursor on: the durable value is that of the whole range, the acked set gains exactly the range's replicable entries, and the cursor ends at the stream's end |
| Counter.AppendedStep | services/distributed_counter.go:43-57 | (proof helper) a stream holding the entries of the first m increments that gains the next increment's entry, if its XADD goes through, holds the entries of the first m + 1 |
| Counter.AppendedAllSucceed | services/distributed_counter.go:43-57 | when every XADD goes through, k increments from old append exactly the entries for old+1, ..., old+k, in order |
| Counter.StuckAtHundred | services/distributed_counter.go:142-146 | as written, a tick over a stream whose entries carry 1..n with n ≥ 100 sets the durable value to 100, whatever it was before |
| Counter.IssueMany | services/distributed_counter.go:37-59 | k successful INCRs from any starting key (absent counts as 0), whichever of their XADDs fail, return old+1, ..., old+k, strictly increasing, leave the key at old+k and append to the stream exactly the entries of the XADDs that went through |
| Counter.BootstrapThenCount | services/distributed_counter.go:79-108 | after InitializeCounter with durable value d and k increments, whichever of their XADDs fail, GetCurrentCounter returns d + k (k on a fresh store) |
| Counter.InitializeTwice | services/distributed_counter.go:83-107 | when every find, insert and SET succeeds, InitializeCounter twice in a row leaves the state that one call leaves |
| Counter.IssueFromFresh | services/distributed_counter.go:33-60 | (proof helper) a fresh store, bootstrapped, then k increments whose XADDs all succeed: values 1 .. k, key at k, durable 0, stream holding the entries for 1 .. k |
| Counter.RepeatAfterRedisLoss | services/distributed_counter.go:142-146 | as written, with every call succeeding: 101 increments, a tick, then a Redis restart that loses the key; the counter restarts at 100 and hands out 101 a second time |
| Counter.NoRepeatAfterRedisLoss | services/distributed_counter.go:137-195 | with the corrected tick, and every call succeeding, the same events restart the counter at 101 and the next value, 102, is new |
| Counter.CatchUp | services/distributed_counter.go:137-195 | when every upsert succeeds, once the corrected ticks have drained a stream whose last entry was appended by GetNextCounter for v, the durable value is v |

## Left out

- I/O and timing are left out. That covers HTTP handlers and routes, service wiring, configuration, logging and `fmt.Println`/`Printf` output, and the 10-second driver timeouts.
- Concurrency is left out. The model covers neither the replication goroutine, its ticker and cancellation, the outer loop over the single stream, nor interleavings between server instances. Each Redis and MongoDB call is taken as atomic.
- Counter.DistributedCounter.ReplicateToMongoDB: the read uses `Block: 0`, which makes XREAD on an empty stream wait for the first entry. In the model an empty stream gives an empty batch and the tick returns at once.
- Counter.DistributedCounter.ReplicateToMongoDB: the acked set records which XACKs were sent. The consumer group `replication_group` is never created and the read is a plain XREAD, so acks have no effect on what is read; the model keeps the set only to show which entries were acked.
- The `updated_at` and `timestamp` fields of the counter document and stream entries are treated as opaque: they are written but never read by the core.
- Counter.DistributedCounter.GetNextCounter: only INCR on an int64 key is modelled. A key holding a non-integer value is not representable, because the key is an `Option<Int64>`.
- GoRuntime.ScanInt64: `Sscanf` skipping leading white space is not modelled.
- Base62.Decode: the float `math.Pow` and the int64 accumulator are replaced by exact integers, so large inputs that round or overflow in the source decode exactly here.
- Base62.Decode: the range loop walks runes with byte offsets as `i`. The two agree up to the first character outside the alphabet, since every alphabet character is one byte, and the model walks characters.
- ShortCodes.Generate: the `rand.Read` error is ignored by the source and not modelled; the bytes are a parameter.
- Validation.ValidateURL: `url.Parse` is a parameter returning a parse error or a scheme and host.
- Storage.UrlStorage: the model assumes that `CreateIndexes` (services/url_storage.go:145-181) has run, so the unique `short_url` index exists. Only the test setup calls it (tests/testutils/mongodb_test_utils.go:132); the service never does. Without the index, `Store` of a code already present inserts a second document instead of failing with DuplicateKey, and the map keyed by short code cannot represent that.
- Storage.UrlStorage: the `alias` (unique, sparse), `user_id` and TTL indexes of `CreateIndexes` are not modelled. Whether an empty alias is stored depends on BSON field tags that are not part of this model. MongoDB's automatic TTL purge is not modelled; only the service's own delete is.
- Storage.UrlMapping: MongoDB stores times at millisecond precision; the model keeps nanoseconds.
- Service.UrlService: Redis TTL eviction of cache entries is not modelled; the cache is a plain map and only the decision to cache is.
- Service.UrlService.CreateShortURL: one `now` stands for three clock reads in the source: the expiration base (services/url_service.go:56), the CreatedAt/UpdatedAt stamp that Store writes (services/url_storage.go:32) and `time.Until` for the cache TTL (services/url_service.go:80). So the stored `createdAt` equalling the expiration base is a property of the model, not of the source.
- Service.UrlService.GetOriginalURL: one `now` stands for the expiry check and `time.Until`, which the source reads separately.
- Service.UrlService.GetOriginalURL: coherence of the cache with storage is stated only when the cache answers. A failing cache delete after a successful storage delete leaves a stale entry, and the model does not hide that.
- cache.go's `Set`, `Get` and `Delete` are modelled only as map updates behind a `cacheUp` flag, not as a separate module. One flag covers every cache call of a request, so a request whose cache GET fails but whose later SET or DEL succeeds (or the reverse) is not represented.

## Findings

| source | as written | input that shows it | evidently intended | confidence | as-written member | corrected member |
|---|---|---|---|---|---|---|
| services/distributed_counter.go:142-146 | every replication tick reads the stream from ID "0" with COUNT 100; the stream is never trimmed and the acks do not move a plain XREAD, so once the stream holds 100 entries MongoDB stays at the 100th value; after Redis loses the key, `GetCurrentCounter` restores 100 and `GetNextCounter` issues values again | 101 increments on a fresh store, one tick, Redis restart: the next increment returns 101 again | each tick reads the entries after the last one it read, so the durable value catches up with the last increment | high (not executed) | Counter.StuckAtHundred, Counter.RepeatAfterRedisLoss | Counter.DistributedCounter.ReplicateFrom, Counter.CatchUp, Counter.NoRepeatAfterRedisLoss |
