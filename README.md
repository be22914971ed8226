# mini-scan: the latest-observation-wins store and its decoder, in Dafny

This project models the core of mini-scan's scan processor. A Pub/Sub
consumer receives scan messages for (ip, port, service) endpoints. It decodes
each message from one of two wire versions into a scan and a response text.
It then writes a `ServiceRecord` into a store that keeps, per endpoint, only
the record with the greatest timestamp seen ("latest observation wins").

The model has three parts:

- **Records** (`records.dfy`): the `ServiceRecord` value and `Supersedes`,
  the write rule every store's `Upsert` promises. A record is written when
  its key is absent or its timestamp is strictly greater than the stored one.
- **Memory** (`memory.dfy`, `memory_laws.dfy`): the in-memory store as a
  class with one `records` map field. It covers `makeKey` exactly as
  `"%s:%d:%s"` builds it. `List` collects, sorts in place on an array and
  paginates. The lemmas cover what the write rule guarantees across many
  calls: the frame of one write, the independence of endpoints, idempotence,
  and convergence to the maximum timestamp.
- **Store** (`store.dfy`): `NewStore`'s selection of a backend by name.
- **Processor** (`processor.dfy`, `base64.dfy`): `parseScan` over an
  already-parsed envelope, and `Process` with one `Upsert`. It also covers
  the callback's Ack/Nack choice. Version 1 payloads are base64 with the
  standard alphabet and padding (section 4 of RFC 4648), decoded the way
  Go's `encoding/json` fills a `[]byte`. The decoder comes with an encoder
  and a proved round trip.

Go strings are byte strings. Here a `string` holds one char per byte.

## Model

| member | source | states |
|---|---|---|
| Records.Supersedes | pkg/store/store.go:23-25 | an incoming record is written when its key is absent; a written record never has the stored timestamp, so equal timestamps keep the stored record; re-sending the stored record is skipped; `UpsertNewerReplaces` and `UpsertNotNewerIsNoop` add that a strictly newer record is written and an older or equal one is not |
| Memory.Decimal | pkg/store/memory.go:27 | the `%d` form of a port is non-empty and made only of decimal digits |
| Memory.DecimalInjective | pkg/store/memory.go:27 | two ports with the same `%d` form are the same port |
| Memory.MakeKey | pkg/store/memory.go:25-28 | the key is at least three characters longer than the ip and the service together (two separators and at least one port digit); `MakeKeyInjective` and `MakeKeyCollision` state when keys identify triples |
| Memory.MakeKeyInjective | pkg/store/memory.go:25-28 | if neither service contains ':', two `makeKey` strings are equal exactly when the (ip, port, service) triples are equal (both directions) |
| Memory.MakeKeyCollision | pkg/store/memory.go:25-28 | `makeKey` is not injective in general: (":", 1, "80:HTTP") and ("::1", 80, "HTTP") give the same key |
| Memory.Upserted | pkg/store/memory.go:36-54 | the map after one Upsert keeps every record filed under its own `makeKey` |
| Memory.PageSize | pkg/store/memory.go:105-113 | the page is empty when offset is at least the count; otherwise it is non-empty and no longer than what remains after offset; with limit > 0 it has at most limit records, and exactly limit when it stops short of the end; with limit <= 0 it is everything after offset |
| Memory.CollectRecords | pkg/store/memory.go:86-97 | the append loop yields every stored record exactly once and nothing else, in whatever order the map gives |
| Memory.ListingPermutation | pkg/store/memory.go:99-102 | reordering a listing of the map (same multiset) is still a listing of the map: each stored record exactly once and nothing else |
| Memory.SortByTimestampDesc | pkg/store/memory.go:99-102 | the in-place sort leaves the array non-increasing in LastTimestamp and a permutation of its old contents |
| Memory.MemoryStore.constructor | pkg/store/memory.go:18-23 | a new memory store is empty and well keyed |
| Memory.MemoryStore.Upsert | pkg/store/memory.go:30-55 | the result is true exactly when the key was absent or the incoming timestamp is strictly greater; the new map is the old one with that Upsert applied; keying is preserved |
| Memory.MemoryStore.Get | pkg/store/memory.go:57-78 | read-only; returns the record stored under `makeKey(ip, port, service)`, or absent with no error; a found record carries that key, and with colon-free services it is the record for exactly that triple |
| Memory.MemoryStore.List | pkg/store/memory.go:80-116 | there is an ordering of all records, each exactly once, non-increasing by timestamp; the page is that ordering with `offset` dropped and cut to `limit` when `limit > 0`; the page is empty when `offset` is at least the count; `limit <= 0` with offset 0 returns every record; the page is non-increasing |
| Memory.MemoryStore.Close | pkg/store/memory.go:118-121 | closing the memory store never fails |
| Memory.MemoryStore.Len | pkg/store/memory.go:123-129 | the count of stored records |
| MemoryLaws.UpsertFrame | pkg/store/memory.go:36-49 | after Upsert the record's key is present; every other key is unchanged; the count grows by one exactly when the key was absent |
| MemoryLaws.UpsertNotNewerIsNoop | pkg/store/memory.go:39-54 | a record whose timestamp is not greater than the stored one, ties included, leaves the map unchanged |
| MemoryLaws.UpsertNewerReplaces | pkg/store/memory.go:39-50 | a record for an absent key, or a strictly newer one, is stored whole under its key |
| MemoryLaws.StoredTimestampMonotone | pkg/store/memory.go:39 | the timestamp stored under any key never decreases |
| MemoryLaws.UpsertIdempotent | pkg/store/memory.go:39 | a second identical Upsert is skipped and leaves the map as the first left it |
| MemoryLaws.EndpointsIndependent | pkg/store/memory.go:26-28 | with colon-free services, an Upsert for one triple does not change what Get returns for any other triple |
| MemoryLaws.CollidingEndpointsShareARecord | pkg/store/memory.go:26-28 | a write for (":", 1, "80:HTTP") is what Get returns for ("::1", 80, "HTTP") |
| MemoryLaws.FirstMaximumExists | pkg/store/memory.go:39 | every non-empty sequence of records has a first record carrying its maximum timestamp |
| MemoryLaws.LatestObservationWins | pkg/store/memory.go:39 | after Upserting any sequence of records for one new key, the key holds the first record with the maximum timestamp, and all other keys are unchanged |
| MemoryLaws.ConvergesToMaximum | pkg/store/memory.go:39 | the surviving record is one of those written, and none of them is newer |
| MemoryLaws.AppliedExactlyOnNewMaximum | pkg/store/memory.go:39-54 | the n-th Upsert for a key reports applied exactly when its timestamp is strictly greater than every earlier one |
| MemoryLaws.OutOfOrderArrivals | pkg/processor/processor_test.go:132-144 | the arrival sequence has five records, all for the endpoint 3.3.3.3:22/SSH, so all under one key |
| MemoryLaws.OutOfOrderScenario | pkg/processor/processor_test.go:132-157 | for timestamps 1000, 2000, 500, 1500, 3000 only the first, second and fifth Upserts apply, and the final record is "response 3000" |
| Base64.Alphabet | pkg/processor/processor.go:82-83 | no alphabet digit is '=', CR or LF |
| Base64.IndexOf | pkg/processor/processor.go:82-83 | a character's value maps back to that character |
| Base64.Encode | pkg/processor/processor.go:82-83 | the encoding is empty exactly when the bytes are |
| Base64.SkipNewlines | pkg/processor/processor.go:82-83 | the result has no CR or LF and is no longer than the input; an input without CR and LF is returned unchanged. `SkipNewlinesAppend` adds that it works piecewise, so every other character is kept, in order |
| Base64.SkipNewlinesAppend | pkg/processor/processor.go:82-83 | skipping newlines in a concatenation is skipping them in each part and concatenating |
| Base64.SkipNewlinesDropsNewline | pkg/processor/processor.go:82-83 | removing one CR or LF from anywhere in the input leaves the same newline-free text |
| Base64.DecodeIgnoresNewline | pkg/processor/processor.go:82-83 | a CR or LF anywhere in the input does not change what it decodes to, or whether it decodes |
| Base64.DecodeQuantum | pkg/processor/processor.go:82-83 | a decoded quantum gives one to three bytes, and exactly three unless it is the last one |
| Base64.DecodeQuanta | pkg/processor/processor.go:82-83 | a successful decode of newline-free text gives 3 bytes for every 4 characters, except that the last quantum may give 1 or 2 |
| Base64.DecodeQuantaWholeQuanta | pkg/processor/processor.go:82-83 | newline-free text decodes only when its length is a multiple of 4, as padded standard base64 requires |
| Base64.Decode | pkg/processor/processor.go:82-83 | a successful decode gives at most 3 bytes per 4 input characters, and for newline-free input at most 2 fewer than that; `DecodeEncode` and `DecodeIgnoresNewline` state what it decodes to |
| Base64.EncodeHasNoNewlines | pkg/processor/processor.go:82-83 | an encoding holds no CR or LF |
| Base64.DecodeQuantaEncode | pkg/processor/processor.go:82-83 | decoding quantum by quantum inverts the encoding |
| Base64.DecodeEncode | pkg/processor/processor.go:82-83 | decoding the standard padded encoding of any bytes gives those bytes back |
| Store.SelectKind | pkg/store/store.go:39-47 | "sqlite" selects SQLite, "memory" the memory store and "postgres" Postgres; every other name fails with "unknown store type" naming it |
| Store.NewStore | pkg/store/store.go:37-49 | "memory" never fails and yields a fresh, empty memory store; "sqlite" yields a SQLite handle and "postgres" a Postgres handle with the given connection string, or fails exactly when that constructor does; every other name fails with "unknown store type" |
| Processor.BytesToString | pkg/processor/processor.go:83 | `string(bytes)` keeps the length, and each char is the byte at its position |
| Processor.StringToBytes | pkg/processor/processor.go:83 | converting a byte string to bytes and back gives the same string |
| Processor.V1Response | pkg/processor/processor.go:77-83 | V1 data succeeds exactly when it is an object whose response_bytes_utf8, if present, is valid base64; the response is then the decoded bytes as a string, or "" when the member is missing; a failure is the V1 unmarshal error |
| Processor.V2Response | pkg/processor/processor.go:85-90 | V2 data succeeds exactly when it is an object; the response is response_str when present and "" when missing; a failure is the V2 unmarshal error |
| Processor.ParseScan | pkg/processor/processor.go:68-105 | success only for data versions 1 and 2, with the scan copying ip, port, service, timestamp and data version from the envelope; a malformed envelope is an error; any other version is the "unknown data version" error |
| Processor.V1DecodesBase64 | pkg/processor/processor.go:77-83 | a V1 envelope whose response_bytes_utf8 decodes to some bytes, canonical or not, yields a scan with the envelope's fields and those bytes as the response |
| Processor.V1DecodesEncoding | pkg/processor/processor.go:77-83 | a V1 envelope whose response_bytes_utf8 is the padded encoding of some bytes yields those bytes as the response |
| Processor.V1AcceptsNonCanonical | pkg/processor/processor.go:77-83 | the non-strict decoder accepts "YR==", whose trailing bits are not zero, and the response is "a" |
| Processor.V2KeepsResponseString | pkg/processor/processor.go:85-90 | a V2 envelope decodes to its response_str unchanged |
| Processor.VersionsAgree | pkg/processor/processor.go:76-90 | a V1 envelope carrying base64(s) and a V2 envelope carrying s give the same response s and the same record |
| Processor.HelloWorldEncodes | pkg/processor/processor.go:82-83 | the base64 of the bytes of "hello world" is "aGVsbG8gd29ybGQ=" |
| Processor.HelloWorldV1 | pkg/processor/processor.go:77-83 | a V1 envelope with "aGVsbG8gd29ybGQ=" decodes to the response "hello world" |
| Processor.UnknownVersionRejected | pkg/processor/processor.go:92-93 | data version 999 is rejected with the "unknown data version" error |
| Processor.MalformedDataRejected | pkg/processor/processor.go:77-90 | malformed data for version 1 or 2, or V1 data whose base64 does not decode, is that version's unmarshal error |
| Processor.RecordOf | pkg/processor/processor.go:42-49 | the record carries the scan's ip, port, service and timestamp and the decoded response |
| Processor.Ingested | pkg/processor/processor.go:37-55 | the store after a message is decoded and Upserted: it stays keyed, it is unchanged when decoding fails, and after a successful decode it holds a record under the message's key |
| Processor.RedeliveryIsHarmless | pkg/processor/processor.go:146-157 | processing a redelivered message again leaves the store as the first delivery left it |
| Processor.AtLeastOnceDelivery | pkg/processor/processor.go:146-157 | over any sequence of deliveries of one message, each of whose Upserts may fail, the store ends as one successful delivery leaves it if any Upsert succeeded, and unchanged otherwise |
| Processor.DecodeFailureIsPermanent | pkg/processor/processor.go:35-40 | a message that does not decode is never stored, however often it is redelivered |
| Processor.Settle | pkg/processor/processor.go:148-156 | Nack exactly when Process returned an error, Ack otherwise |
| Processor.Processor.constructor | pkg/processor/processor.go:29-32 | the processor works on the store it is given |
| Processor.Processor.Process | pkg/processor/processor.go:34-66 | errs exactly when decoding fails (the parse error, with its cause) or the store's Upsert fails (the upsert error, with its message); a successful Upsert is success whether it applied or skipped; the store changes as one delivery with that Upsert outcome changes it |
| Processor.Processor.OnMessage | pkg/processor/processor.go:146-157 | each message gets exactly one settlement: Ack exactly when it decoded and its Upsert succeeded, and then the record is stored; a Nacked message leaves the store unchanged |

## Left out

- The SQLite and Postgres stores are not part of this model. Their behaviour is SQL text run by database drivers. `NewStore` takes their constructor's outcome as a parameter, and its handle records only the backend chosen and the connection string.
- The Go `Store` interface is not a type of its own. Its contract is the `Supersedes` rule plus the memory store's method contracts, and the processor works on a memory store.
- Processor.Processor.Process: the processor works on the memory store, so the error another store's `Upsert` may return is a parameter (`upsertFault`). A failing Upsert is modelled as writing nothing. A store that writes and then reports an error is not modelled.
- Locking with the read-write mutex: each method is one atomic step. Convergence under concurrent workers is not modelled.
- `UpdatedAt` is not modelled. It is wall-clock time and takes no part in any decision.
- JSON unmarshalling is not modelled: a message arrives as an already-parsed envelope, or as `Malformed`. Also left out:
  - case-insensitive member matching;
  - `null` members;
  - numbers out of range;
  - data members that are not strings.
  Malformed data for a version is the `DataMalformed` case.
- Base64 decoding follows Go's standard decoder on well-formed padded input and skips CR and LF. Go's exact error offsets are not modelled, only success or failure.
- Strings are byte strings with one char per byte. UTF-8 validity is not checked, as in the source.
- The Pub/Sub consumer is not modelled: client creation, the subscription existence check, the `Receive` loop and its error handling. Only the Ack/Nack choice for one message is modelled.
- Logging and `context.Context` parameters are left out.
- Memory.MemoryStore.List: a negative `offset` makes the Go code panic. The model requires `offset >= 0` instead. Go's unspecified order among equal timestamps is kept unspecified: the ordering is a ghost result that the page is proved to be a window of.
- Memory.MemoryStore.Get and List return records as values. The copying that prevents aliasing in Go is implicit.
