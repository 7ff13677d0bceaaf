# MemLane: a verified model

MemLane is a cache kept in shared memory: an open-addressing hash table over a fixed array of slots,
and a TCP server that speaks RESP2 in front of it. This project models both in Dafny and proves
what they promise.

`dafny verify dfyconfig.toml` checks the whole project.

## The table

- `SlotLayout`, `Arena`: a slot is a flat record stored by value in the arena's array, as it is in
  the mapped region; `Arena.Arena` is the object that updates it in place. Its methods are the probe
  loops of the program, each proved equal to a function of `Table`.
- `Table`: GET, SET, DEL on a sequence of cells (slots with their buffers read).
- `TableProofs`: the table invariant `Inv` and what each operation means, for **every** hash
  function. `Inv` says: fingerprints are hashes of the stored keys, no key is stored twice, and no
  EMPTY slot lies between a key's home and its slot.
- `ClientModel`, `Client`: length guards, batches, counters; `Refinement`: whole runs behave like a
  plain map from key to (value, expiry); `Accounting`: what `used_count` counts.
- `SipHash`, `Probe`: the fingerprint function and the masked probe sequence.
- `Concurrent`, `History`, `Census`, `Publication`, `Removal`, `Progress`: every atomic access, clock
  reading and copied byte is one step, and any number of threads interleave.
- `Solo`: an operation of the step model that runs undisturbed computes the function of `Table`.

The arena size is any power of two (the program fixes 65536) and the hash any function into 64-bit
words, unless a lemma says otherwise. The clock is a parameter, one reading for each table
operation; whole-run results hold for arbitrary readings, also decreasing ones. Arithmetic on
`u64` wraps, as in a release build.

`Separated` (no two distinct keys in use share a fingerprint) is assumed only where a lemma says
so. Without it GET can miss a live key, because expiry is tested before the full key is compared;
`TableProofs.GetFoundIff` says exactly when, and `Refinement.ActsAsMapIff` that the table is a plain
map exactly when no two distinct storable keys share a fingerprint.

Two places where code and comments differ: `set` is described as claiming a slot by CAS
(src/hashmap.rs:196), but `claim_slot` stores OCCUPIED unconditionally (src/hashmap.rs:412), and the
model does the same; and `used_count` is called a count of occupied slots, but evictions do not
lower it and an insert that reuses a tombstone after a full scan does not raise it
(src/hashmap.rs:273-277). `Accounting` states the law it does obey and exactly when it is right.

## The protocol

- `Decimal`, `Utf8`, `Resp`, `RespProofs`, `Codec`: decimal text, the incremental parser, the
  encoder, and the loops that implement them.
- `FirstLine`: what the parser makes of every buffer, with literal type bytes.
- `Replies`, `ReplyProofs`, `Texts`: the replies with their texts, letter by letter, and which of them
  parse back.
- `Dispatch`, `Commands`, `Counters`, `CommandRuns`: commands and their effect on the stored map.
- `Connection`, `Chunking`, `Service`: the buffer loop of one client, from bytes received to bytes
  sent, and what the cutting of a stream into reads of bounded size can change.
- `Wire`, `Options`, `Talk`, `Conversations`: literal requests in either case, and what a client reads.

The format is the one of the Redis serialization protocol specification (RESP2), sections "Simple
strings", "Simple errors", "Integers", "Bulk strings" and "Arrays".

## Model

| member | source | states |
|---|---|---|
| Probe.MaskIsModulo | src/hashmap.rs:142 | masking with 2^k - 1 is reduction modulo 2^k, for every hash value and every k |
| Probe.ProbesArePermutation | src/hashmap.rs:144-145 | the masked indices of one scan visit every slot exactly once, from any start |
| SipHash.SipRound | src/hashmap.rs:34-49 | the fourteen in-place updates are one SipRound of the published definition |
| SipHash.LastWord | src/hashmap.rs:70-75 | length byte ORed with the remaining bytes is the little-endian word of the zero-padded, length-tagged tail |
| SipHash.Hash | src/hashmap.rs:53-88 | chunk loop, remainder and finalisation equal SipHash-1-3 under the fixed keys for inputs of every length |
| SipHash.ByteOrder | src/hashmap.rs:63-66 | words are read little-endian |
| SlotLayout.WriteKey | src/slot.rs:120-124 | reading a key back gives what was written, cut at 128 bytes; nothing else in the slot changes |
| SlotLayout.WriteValue | src/slot.rs:130-134 | reading a value back gives what was written, cut at 1024 bytes; nothing else in the slot changes |
| Arena.Arena.constructor | src/shm.rs:165-178 | a new arena has every slot empty and a zero counter |
| Arena.Arena.LazyEvictIfExpired | src/ttl.rs:63-78 | buries the slot exactly when its expiry has passed, and answers whether it did |
| Arena.Arena.ClaimSlot | src/hashmap.rs:395-413 | the in-place writes of a claim amount to one new occupied cell, stale buffer bytes notwithstanding |
| Arena.Arena.Get | src/hashmap.rs:140-189 | the probe loop computes the GET function of the table, answer and table after |
| Arena.Arena.ProbeForSet | src/hashmap.rs:210-270 | the probe loop of SET computes where to stop, the first reusable tombstone and the evictions |
| Arena.Arena.Set | src/hashmap.rs:200-280 | SET computes the SET function of the table and moves the counter only on an insert at an empty slot |
| Arena.Arena.UpdateInPlace | src/hashmap.rs:261-265 | changes value and expiry of one cell, keeps its key and fingerprint |
| Arena.Arena.Del | src/hashmap.rs:290-342 | the probe loop computes the DEL function of the table; the counter drops on success |
| Arena.Arena.FlushAll | src/hashmap.rs:361-371 | every slot empty, counter zero |
| TableProofs.GetMeans | src/hashmap.rs:140-189 | any hash: Found is a live value and changes nothing, NotFound means stored nowhere, Expired buried one expired entry of that fingerprint; the invariant stays |
| TableProofs.GetFoundIff | src/hashmap.rs:161-182 | GET of a live key finds it if and only if no expired entry with the same fingerprint is probed before it; otherwise it answers Expired |
| TableProofs.GetMissIff | src/hashmap.rs:140-189 | GET of a key that is not live answers Expired if any expired entry in the whole table shares its fingerprint, else NotFound |
| TableProofs.RetryingGetIsExact | src/hashmap.rs:140-189 | repeating GET at one instant reaches the true answer after at most as many retries as there are expired slots of the fingerprint, live entries unchanged |
| TableProofs.SetScanStops | src/hashmap.rs:210-270 | SET stops at the first empty slot or live match, having passed no empty slot and no entry of its key, and remembers the first tombstone of the path |
| TableProofs.SetScanSweeps | src/hashmap.rs:247-253 | every expired entry with the key's fingerprint on the path is evicted |
| TableProofs.SetScanEvicts | src/hashmap.rs:247-253 | SET's probe changes nothing but expired entries of that fingerprint, and the occupancy drops by the evictions it counts |
| TableProofs.SetKeepsInv | src/hashmap.rs:200-280 | SET keeps the table invariant, also when it evicts in mid-probe and then reuses an earlier tombstone |
| TableProofs.SetContents | src/hashmap.rs:200-280 | after a successful SET the key holds the new entry, all entries of other keys survive except expired ones of the same fingerprint, nothing else appears |
| TableProofs.SetResultMeaning | src/hashmap.rs:200-280 | Updated exactly when the key was live; Full exactly when all slots are occupied by other keys and none is evictable, and then nothing changed |
| TableProofs.DelMeans | src/hashmap.rs:290-342 | DEL buries the key's one entry, expired or not, or the key was stored nowhere; afterwards it is not stored |
| Refinement.ContentsSize | src/hashmap.rs:272-279 | the abstract map has one entry per occupied slot, and as many as slots exactly when all are occupied |
| Refinement.GetRefines | src/client.rs:68-77 | GET behind the client is GET on a plain map that first drops its own expired entry |
| Refinement.SetRefines | src/client.rs:83-96 | SET is insertion into a map of bounded size; ArenaFull exactly when the map holds N entries and the key is not among them |
| Refinement.DelRefines | src/client.rs:99-105 | DEL is removal from the map, expired entries included |
| Refinement.RunRefinesMap | src/client.rs:68-121 | every run of get, set, del, exists and flush calls at any clock readings gives the answers of the plain map and ends in its contents |
| Refinement.CollisionHidesLiveKey | src/hashmap.rs:168-177 | in a new table of two or more slots, any two distinct keys with one fingerprint, at any time t: set the first for a second, set the second, look it up a second later, and it is missed where the map finds it |
| Refinement.CollisionMakesRoom | src/hashmap.rs:247-253 | in a one-slot table SET evicts the expired entry of a colliding key and succeeds where the map is full |
| Refinement.ActsAsMapIff | src/client.rs:68-121 | a new table of any size answers all runs over given keys, with a clock that starts anywhere and does not go back, as the plain map if and only if no two distinct storable keys among them share a fingerprint |
| Accounting.RunKeepsInvAndBalance | src/hashmap.rs:219-230 | any hash, any run: the invariant stays, and used_count is occupied slots plus evictions minus fallback inserts modulo 2^64 |
| Accounting.UsedCountExact | src/hashmap.rs:273-277 | without evictions and without a SET into a table lacking empty slots, used_count is the number of stored entries |
| Accounting.UsedCountExactIff | src/hashmap.rs:374-376 | after any run used_count is the number of stored entries if and only if evictions and fallback inserts of the run cancel out modulo 2^64 |
| Accounting.EvictionLeavesCountHigh | src/ttl.rs:63-78 | set for a second, look up when expired: the counter says 1, nothing is stored |
| Accounting.FallbackLeavesCountLow | src/hashmap.rs:273-277 | a one-slot table filled, emptied and filled again: the counter says 0, one entry is stored |
| Client.Create | src/client.rs:50-53 | a new client sees an empty arena of 65536 slots |
| Client.Client.Get | src/client.rs:68-77 | over-long keys are refused before the table is touched; otherwise value or nothing |
| Client.Client.Set | src/client.rs:83-96 | over-long keys and values are refused before the table is touched; otherwise inserted, updated or full |
| Client.Client.Del | src/client.rs:99-105 | length guard, then DEL |
| Client.Client.Exists | src/client.rs:108-113 | length guard, then whether GET finds the key |
| Client.Client.Mget | src/client.rs:147-149 | one GET per key in order, each at its own clock reading, the first error ends it |
| Client.Client.Mset | src/client.rs:154-161 | one SET per pair in order, each at its own clock reading, the first error ends it, the count is that of the pairs written |
| Client.Client.Incr | src/client.rs:167-179 | reads, adds one with wrap-around, writes back canonical decimal without expiry |
| Client.Client.Decr | src/client.rs:184-196 | reads, subtracts one stopping at zero, writes back canonical decimal without expiry |
| Decimal.ParsePrintU64 | src/client.rs:171 | parsing a printed u64 gives it back, over the whole range |
| Decimal.ParsePrintI64 | src/server/resp.rs:129-131 | parsing a printed i64 gives it back, over the whole range |
| Decimal.PrintIsCanonical | src/client.rs:176 | no leading zero except in "0" |
| Decimal.ParseU64Iff | src/client.rs:171 | a text parses as the u64 n if and only if it is an optional plus sign, any number of zeros and the digits of n |
| Decimal.ParseI64Iff | src/server/resp.rs:129-131 | the same for i64, with a minus sign for a negative number or zero |
| Utf8.ValidIff | src/server/resp.rs:97-106 | bytes are valid UTF-8 if and only if they are the encoding of a sequence of Unicode scalar values |
| Counters.BumpCounts | src/client.rs:167-196 | one INCR or DECR through the table: answer, stored text and all other keys |
| Counters.UpThenDown | src/client.rs:167-196 | n INCRs on an absent key answer 1 to n and m DECRs then answer max(n - i, 0) for i = 1 to m, for any n and m; max(n - m, 0) is stored as canonical decimal without expiry, at any clock readings |
| Counters.IncrWrapsAtLimit | src/client.rs:175 | at the u64 limit INCR wraps to zero |
| Counters.CounterReplyIff | src/server/mod.rs:264-282 | INCR and DECR reply with the stored number if and only if it is below 2^63, otherwise with the negative number of the same 64 bits |
| RespProofs.ParseStable | src/server/resp.rs:55-71 | a value or an error stands whatever bytes follow, through nested arrays |
| FirstLine.StringLine | src/server/resp.rs:108-122 | bytes 43 and 45: the text up to the first CRLF is the simple string or the error |
| FirstLine.IntegerLine | src/server/resp.rs:124-135 | byte 58: a numeral for an i64 gives that integer, any other line the error quoting it |
| FirstLine.BulkLine | src/server/resp.rs:137-162 | byte 36: a negative length is nil, otherwise that many bytes and two more, awaited and then taken whatever they are; any other line is the error quoting it |
| FirstLine.ArrayLine | src/server/resp.rs:164-193 | byte 42: a negative count is nil, otherwise that many values in a row, the first incomplete or wrong one deciding; any other line is the error quoting it |
| FirstLine.NonTextLine | src/server/resp.rs:97-106 | a complete first line that is not UTF-8 is an error for all five types |
| FirstLine.OpenLine | src/server/resp.rs:97-106 | without a CRLF the parser waits |
| FirstLine.OtherByte | src/server/resp.rs:66-69 | any other first byte is an error at once |
| FirstLine.NeverStuck | src/server/resp.rs:55-71 | no buffer is stuck: wherever the parser waits, some further bytes make it answer |
| RespProofs.ProperPrefixNeedsMore | src/server/resp.rs:97-193 | every proper prefix of a complete value yields "need more", never an error or another value |
| RespProofs.RoundTrip | src/server/resp.rs:198-234 | parsing an encoding followed by anything gives the value and its exact length |
| RespProofs.RoundTripIff | src/server/resp.rs:198-234 | the round trip holds if and only if no simple string or error inside contains a CRLF |
| RespProofs.PipelineRoundTrip | src/server/resp.rs:74-89 | a concatenation of encodings and an incomplete tail parses into exactly that list and length |
| RespProofs.EncodingsArePrefixFree | src/server/resp.rs:198-234 | an encoding is a prefix of another only if the values are equal |
| RespProofs.ParsedIsSendable | src/server/resp.rs:97-193 | every parsed value has UTF-8 lines without CRLF and integers in range, at every depth |
| RespProofs.Normalisation | src/server/resp.rs:55-234 | re-encoding any parsed value and parsing it again gives the same value, consuming everything |
| Resp.Parse | src/server/resp.rs:55-71 | a parsed value consumes at least 3 and at most all bytes; the mutual recursion terminates for every announced count |
| Resp.ParseLine | src/server/resp.rs:97-106 | the line is the UTF-8 text between type byte and first CRLF, the next item starts right after |
| Resp.FindCrlf | src/server/resp.rs:93-95 | the first CRLF, or there is none |
| Codec.ParseValue | src/server/resp.rs:55-71 | computes the parse function |
| Codec.ParseArrayBody | src/server/resp.rs:182-192 | the element loop with its moving offset computes the parse of an array body, all three ways out |
| Codec.ParseAllValues | src/server/resp.rs:74-89 | the loop computes the list of all complete values, or the first error |
| Codec.EncodeInto | src/server/resp.rs:198-234 | appends exactly the encoding, leaving what was in the buffer |
| Connection.Connection.Answer | src/server/mod.rs:106-120 | one value is executed at one clock reading and its encoded reply appended to what was sent |
| Connection.Connection.OnRead | src/server/mod.rs:99-135 | one read: append, execute all complete values in order on the shared client and send their encoded replies, report an error and clear, keep the rest |
| Connection.Connection.HandleClient | src/server/mod.rs:92-136 | the read loop up to the disconnect computes the store, the bytes sent and the pending bytes |
| Connection.ServeIsDrain | src/server/mod.rs:92-135 | however bytes are cut into reads, the events up to the first error are those of the whole stream drained at once; without an error so is the rest |
| Connection.ChunkingIndependence | src/server/mod.rs:92-135 | two ways of cutting the same bytes give the same events up to and including the first protocol error, and without an error the same leftover |
| Connection.StreamIsParseAll | src/server/resp.rs:74-89 | on an error-free stream the dispatched values and leftover bytes are those of parse_all of the whole stream |
| Chunking.ChunkingFreeIff | src/server/mod.rs:92-135 | all ways of cutting a stream into reads of at most max bytes (max > 1) are served alike, errors and leftover included, if and only if no error shows before the last byte, or the first error is followed by max type bytes beginning a complete line that is not UTF-8 and the same holds of what follows the error |
| Chunking.ServerChunkingIff | src/server/mod.rs:41-103 | the same for the read buffer of 8192 bytes |
| Chunking.ShortStreamIff | src/server/mod.rs:92-135 | a stream without an error before its last byte is served alike however it is cut; for a stream that fits one read the converse holds too |
| Chunking.EarlyErrorMayNotMatter | src/server/mod.rs:92-135 | for every read size, a stream that shows an error early and is still served alike however it is cut |
| Chunking.ChunkingMattersAfterError | src/server/mod.rs:122-128 | an instance: the same five bytes dispatch nothing or one command more |
| Service.OutputIgnoresChunking | src/server/mod.rs:92-135 | two ways of cutting the same bytes give the same store and the same bytes sent up to and including the first error report |
| Service.PipelineIsAnswered | src/server/mod.rs:99-135 | a pipeline of encoded requests with an incomplete tail, cut anyhow: each executed once in order, the encoded replies sent in order and nothing else, the tail kept |
| Service.ClientReadsRepliesIff | src/server/mod.rs:118-120 | the client parses exactly one reply per request out of the bytes sent if and only if no request is an unknown command with a CRLF inside its name |
| Service.ServerIsMap | src/server/mod.rs:92-319 | the bytes sent for a pipeline without INFO are the encoded answers of a plain map, and the store ends in its contents |
| Dispatch.ScanOptions | src/server/mod.rs:174-196 | the option loop ends with the TTL of the last effective option, 0 without one |
| Options.OptionsMean | src/server/mod.rs:174-196 | the TTL from the arguments as sent, words in either case: that of the last EX or PX with an argument, other words and a last lone word skipped, a malformed number counting as 0, milliseconds rounded up with wrap-around |
| Options.EveryListIsOptions | src/server/mod.rs:175-195 | every argument list is such a list of options and skipped words |
| Dispatch.DelKeys | src/server/mod.rs:204-215 | the counting loop of DEL over the client |
| Dispatch.CountExisting | src/server/mod.rs:217-228 | the counting loop of EXISTS over the client, each look-up at its own clock reading |
| Dispatch.DispatchCommand | src/server/mod.rs:140-319 | one parsed value: extraction errors in their order, otherwise the command; the protocol value with its text, and the store |
| Wire.ExtractIff | src/server/resp.rs:255-280 | a value is a command if and only if it is an array of bulk strings, the first UTF-8: name in upper case, arguments in order |
| Wire.RefusalIff | src/server/resp.rs:255-280 | exactly when each of the four reasons not to be a command applies |
| Wire.VerbIff | src/server/mod.rs:146-313 | a command word is recognised if and only if it spells one of the command's names, each letter in either case |
| Talk.ClientReads | src/server/mod.rs:92-319 | a request in literal bytes, cut anyhow: the client parses exactly one value, given for every command by the map the store shows, errors with their texts included, and the store goes on showing the map |
| Conversations.SetThenGetTalk | src/server/mod.rs:167-202 | after an accepted SET with any options, and calls that leave the key alone, a GET in literal bytes reads the value before the deadline and nil from it on, wrap-around included |
| Conversations.ExThenGet | src/server/mod.rs:180-184 | SET key value EX n without overflow: the value while t < now + 1000 n, nil from then on; for ever with n = 0 |
| Conversations.PxThenGet | src/server/mod.rs:185-193 | SET key value PX p without overflow: the value until now + 1000 ceil(p/1000), nil from then on; for ever with p = 0 |
| Conversations.MsetThenGet | src/server/mod.rs:249-262 | after an accepted MSET a GET reads the value of the last pair with the key |
| Conversations.ProtocolErrorIsRead | src/server/mod.rs:122-128 | a stream that starts with a protocol error: the client reads one error naming it and quoting the line or byte; the store is untouched |
| Conversations.NoCommandIsRead | src/server/mod.rs:140-144 | a value that is no command: the client reads one error with the reason; the store is untouched |
| Texts.LimitsSay | src/client.rs:25-31 | the texts of the limit errors, with their numbers |
| Texts.ReportSays | src/server/resp.rs:42-48 | the texts of the protocol errors, with what they quote |
| Texts.InfoReads | src/server/mod.rs:298-306 | the seven lines of INFO |
| ReplyProofs.ReplyRoundTripsIff | src/server/mod.rs:314-317 | an encoded reply parses back as exactly that reply if and only if the request is not an unknown command with a CRLF inside its name |
| ReplyProofs.EchoedCrlfIsMisread | src/server/mod.rs:314-317 | an instance: a command named by a single CRLF |
| ReplyProofs.ErrorReportRoundTrips | src/server/mod.rs:122-128 | whatever bytes caused a protocol error, its report, quoted line included, parses back as one error |
| ReplyProofs.RenderIsSendable | src/server/resp.rs:283-312 | every reply is UTF-8 and fits the protocol; only an echoed command name can carry a CRLF |
| CommandRuns.RespondMirrors | src/server/mod.rs:140-319 | one parsed value, every table operation at its own clock reading, is answered as on the plain map, whose contents the store keeps showing |
| CommandRuns.CommandsRefineMap | src/server/mod.rs:140-319 | every sequence of parsed values, at any clock readings of their table operations, is answered as on the plain map, INFO's counter aside |
| CommandRuns.CommandsAreRun | src/server/mod.rs:140-319 | any hash: a sequence of commands changes the store exactly as the run of the client calls it makes |
| CommandRuns.CommandsKeepInvAndBalance | src/server/mod.rs:140-319 | any hash: every sequence of commands keeps the table invariant and the accounting law of used_count |
| Commands.DelAllMeans | src/server/mod.rs:204-215 | any hash: DEL replies with the number of distinct stored keys among its arguments, and exactly those are gone |
| Commands.ExistsAllMeans | src/server/mod.rs:217-228 | EXISTS counts the arguments its look-ups find, repetitions included: stored, and not expired at the reading of this or an earlier look-up of the key; exactly the entries it meets expired are gone |
| Commands.MgetMeans | src/client.rs:147-149 | MGET fails exactly with the first over-long key; otherwise it gives in order the value in the map before the call, unless expired at the reading of this or an earlier look-up of the key |
| Commands.AnswersInOrder | src/client.rs:147-149 | when the clock does not go back, the i-th answer is the value live at the i-th reading |
| Commands.MsetMeans | src/client.rs:154-161 | MSET writes pairs left to right, each with the expiry of its own reading, as long as the map takes them; on failure those before stay written and the answer is the map's refusal of the next |
| Commands.SetThenGet | src/server/mod.rs:167-202 | after an accepted SET and any calls that leave the key alone, a GET at time t finds the value exactly when the stored expiry lies after t |
| Commands.PxEndToEnd | src/server/mod.rs:183-190 | a SET whose last effective option is PX p is readable on [now, now + p) and absent from now + 1000 ceil(p/1000) on |
| Concurrent.NeverEmptyAgain | src/hashmap.rs:144-186 | any interleaving of GET, SET and DEL: a slot that left EMPTY never becomes EMPTY again |
| Concurrent.NoDoubleDelete | src/hashmap.rs:316-330 | any interleaving: deletions of a slot plus its final occupancy never exceed its publications plus its initial occupancy |
| Concurrent.TransitionsAreAccountedFor | src/ttl.rs:68-77 | any interleaving: OCCUPIED to TOMBSTONE transitions are the winning evictions plus the Deleted answers, up to DELs between winning and returning |
| History.SetAnswerIff | src/hashmap.rs:200-280 | any interleaving, any expiries and clocks: SET answers Updated if and only if it came upon its key, otherwise Inserted if and only if it met a tombstone, an empty slot or an expired entry of its fingerprint, whoever buried that; Full if and only if none of these, and then it loaded all slots |
| History.FullMetNoRoom | src/ttl.rs:68-77 | a SET that answered Full had no tick at which the slot it loaded was a tombstone or an entry of its fingerprint was expired |
| History.SetWritesFirstRoom | src/hashmap.rs:218-277 | a SET publishes into the first room it met, without any into the empty slot |
| History.GetAnswerIff | src/hashmap.rs:140-189 | any interleaving: GET answers Expired if and only if it met an expired entry of its fingerprint, also when another thread buried it; otherwise Found if and only if it came upon its key |
| History.DelAnswerIff | src/hashmap.rs:290-342 | any interleaving: DEL answers Deleted if and only if its compare-and-swap won; Missing after an empty slot or all slots |
| Census.LedgerRun | src/hashmap.rs:219-230 | any interleaving of GET, SET and DEL, modulo 2^64: used_count plus updates still to come minus occupied slots changes by winning evictions, minus fallback inserts, plus publications into slots already occupied |
| Census.CounterAtRest | src/hashmap.rs:324-329 | from a new arena, whenever no operation is under way, used_count is occupied slots plus evictions minus fallback inserts plus overwriting publications, modulo 2^64 |
| Publication.WriterPublishes | src/hashmap.rs:395-413 | the publishing store makes exactly the written entry visible and keeps the table invariant |
| Publication.SettingHolds | src/hashmap.rs:200-280 | one writer of absent keys without TTL, any readers, any interleaving: the table invariant holds at every step and stored entries stay |
| Publication.EveryGetIsSafe | src/hashmap.rs:140-189 | every finished GET answered NotFound, and only if its key was not stored when it was called, or exactly the stored bytes |
| Publication.GetOfStoredFinds | src/hashmap.rs:140-189 | a GET called while its key is stored answers with the stored value, whatever the writer and the other readers do |
| Publication.GetAfterSetFinds | src/hashmap.rs:395-413 | a GET called at any time after the SET of its key returned, later SETs in between or under way, answers with the value set |
| Publication.EverySetIsStored | src/hashmap.rs:200-280 | a finished SET stored its entry, or answered Full and every slot is occupied by another key |
| Publication.NewArenaIsSetting | src/shm.rs:165-178 | a new arena with idle threads meets the assumptions of the publication results |
| Removal.EveryAnswerIsHonest | src/hashmap.rs:140-342 | any interleaving of GETs and DELs: Found carries the bytes stored at the start, NotFound, Deleted and Missing mean the key is gone, Expired that an entry of its fingerprint was evicted in due time; slots are only buried |
| Removal.DeletedAtMostOnce | src/hashmap.rs:316-330 | any interleaving of GETs and DELs: at most one DEL of a key answers Deleted, only if the key was stored, and then it is not stored any more |
| Progress.WaitFree | src/hashmap.rs:144-186 | every GET, SET and DEL finishes within a bounded number of its own steps under every interleaving |
| Progress.GetAfterSetReturns | src/hashmap.rs:140-189 | a GET called at any time after the SET returned does answer with its value, after a bounded number of its own steps |
| Solo.GetRunsAlone | src/hashmap.rs:140-189 | the atomic steps of a GET that runs undisturbed give the answer and the table of the GET function |
| Solo.SetRunsAlone | src/hashmap.rs:200-280 | the byte-by-byte steps of a SET that runs undisturbed give the answer and the table of the SET function; the counter rises exactly on a non-fallback insert |
| Solo.DelRunsAlone | src/hashmap.rs:290-342 | the steps of a DEL that runs undisturbed give the answer and the table of the DEL function; the counter falls exactly when it deletes |

## Left out

- `shm_open`, `mmap`, `ftruncate`, pointer arithmetic, the Windows stubs and the magic-number check of `open_arena`: foreign calls; the arena starts as an array of empty slots.
- Weak memory orderings: steps are sequentially consistent.
- Concurrent SET with SET, in-place update racing with GET, and slot reuse racing with GET: slots are not claimed by CAS, so only the state-level laws of `Concurrent` are proved for them.
- `flush_all` under concurrency: it is documented as needing exclusive access, so the step model has no flush.
- Slot states other than EMPTY, OCCUPIED and TOMBSTONE: no operation stores one, so the defensive branch for them is not modelled.
- Clock movement inside one table operation: each `Arena` operation uses one reading, a command one for each of its table operations; the step model reads the clock at every eviction test.
- Arithmetic overflow checks of a debug build: sums and products wrap as in a release build.
- The floating-point percentage in the INFO text: a parameter (`Replies.Ratio`) of at most 32 bytes; the rest of the text is modelled.
- Metrics, sockets and failing writes: the bytes sent are a growing sequence.
- Several connections at once: `Connection` and `Service` follow one connection; `CommandRuns` covers the commands of all clients in whatever order they are executed, each as a whole.
- Command and option names beyond ASCII: upper-casing is ASCII only.
- Allocation failure for a huge announced array length, and the native stack limit of the mutual recursion of `parse` and `parse_array` on deeply nested arrays: sequences and recursion are unbounded.
- The C interface and the WebSocket bridge: plumbing around the operations modelled here.
- `remaining_ttl_ms` and the per-slot `is_*` predicates: unused by the operations modelled here.
