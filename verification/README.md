# Verified models of flyboard's self-contained algorithms

Dafny models, with proofs, of the parts of flyboard whose whole logic is in the repository: the
TASFA block cryptography, the `connhold` connection holder, the hash-chained audit log, the mosaic
tracer, the string codecs, one-time codes, the payload pacer and the TeX line breaker.

Code that changes state step by step is a method, on arrays or on a class with the source's fields,
proved equal to a specification function or relation; what the code is for is then proved of that
specification, for every input, every run or every interleaving.

| file | models |
|---|---|
| `Bytes`, `Gf128`, `Ghash`, `AesSbox`, `Aes`, `AesField`, `Gcm` | `wasm/aesgcm.h` |
| `TasfaModule` | `wasm/tasfa_crypto_module.c`, `wasm/tasfa_crypto_protocol.h` |
| `Http2Reader`, `Http1Reader`, `HoldRequest`, `HoldChild`, `HoldReads`, `HoldShares` | `tools/connhold.c` |
| `AuditLog`, `AuditAccepted` | `src/audit/audit.c` |
| `Mosaic` | `tools/mosaic_to_svg.py` |
| `Wtf8` | `public/js/post-translate.js`, `wasm-client/client_core_module.c` |
| `Base32`, `Totp` | `src/auth/totp.c` |
| `Pacer` | `tools/benchmark_tasfa_compression.py` |
| `TexSplit` | `public/js/katex-render.js` |
| `Common`, `Arithmetic` | types, small functions and division facts the others share |

`dafny verify dfyconfig.toml` checks everything.

## Where the code does less than one might expect

Each of these but the last is a lemma: a concrete input, or the exact condition.

- A blank `Content-Length` value makes `strtol` run on. It takes the number from the first later
  header line that is not blank, so `7:` on the next line gives 7 (`Http1Reader.OwnValueIff`,
  `Http1Reader.BlankValueReadsNextLine`). If all the rest of the header is blank the length is 0, or
  whatever number the bytes behind the header in the same buffer start with
  (`Http1Reader.BlankReadsOn`); only then does the length depend on them
  (`Http1Reader.LengthSettledIffStopsInside`, `Http1Reader.BlankValueReadsBody`).
- What `connhold` counts can depend on how the bytes are cut into reads. Over HTTP/1.1 that is so if
  and only if something comes behind the response (`HoldReads.CountIndependentIff1`), over HTTP/2 if
  and only if the reader gives up on bytes after a beginning of them has completed the response
  (`HoldReads.CountIndependentIff2`).
- The module's sizes have 32 bits. An encrypt request whose frame is within 16 bytes of 2^32 has an
  output whose decrypt frame it cannot receive (`TasfaModule.RoundTripOfReceivable`).
- A PING of another size than eight bytes is not echoed: a shorter one is filled up with bytes of an
  earlier PING (`Http2Reader.EchoIsPayload`).
- `connhold` counts a connection that opens and then fails to connect twice in its test for the end
  of the ramp; the test is exact only when there was none (`HoldChild.RampTestExactIffNoAsyncFailure`).
- The header block of a request fits the 160 bytes it has only for paths of at most 145 bytes
  (`HoldRequest.BlockFitsIffPathShort`), and its one-byte length is right only for paths shorter
  than 127 (`HoldRequest.PathReadBackIffShort`).
- A string without lone surrogates whose first unit is U+FEFF loses it, because the standard decoder
  takes it for a byte order mark (`Wtf8.ReadBackIffNoLeadingFeff`).
- A cut in TeX source can follow a backslash: a minus after an escaped backslash
  (`TexSplit.CutFollowsBackslashIff`). Trimming a piece that ends in an escaped space leaves the
  backslash alone (`TexSplit.LineDanglesIff`, `TexSplit.EscapedSpaceIsLost`).
- An audit entry does not verify if the clock is at or before the epoch or its signature is not one
  that verifies (`AuditLog.NewEntryValidIffGood`). Such an entry, or a torn write, freezes the log for
  good (`AuditLog.LogStaysAccepted`, `AuditLog.SpoiledLogNeverGrows`).
- In the first half minute of the epoch the step before the first is merged with the first one
  (`Totp.AcceptsIffInWindow`).
- A `begin` forgets reservations made outside `begin` and `end` whose time is not over, and the rate
  can then be exceeded by as much, from two writers on (`Pacer.RateExceededByForgotten`,
  `Pacer.RateExceeded`, `Pacer.CanExceedIffTwoWriters`);
  `write_paced` never makes one (`Pacer.RateNeverExceeded`).
- A comment in the mosaic tracer (`tools/mosaic_to_svg.py:61`) speaks of the median tone of a bucket;
  the code computes the rounded mean, and so does the model.

## Model

| member | source | states |
|---|---|---|
| `Gf128.RemShift` | wasm/aesgcm.h:119-124 | Reducing t·p modulo x^128+x^7+x^2+x+1 (by long division) is one right shift with the conditional 0xe1 step applied to the reduced p. |
| `Gf128.AccumIsMul` | wasm/aesgcm.h:109-128 | After 128 shift-and-add steps the accumulator is the convolution product of the two polynomials reduced modulo the field polynomial, for all blocks. |
| `Gf128.MulCommutes` | wasm/aesgcm.h:109-128 | The multiplication commutes although the two operands are treated quite differently by the loop. |
| `Gf128.MulAssociates` | wasm/aesgcm.h:109-128 | The multiplication is associative. |
| `Gf128.MulDistributes` | wasm/aesgcm.h:109-128 | It is linear over XOR in both operands. |
| `Gf128.MulOne` | wasm/aesgcm.h:109-128 | The block 0x80, 0, … is its unit, in the reflected bit order. |
| `Gf128.FieldPolynomial` | wasm/aesgcm.h:119-124 | The remainder of x^128 is x^7+x^2+x+1. |
| `Bytes.BitsOfByte` | wasm/aesgcm.h:115 | The bits of a byte are taken from the highest down. |
| `Gf128.HornerIsPowerSum` | wasm/aesgcm.h:131-143 | The block-by-block update evaluates the polynomial with the blocks as coefficients at the subkey. |
| `Ghash.ShiftedBytesIsTimesT` | wasm/aesgcm.h:119-124 | The byte-wise shift with carries and 0xe1 is multiplication by t on the 128 bits. |
| `Ghash.GhashMul` | wasm/aesgcm.h:109-128 | The in-place loop leaves exactly the field product of the old y and x in y. |
| `Ghash.GhashUpdate` | wasm/aesgcm.h:131-143 | The in-place update over data of any length is Horner's rule over its zero-padded blocks. |
| `Ghash.UpdateComposes` | wasm/aesgcm.h:131-143 | Updating with a whole number of blocks and then with more data equals updating with both at once. |
| `Ghash.UpdateIsPowerSum` | wasm/aesgcm.h:131-143 | From zero, the update is the sum of block times power of the subkey. |
| `AesSbox.InvSubByteUndoes` | wasm/aesgcm.h:31-50 | The 256-entry table is a permutation, undone by the inverse table of FIPS-197. |
| `AesField.SubByteIsAffineInverse` | wasm/aesgcm.h:31-50 | Every entry is the affine image of its index's inverse in GF(2^8), of which there is exactly one (section 5.1.1 of FIPS-197). |
| `AesField.InverseUndoes` | wasm/aesgcm.h:31-52 | In that field, multiplying by the inverse undoes multiplying by any x but zero. |
| `AesField.TimesCommutes` | wasm/aesgcm.h:52 | The multiplication built from the doubling step commutes. |
| `AesField.TimesAssociates` | wasm/aesgcm.h:52 | It is associative. |
| `Aes.InvMixByteUndoes` | wasm/aesgcm.h:91-97 | The 14-11-13-9 combination undoes the column mixing for every column. |
| `Aes.RoundsUndone` | wasm/aesgcm.h:85-101 | The rounds run backwards give the input back, for any schedule and any number of rounds. |
| `Aes.InvCipherUndoes` | wasm/aesgcm.h:79-106 | The inverse cipher of section 5.3 of FIPS-197 undoes the encryption of every block under every schedule. |
| `Aes.CipherInjective` | wasm/aesgcm.h:79-106 | Distinct blocks encrypt to distinct blocks. |
| `Aes.EncryptBlock` | wasm/aesgcm.h:79-106 | The 4x4 state-matrix loops, with SubBytes and ShiftRows fused, compute the cipher of FIPS-197 in its column-major order. |
| `Aes.CipherByBytes` | wasm/aesgcm.h:79-106 | There are fourteen states, the first the input with key words 0 to 3 added, each next one a full round of the one before, byte by byte with its S-box byte, column shift, matrix row 2 3 1 1 and key byte; the output is the S-box bytes of the last, shifted alike, with key words 56 to 59. |
| `Aes.WordBytes` | wasm/aesgcm.h:67-68 | The key bytes of a word are its base-256 digits, the highest first. |
| `Aes.KeyExpand` | wasm/aesgcm.h:63-77 | The loop fills the 60 round-key words by the recurrence of FIPS-197 on the key. |
| `Aes.KeyWordsByBytes` | wasm/aesgcm.h:66-68 | The first eight words are the key, big-endian. |
| `Aes.ScheduleByBytes` | wasm/aesgcm.h:69-76 | The sum of words i and i - 8 is, byte by byte, word i - 1 through the S-box, rotated and with x^(i/8-1) added if i is a multiple of 8, in place if it is 4 more, and word i - 1 itself otherwise. |
| `Aes.LastWordsDetermineKey` | wasm/aesgcm.h:63-77 | The recurrence runs backwards: equal last eight round-key words mean equal keys. |
| `Gcm.GcmInc32` | wasm/aesgcm.h:145-153 | Only the last 32 bits are incremented, modulo 2^32, in place. |
| `Gcm.CounterOfIncN` | wasm/aesgcm.h:145-153 | After n increments the counter is the old one plus n modulo 2^32 and the first twelve bytes are unchanged. |
| `Gcm.CounterBlocksDistinct` | wasm/aesgcm.h:145-168 | Any 2^32 consecutive counter blocks are pairwise distinct. |
| `Gcm.CtrCrypt` | wasm/aesgcm.h:155-168 | The loop writes input XOR key stream at its place, leaves every other byte alone and leaves the counter advanced by the number of blocks. |
| `Gcm.CtrInvolution` | wasm/aesgcm.h:155-168 | Counter mode from the same start is its own inverse. |
| `Gcm.CtrSplits` | wasm/aesgcm.h:155-168 | Counter mode composes at block boundaries, with the counter carried over. |
| `Gcm.GcmTag` | wasm/aesgcm.h:181-195 | Three updates over additional data, ciphertext and bit lengths, masked with the encrypted initial block. |
| `Gcm.TagIsOneGhash` | wasm/aesgcm.h:181-195 | Those three updates are one GHASH over the padded concatenation of section 7.1 of SP 800-38D. |
| `Gcm.Encrypt` | wasm/aesgcm.h:201-213 | Writes the ciphertext at its place and returns the tag. |
| `Gcm.Decrypt` | wasm/aesgcm.h:219-237 | Writes the plaintext exactly when the recomputed tag equals the given one in all sixteen bytes; otherwise writes nothing. |
| `Gcm.EncryptIsStandard` | wasm/aesgcm.h:170-213 | Byte i of the ciphertext is that of the plaintext plus byte i mod 16 of the encrypted IV and number 2 + i/16; the tag is the GHASH under the encrypted zero block of padded data, padded ciphertext and bit lengths, plus the encrypted IV and number 1. |
| `Gcm.DecryptIsStandard` | wasm/aesgcm.h:219-237 | Decryption accepts exactly that tag, and then gives exactly those bytes. |
| `Gcm.DecryptUndoesEncrypt` | wasm/aesgcm.h:201-237 | Decrypting an encryption yields the plaintext, with the tag it was given and with no other. |
| `TasfaModule.DeriveIvInjective` | wasm/tasfa_crypto_module.c:21-27 | For one seed, distinct chunk indices give distinct IVs. |
| `TasfaModule.DeriveIvTwice` | wasm/tasfa_crypto_module.c:21-27 | Deriving twice with one index restores the seed. |
| `TasfaModule.DeriveIvByBytes` | wasm/tasfa_crypto_module.c:21-27 | The index as a two's complement number is added to bytes 8 to 11, the highest first; bytes 0 to 7 stay. |
| `TasfaModule.AadFits` | wasm/tasfa_crypto_module.c:113-119 | No sid of at most 512 bytes and no 32-bit index is ever truncated by the 528-byte buffer. |
| `TasfaModule.AadInjective` | wasm/tasfa_crypto_module.c:29-34 | Equal texts `sid:index` mean equal sids and equal indices, even when sids contain colons. |
| `TasfaModule.AadText` | wasm/tasfa_crypto_module.c:29-34 | The text is the sid up to its first NUL, a colon, a minus if the index is negative, and its size in decimal. |
| `TasfaModule.DecimalReads` | wasm/tasfa_crypto_module.c:30 | The decimal reads as the number in base ten, without a leading zero. |
| `TasfaModule.ParseSerialize` | wasm/tasfa_crypto_module.c:80-109 | Parsing a serialised request gives back every field. |
| `TasfaModule.RequestIff` | wasm/tasfa_crypto_module.c:80-109 | A byte string is a request exactly if it has its 51 bytes, a sid of at most 512, a data length, and that much data. |
| `TasfaModule.RequestByOffsets` | wasm/tasfa_crypto_module.c:88-102 | Op, key, seed, signed index, sid and data stand at their offsets. |
| `TasfaModule.EncryptAnswer` | wasm/tasfa_crypto_module.c:131-136 | Op 1 answers status 0, the length, ciphertext and tag. |
| `TasfaModule.DecryptAnswer` | wasm/tasfa_crypto_module.c:137-145 | Op 2 takes the last sixteen bytes for the tag and answers status 0, the length and the plaintext, or status 1 and length 0. |
| `TasfaModule.OtherAnswers` | wasm/tasfa_crypto_module.c:74-86 | Everything else is answered by status 1 and length 0. |
| `TasfaModule.SumsDoNotWrap` | wasm/tasfa_crypto_module.c:93-122 | With 32-bit sizes, as the module is built for, the length test accepts no sum that wraps, and what passes it makes neither the response's capacity nor its length field wrap. |
| `TasfaModule.Parse` | wasm/tasfa_crypto_module.c:80-109 | With those wrapping sums the parsing code reads every receivable byte string as the frame format says. |
| `TasfaModule.Serve` | wasm/tasfa_crypto_module.c:71-153 | The buffer-filling main, sizes modulo 2^32, answers every receivable byte string, malformed ones and failed allocations included, as the request function says. |
| `TasfaModule.DecryptAcceptsIffTag` | wasm/tasfa_crypto_module.c:137-151 | A decrypt request gets status 0 exactly when its last sixteen bytes are the tag of the rest, and the failure frame otherwise. |
| `TasfaModule.RoundTrip` | wasm/tasfa_crypto_module.c:129-151 | As the frames go, the output of an encrypt request, sent back to decrypt with the same header fields, gives status 0 and the original data if and only if data plus tag is below 2^32 bytes. |
| `TasfaModule.RoundTripOfReceivable` | wasm/tasfa_crypto_module.c:71-153 | For every request that a module with 32-bit sizes can receive, the frame sent back would give the data; it can be received itself if and only if sid and data leave room for both headers' 55 bytes and the tag below 2^32. |
| `TasfaModule.MessageCountersDistinct` | wasm/tasfa_crypto_module.c:101-112 | All counter blocks of one request, the one that masks the tag included, are pairwise distinct. |
| `TasfaModule.ChunkCountersDisjoint` | wasm/tasfa_crypto_module.c:21-27 | Two chunks under one seed never share a counter block. |
| `Bytes.Be32ReadWrite` | wasm/tasfa_crypto_protocol.h:42-53 | Reading a written big-endian word gives the number back. |
| `Bytes.Be32WriteRead` | wasm/tasfa_crypto_protocol.h:42-53 | Writing a word that was read gives the four bytes back. |
| `Http2Reader.Slot.ConsumeH2` | tools/connhold.c:211-275 | The chunked loop leaves the slot, the ordered output and the result of a byte-at-a-time machine, from every reachable state. |
| `Http2Reader.SplitIndependence` | tools/connhold.c:211-275 | Reading a then b equals reading a+b: same slot, same output, and the result is the or of the two, or -1 at the same frame. |
| `Http2Reader.ChunkingIrrelevant` | tools/connhold.c:211-275 | Any cutting of a byte stream into reads equals the whole stream. |
| `Http2Reader.FrameHandled` | tools/connhold.c:238-272 | One whole frame in the format of section 4.1 of RFC 9113 gets exactly the reply its type, flags and stream call for. |
| `Http2Reader.DataAnswered` | tools/connhold.c:242-249 | In bytes: a DATA frame is answered by the WINDOW_UPDATE with its length, unless it is empty; flag 1 on the own stream ends the response. |
| `Http2Reader.HeadersAnswered` | tools/connhold.c:271-272 | A HEADERS frame is answered by nothing; flag 1 on the own stream ends the response. |
| `Http2Reader.ResetAnswered` | tools/connhold.c:250-252 | RST_STREAM fails the reader on the own stream and does nothing on another. |
| `Http2Reader.SettingsAnswered` | tools/connhold.c:253-258 | SETTINGS without the ACK flag is answered by the nine bytes of an ACK, with it by nothing. |
| `Http2Reader.PingAnswered` | tools/connhold.c:259-265 | A PING of eight bytes without the ACK flag is answered by an ACK with them, with it by nothing. |
| `Http2Reader.GoawayAnswered` | tools/connhold.c:266-267 | GOAWAY fails the reader. |
| `Http2Reader.OthersIgnored` | tools/connhold.c:268-270 | Every other kind does nothing. |
| `Http2Reader.FramesAnswered` | tools/connhold.c:208-275 | A stream of whole frames, however cut up, produces the dialogue of its frames one by one. |
| `Http2Reader.WholeAndTail` | tools/connhold.c:211-237 | Any bytes are those of their whole frames and then of an unfinished one. |
| `Http2Reader.AnyBytesAnswered` | tools/connhold.c:208-275 | Any reads of any bytes produce the dialogue of the whole frames; the unfinished one is answered by nothing. |
| `Http2Reader.CreditConserved` | tools/connhold.c:242-249 | In that dialogue, as long as nothing fails, the window credit returned equals the payload of all DATA frames. |
| `Http2Reader.CreditConservedByReads` | tools/connhold.c:211-275 | So it does over any reads of any bytes, the last frame finished or not. |
| `Http2Reader.EchoIsPayload` | tools/connhold.c:230-232 | A PING is echoed exactly if and only if it has eight bytes; a shorter one is filled up from the buffer's old bytes, a longer one cut. |
| `Http1Reader.Slot.ConsumeH1` | tools/connhold.c:279-329 | The loop over one read equals the reader function, and a failed allocation changes nothing. |
| `Http1Reader.AnySplitCompletesOnce` | tools/connhold.c:279-329 | Every split of one response with a non-negative length yields 0 until the last read and 1 there, and leaves the slot ready for the next response. |
| `Http1Reader.ReadOfResponse` | tools/connhold.c:279-329 | From any point of a response, a read gives 0 before its last byte, 1 exactly at it and, if `strtol` stopped inside the header, -1 beyond it; bytes behind the header in the same read count once. |
| `Http1Reader.LengthSettledIffStopsInside` | tools/connhold.c:301-308 | A length that is there is independent of the bytes behind the header if and only if something other than white space stands between the field's name and the header's end. |
| `Http1Reader.BlankReadsOn` | tools/connhold.c:305 | Otherwise it is the number that the bytes behind the header start with, whatever they are. |
| `Http1Reader.StrToLOfDecimal` | tools/connhold.c:305 | `strtol` in base ten reads spaces, an optional sign and a decimal number back as that number, up to the ends of the 64-bit range, where it stays. |
| `Http1Reader.NameInAnyCase` | tools/connhold.c:304 | A line matches exactly if it starts with `content-length:` in any mixture of cases. |
| `Http1Reader.LengthAsWritten` | tools/connhold.c:294-309 | A header whose first such line says n has length n, whatever body follows. |
| `Http1Reader.ResponseAsWritten` | tools/connhold.c:279-329 | With a body of that many bytes it yields zeros and then one 1, in any reads. |
| `Http1Reader.TooLongHeader` | tools/connhold.c:283-299 | A header without its end in the first 16383 bytes fails. |
| `Http1Reader.LengthOfLines` | tools/connhold.c:301-309 | For any header lines the length is the number at the start of the first text that is not blank, the first matching line's own value or else a later line. |
| `Http1Reader.OwnValueIff` | tools/connhold.c:301-308 | It is the number of the field's own value if and only if that is not blank or the later lines give 0. |
| `Http1Reader.BlankValueReadsNextLine` | tools/connhold.c:305 | A header whose length, 7, comes from the line after a blank value. |
| `Http1Reader.BlankValueReadsBody` | tools/connhold.c:305 | A header whose length, 0, becomes 1 with a body byte in the same buffer. |
| `Http1Reader.ScanFindsFirstMatch` | tools/connhold.c:302-308 | The pointer scan over line ends finds the first header line with the name, and none if there is none. |
| `HoldRequest.BuildReq` | tools/connhold.c:166-200 | For a path that fits, the buffer holds, on stream 1 only, the preface and empty SETTINGS, then one HEADERS frame that the frame format decodes. |
| `HoldRequest.RequestInBytes` | tools/connhold.c:166-200 | The request byte by byte. |
| `HoldRequest.Texts` | tools/connhold.c:173-192 | Preface and authority spell their texts. |
| `HoldRequest.BlockFitsIffPathShort` | tools/connhold.c:182-198 | The header block fits its 160 bytes if and only if the path has at most 145, and then the request fits its 1024. |
| `HoldRequest.PartialWritesResume` | tools/connhold.c:373-392 | However the sending of any bytes is cut into rounds and partial writes, the peer has their first ones in order, and all of them once when the slot goes on to read. |
| `HoldRequest.RequestArrives` | tools/connhold.c:155-200 | From the start of a send, those bytes are the request of the slot's own stream and path. |
| `HoldRequest.RequestsOpenOddStreams` | tools/connhold.c:155-161 | In every run of a child, request k of a connection is on stream 2k - 1, and a slot without a live connection is on none. |
| `HoldRequest.PathReadBackIffShort` | tools/connhold.c:180-193 | A decoder of section 6 of RFC 7541 reads method, scheme, path and authority back if and only if the path is shorter than 127 bytes. |
| `HoldChild.Process.OnEpoll` | tools/connhold.c:331-444 | The event handler changes its slot and the counters exactly as the composed connect, handshake, send and read phases do, and no other slot. |
| `HoldChild.Process.ScanAll` | tools/connhold.c:511-524 | The periodic scan visits every started slot once, pings or times out as due. |
| `HoldChild.OnEventBalanced` | tools/connhold.c:331-444 | Whatever an event does, each gauge moves as its slot's state does and every connection that leaves is counted once. |
| `HoldChild.EventCauses` | tools/connhold.c:331-444 | Which failure counter moves: connect failures, handshake failures, and closes for every other way of leaving. |
| `HoldChild.ConnectingSlot` | tools/connhold.c:333-371 | A connecting slot is refused, goes on to the handshake over TLS, or else to sending, with each counter that moves. |
| `HoldChild.HandshakingSlot` | tools/connhold.c:356-372 | A handshaking slot stays, fails, or goes on to sending. |
| `HoldChild.SendingSlot` | tools/connhold.c:373-392 | A sending slot stays if nothing is accepted, closes if the write fails, and reads once all is out. |
| `HoldChild.ReadingSlot` | tools/connhold.c:393-442 | A reading slot stays, closes, or is counted, served and idle when its response completes. |
| `HoldChild.IdleSlot` | tools/connhold.c:393-424 | An idle slot changes only by closing. |
| `HoldChild.LeavingTakesOff` | tools/connhold.c:117-128 | Closing empties the slot and takes it off the gauge of its state and, if served, the served one. |
| `HoldChild.AttemptIs` | tools/connhold.c:468-500 | An attempt counts a failure, or opens a connecting slot. |
| `HoldChild.ScanIs` | tools/connhold.c:514-523 | The scan counts and closes a slot past its deadline and sends again on an idle one that is due. |
| `HoldChild.RunKeepsInv` | tools/connhold.c:461-525 | Every run of attempts, events and scans keeps the books. |
| `HoldChild.BooksBalance` | tools/connhold.c:117-128 | In every reachable state the gauges equal the slots in those states, none is negative, and attempts equal those in progress plus those ended, by cause. |
| `HoldChild.RampTestExactIffNoAsyncFailure` | tools/connhold.c:625 | Opened plus failed is at least the attempts, and equal to them if and only if no opened connection failed to connect. |
| `HoldChild.RampEndsEarly` | tools/connhold.c:625 | Two slots, one attempt, and the ramp already looks over. |
| `HoldReads.ResponseCounted` | tools/connhold.c:393-442 | With the HTTP/1.1 reader in the read loop, a response and what comes behind it are counted once and idle the slot if a read ends with the response; otherwise the connection is closed and nothing counted. |
| `HoldReads.CountIndependentIff1` | tools/connhold.c:425-441 | The outcome is the same for every cutting into reads if and only if nothing comes behind the response. |
| `HoldReads.IdleIgnores` | tools/connhold.c:416-420 | What an idle HTTP/1.1 slot reads changes nothing. |
| `HoldReads.StreamCounted` | tools/connhold.c:395-415 | With the HTTP/2 reader in it, over any reads, the response is counted exactly if some read completes it before the reader gives up, and the connection is closed exactly if the reader gives up on the whole. |
| `HoldReads.CountIndependentIff2` | tools/connhold.c:395-415 | The outcome is the same for every cutting if and only if the reader does not give up on bytes of which some beginning completes the response. |
| `HoldShares.SharesSumToAll` | tools/connhold.c:588-591 | The shares of all processes sum to the connections asked for. |
| `HoldShares.NumberingIsBijection` | tools/connhold.c:468-472 | Each number below the total belongs to exactly one slot of one process. |
| `HoldShares.NumberInRangeIffInShare` | tools/connhold.c:468-472 | A slot's number is below the total exactly when the slot is in its process's share. |
| `HoldShares.LoadsDifferByAtMostOne` | tools/connhold.c:471 | Any two addresses get loads that differ by at most one. |
| `AuditLog.Verify` | src/audit/audit.c:82-128 | The loop accepts exactly the texts the chain scan accepts and reports their number of entries. |
| `AuditLog.LastEntry` | src/audit/audit.c:164-194 | The appender's check accepts the same texts and ends with the next number and the last hash. |
| `AuditLog.AuditRecord` | src/audit/audit.c:196-257 | The file grows by the bytes written of one new line if the log verifies and nothing else fails; otherwise it is unchanged; success means the whole line was written and synced. It is what the open, lock, check, append and release steps of one recorder leave. |
| `AuditLog.NewEntryFields` | src/audit/audit.c:219-227 | Every field of a new entry is found under its name with its value. |
| `AuditLog.RecordedIs` | src/audit/audit.c:196-257 | What those steps of a single recorder leave in the file, for every answer of the calls. |
| `AuditLog.RecordedByCases` | src/audit/audit.c:196-257 | A line is written only if auditing is on, the action is not empty, file, lock and memory are there, the log verifies, a wanted signature is made, and the line has at most 65536 characters. |
| `AuditLog.NewEntryValidIffGood` | src/audit/audit.c:60-80 | A new entry is valid where it was written if and only if the clock is past the epoch and its signature, if any, verifies. |
| `AuditLog.NewLineScans` | src/audit/audit.c:239-248 | A new line moves the scan on by one entry to its own hash, or makes it fail if the entry is not valid. |
| `AuditLog.RunKeepsInv` | src/audit/audit.c:196-257 | Every interleaving of opening, locking, checking, appending, releasing and crashing recorders, at any clock and with any signatures, keeps: one holder of the lock, whose number and hash fit the file, and a file that verifies unless torn or spoiled. |
| `AuditLog.LogStaysAccepted` | src/audit/audit.c:196-257 | From an accepted log every interleaving ends with an accepted log, with as many more entries as completed writes, if and only if no write was cut short and no whole line was of an invalid entry. |
| `AuditLog.BrokenLogNeverGrows` | src/audit/audit.c:213 | A log that does not verify is never appended to. |
| `AuditLog.SpoiledLogIsFrozen` | src/audit/audit.c:213 | After a torn write or an invalid entry the log does not verify and no recorder is about to append. |
| `AuditLog.SpoiledLogNeverGrows` | src/audit/audit.c:196-257 | Once a log that was accepted is not, no continuation of the run changes the file. |
| `AuditLog.AcceptedIsChain` | src/audit/audit.c:60-128 | An accepted text is a chain of entries, numbered in order, each valid and naming the hash before it. |
| `AuditAccepted.EntryIff` | src/audit/audit.c:60-80 | An entry is valid exactly if its first items of each name give version 1, its number, the hash before it, a time past the epoch, an actor and strings for action, target, outcome and detail, its own hash, and no signature but an empty one or one that verifies. |
| `AuditAccepted.HashIff` | src/audit/audit.c:50-58 | The hash is that of the printed object without its first hash and signature items. |
| `AuditAccepted.AcceptedIff` | src/audit/audit.c:82-128 | A text is accepted exactly if it is lines of at most 65536 characters that parse to such entries, numbered from 1, each naming the hash stored in the one before. |
| `AuditAccepted.LogIsAccepted` | src/audit/audit.c:82-128 | The scan of such lines counts them and ends with the last stored hash. |
| `AuditAccepted.TamperingShows` | src/audit/audit.c:71-75 | Changing what is hashed of one entry of an accepted log and keeping its stored hash makes the log rejected, unless the two payloads collide. |
| `AuditLog.LogsAgreeOrCollide` | src/audit/audit.c:50-128 | Two accepted logs of one length and one last hash agree in every payload, or two different payloads with one hash are pointed out. |
| `Mosaic.Runs` | tools/mosaic_to_svg.py:78-86 | The row loop finds exactly the maximal one-colour runs, each once. |
| `Mosaic.MergeRow` | tools/mosaic_to_svg.py:87-103 | One row closes exactly the maximal rectangles that end above it and keeps open those that go on. |
| `Mosaic.Trace` | tools/mosaic_to_svg.py:72-105 | The rectangles are exactly the maximal stacks of one run, each once. |
| `Mosaic.PixelCovered` | tools/mosaic_to_svg.py:72-105 | Every pixel lies in one of them, of its own bucket. |
| `Mosaic.PixelCoveredOnce` | tools/mosaic_to_svg.py:72-105 | And in no other. |
| `Mosaic.AnyOrderPaintsPicture` | tools/mosaic_to_svg.py:104-107 | Painted in any order they reproduce the grid, each pixel painted once. |
| `Mosaic.BucketRange` | tools/mosaic_to_svg.py:58-59 | For one level or more, buckets run from 0 at the lowest tone to levels - 1 at the highest and never fall as the tone rises. |
| `Mosaic.BucketIsNearest` | tools/mosaic_to_svg.py:59 | A bucket is the whole number nearest to the tone's place on the ladder of levels, of two the higher. |
| `Mosaic.RoundedMeanIsNearest` | tools/mosaic_to_svg.py:69 | A tone is the whole number nearest to the mean, of two the higher. |
| `Mosaic.PixelAt` | tools/mosaic_to_svg.py:77 | Pixel (x, y) is number y·w + x. |
| `Mosaic.Tones` | tools/mosaic_to_svg.py:63-69 | The accumulating loop gives each bucket the rounded mean of exactly its pixels. |
| `Mosaic.ToneWithinBucket` | tools/mosaic_to_svg.py:61-69 | A bucket's tone lies between the least and the greatest source tone in it. |
| `Mosaic.GroupsRender` | tools/mosaic_to_svg.py:114-123 | The grouped output renders as the rectangles painted in order, each in the tone of its bucket. |
| `Mosaic.Convert` | tools/mosaic_to_svg.py:47-124 | Every pixel of the rendered output shows the rounded mean of its bucket, whatever order the sort leaves; images without pixels or with a single tone are refused. |
| `Wtf8.DecodeEncode` | public/js/post-translate.js:139-187 | Every sequence of 16-bit units, lone surrogates included, survives encoding and decoding. |
| `Wtf8.EncodeLength` | public/js/post-translate.js:139 | At most three bytes a unit. |
| `Wtf8.EncodeIsUtf8` | public/js/post-translate.js:139-164 | Without lone surrogates the bytes are the UTF-8 of section 3 of RFC 3629 of the scalars. |
| `Wtf8.KnownOctets` | public/js/post-translate.js:145-161 | Known characters of one to four octets, a surrogate pair and lone surrogates encode to their known bytes. |
| `Wtf8.LoneIffIllFormed` | public/js/post-translate.js:127-128 | The regular expression finds a lone surrogate exactly when the string has no scalar reading. |
| `Wtf8.ReadBackIffNoLeadingFeff` | public/js/post-translate.js:125-188 | With any decoder that meets the Encoding Standard on well-formed UTF-8, what is written is read back unchanged if and only if the string has a lone surrogate, is empty or does not start with U+FEFF. |
| `Wtf8.NeedFitsIffShort` | public/js/post-translate.js:139 | The reserve request survives conversion to 32 bits exactly up to 715827882 units. |
| `Wtf8.Bridge.Reserve` | wasm-client/client_core_module.c:94-111 | The doubling loop reaches the need, below twice it and without wrap; on failed allocation nothing changes. |
| `Wtf8.Bridge.WriteUtf8` | public/js/post-translate.js:125-165 | After a successful reserve the buffer holds the encoding and a zero; the length is the encoding's in any case. |
| `Wtf8.Bridge.ReadUtf8` | public/js/post-translate.js:166-188 | After a write in WTF-8 mode the reading loop equals the decoder function on any bytes; otherwise the library's decoder is used. |
| `Base32.RoundTrip` | src/auth/totp.c:15-63 | Decoding undoes encoding for every byte string. |
| `Base32.EncodedLength` | src/auth/totp.c:15-37 | The text has ceil(8n/5) letters. |
| `Base32.Alphabet` | src/auth/totp.c:13 | The letters are A to Z and 2 to 7, in order. |
| `Base32.ValueIff` | src/auth/totp.c:38-43 | A character has a value exactly if it is that letter of the alphabet, in either case. |
| `Base32.SkippedAre` | src/auth/totp.c:51 | Skipped are padding, space, line feed, carriage return and tab. |
| `Base32.KnownEncodings` | src/auth/totp.c:15-37 | Two vectors of section 10 of RFC 4648. |
| `Base32.DecodingIgnores` | src/auth/totp.c:38-63 | Inserting padding or white space anywhere, or changing a letter's case, changes nothing. |
| `Base32.Push` | src/auth/totp.c:21 | Shifting into the 32-bit word keeps the bits that are still pending although the word wraps. |
| `Base32.Pop` | src/auth/totp.c:25 | Shift and mask read exactly the oldest pending bits. |
| `Base32.Encode` | src/auth/totp.c:15-37 | Writes the encoding and a NUL, and returns 0 for a non-empty input exactly when the capacity is at most the text's length. |
| `Base32.Decode` | src/auth/totp.c:45-63 | Writes the decoded bytes, and returns 0 at a foreign character or when they do not fit. |
| `Totp.GeneratedSecretIsUsable` | src/auth/totp.c:65-70 | Every generated secret decodes to its own twenty bytes and is never refused as too short. |
| `Totp.CodeAt` | src/auth/totp.c:72-96 | Key, big-endian counter, keyed hash and truncation give the specified code, or none. |
| `Totp.CodeInNumbers` | src/auth/totp.c:72-96 | In numbers: a key of 10 to 64 bytes, the count of 30-second steps in eight bytes, and the six digits of the 31 bits that the digest's byte 19 points to. |
| `Totp.CodeReadsAsTruncation` | src/auth/totp.c:89-94 | A code is six digits that read as the 31 truncated bits modulo a million. |
| `Totp.StepsHaveDistinctMessages` | src/auth/totp.c:78-83 | Different steps are hashed from different messages. |
| `Totp.SpellingIsIgnored` | src/auth/totp.c:72-76 | Spacing, padding and case of a secret change none of its codes. |
| `Totp.VerifyAt` | src/auth/totp.c:102-121 | Accepts exactly the well-formed codes of the three times tried. |
| `Totp.ThreeTries` | src/auth/totp.c:112-121 | The times tried are 30 seconds before, now and 30 seconds after. |
| `Totp.AcceptsIffInWindow` | src/auth/totp.c:112-121 | From time 30 on those are the codes of the current and both adjacent steps; before it, of the steps listed. |
| `Totp.AcceptedNextDoor` | src/auth/totp.c:112-121 | A code issued in a step is accepted in that step and in both neighbours. |
| `Pacer.PayloadPacer.Reserve` | tools/benchmark_tasfa_compression.py:179-188 | Refuses negative sizes, charges nothing for none, and otherwise moves the deadline by the bytes' link time. |
| `Pacer.WritePaced` | tools/benchmark_tasfa_compression.py:191-204 | A writer with the pacer to itself sends every byte once and in order, ends no earlier than the rate allows, and no later than that by one late sleep and the time its writes take. |
| `Pacer.RateNeverExceeded` | tools/benchmark_tasfa_compression.py:157-204 | In every interleaving of writers that keep to begin and end, over any number of busy periods, with late sleepers and failures, bytes written since a quiet moment never exceed rate times time. |
| `Pacer.RateExceededByForgotten` | tools/benchmark_tasfa_compression.py:168-188 | With reservations outside begin and end as well, they exceed it at most by the bytes that slept when a begin moved the deadline back. |
| `Pacer.RateExceeded` | tools/benchmark_tasfa_compression.py:168-188 | From every quiet state with two writers a run reaches this bound: two bytes in the time of one. |
| `Pacer.CanExceedIffTwoWriters` | tools/benchmark_tasfa_compression.py:168-188 | With reservations outside begin and end, some run exceeds the rate if and only if there are at least two writers. |
| `Pacer.NothingForgotten` | tools/benchmark_tasfa_compression.py:191-204 | No begin forgets anything while all writers keep to begin and end. |
| `Pacer.ReleaseTimeIsExact` | tools/benchmark_tasfa_compression.py:179-188 | A block's release time is the later of now and the busy period's start plus the link time of all it has charged. |
| `TexSplit.SplitMathAtTopLevel` | public/js/katex-render.js:467-490 | The loop returns the pieces between exactly the specified cuts, trimmed, without the empty ones. |
| `TexSplit.PiecesConcat` | public/js/katex-render.js:467-487 | Before trimming the pieces spell the source. |
| `TexSplit.PiecesAreStretches` | public/js/katex-render.js:467-487 | Each runs from cut to cut with no cut missed between. |
| `TexSplit.PiecesAreAtomic` | public/js/katex-render.js:467-487 | Split again on its own, a piece has no cut inside. |
| `TexSplit.EscapedIffOddSlashes` | public/js/katex-render.js:473 | A unit is skipped as escaped exactly when an odd number of backslashes precedes it. |
| `TexSplit.InCharacters` | public/js/katex-render.js:473-485 | Backslashes, braces and cuts in characters: after `=`, `+` and `,` and before both minus signs, unescaped and outside braces. |
| `TexSplit.CutFollowsBackslashIff` | public/js/katex-render.js:473-485 | A cut falls right after a backslash exactly before a top-level minus after a positive even number of them. |
| `TexSplit.CutAfterBackslash` | public/js/katex-render.js:473-485 | Two backslashes and a minus are cut after the second backslash. |
| `TexSplit.BalancedIffLines` | public/js/katex-render.js:467-490 | The source's unescaped braces are balanced if and only if those of every returned piece are. |
| `TexSplit.LinesKeepInk` | public/js/katex-render.js:488-489 | White space aside, the returned pieces hold the source's units in order. |
| `TexSplit.LinesAreTrimmed` | public/js/katex-render.js:488-489 | Every returned piece is one without the spaces at its ends, and is not empty. |
| `TexSplit.SpaceUnits` | public/js/katex-render.js:488 | Those spaces are the units that the language's trim strips. |
| `TexSplit.LineDanglesIff` | public/js/katex-render.js:473-489 | A returned piece ends in a backslash that has lost its partner exactly when the source ends in one or the piece ended in an escaped space. |
| `TexSplit.EscapedSpaceIsLost` | public/js/katex-render.js:488 | The piece before the minus of an `x`, an escaped space, a minus and a `y` is returned with its last backslash alone. |

## Left out

- The libraries: OpenSSL, SHA-256, HMAC-SHA1, ML-DSA and cJSON are parameters. The audit log assumes that printing is one line and parses back, that hashes have 64 characters, and of a signature nothing: entries whose signature does not verify are among the spoiled ones.
- JSON objects are lists of named items; numbers are kept exactly, so sequence numbers of 2^53 and above, where doubles lose precision, are not modelled.
- Reading the audit settings file, missing arguments, the settings globals and error texts; the read errors and directory calls of `audit_verify`.
- The regular expression of `writeUtf8` is modelled by its meaning and TextEncoder by the Encoding Standard; TextDecoder is a parameter of which only the result on well-formed UTF-8 is assumed. A browser without TextEncoder and the exception of `dst.set` on a short buffer are not modelled.
- Sizes of 64-bit counters and `size_t`, except where a narrower type makes the source wrap: the 32-bit lengths, counters, IV words, bit buffer and capacities are all explicit.
- Bits 64 and up of GCM's bit lengths, which no frame reaches.
- Sockets, epoll, TLS and clocks of `connhold`: arbitrary answers. Deadlines and ping times are arbitrary choices of which slots are due. The rate budget, the memory guard and the command line are not modelled.
- `HoldRequest.BuildReq`: stream numbers stay below 2^31 and the path within 145 bytes; what a longer one does behind the end of `block` is not modelled, only when that happens (`HoldRequest.BlockFitsIffPathShort`); the HTTP/1.1 request is a fixed text and not modelled.
- `Http2Reader.Slot.Send`: a reply is accepted or refused as a whole, by its position in the output.
- `Http1Reader`: the space and digit classes are those of the C locale. The lemmas about header lines leave out a header whose very first byte is CR, which the scan takes for a line end.
- Reading PGM files and the text of the SVG: the output is a list of group and rectangle tokens.
- Floating point in the tracer and the pacer: quotients and times are exact.
- `Mosaic.Convert`: the sort is any permutation, since the picture does not depend on it.
- `Pacer.WritePaced`: one writer alone with a pacer; many writers are `Pacer.Step`.
- `normalizeOperatorRuns` and the rest of the page scripts; `totp_verify` and `totp_code_now`, which only read the clock.
- `totp_base32_encode` and `totp_base32_decode` with null pointers; the failing random generator of `totp_secret_generate`.
- `TasfaModule.Serve`: sizes have 32 bits, as in the only build there is (`Makefile:596-599`, wasm32).
- `read_all_stdin` and `write_all_stdout` of the crypto module; `wasm/tasfa_crypto_ref.c`, the same framing around a library.
- Key storage, key rotation and timing.
