# Models of the openwfd protocol code

This project models the parts of openwfd that keep protocol state or lay out bytes, and proves what
they guarantee for every input and every run.

| file | models |
|---|---|
| `Bytes.dfy`, `Bits.dfy`, `Wrappers.dfy` | bytes and byte strings; 64-bit shifts, masks and powers of two; optional values |
| `Ring.dfy` | the growing ring buffer, a class over an array that refines a sequence of bytes |
| `HeaderLine.dfy`, `SanitizedText.dfy`, `SanitizeTwice.dfy`, `ContentLength.dfy` | the in-place header sanitizer, what it writes, and when sanitizing twice differs; the Content-Length parser |
| `DecoderSpec.dfy`, `Decoder.dfy` | the RTSP stream decoder: a pure step per byte, and the class over the ring that refines it |
| `Grammar.dfy`, `RoundTrip.dfy`, `Failures.dfy` | what streams the decoder accepts, described without the decoder; writing messages and decoding them again; what failures and flushes leave behind |
| `LeaseTable.dfy`, `LeaseReplies.dfy`, `LeaseRuns.dfy`, `LeaseOrder.dfy`, `LeaseServer.dfy` | the DHCP server: its table as a value, what it answers and records, safety over whole runs, the order of the list, and the list and hash of shared lease objects that refine it |
| `Checksum.dfy`, `Frame.dfy`, `Options.dfy`, `OptionsWriting.dfy` | the DHCP wire format: checksum, raw frames, options with overload |
| `Ipv4ll.dfy`, `Ipv4llEvents.dfy`, `Ipv4llClient.dfy` | IPv4 link-local address probing, what is done about each event, and the client object that runs it |
| `LeaseTimers.dfy`, `LeaseSearch.dfy`, `LeaseEvents.dfy`, `LeaseClient.dfy` | the DHCP client's timers and its hold on a lease; its search for a server; what is done about each event; and the client object and main loop that run them |
| `Tokens.dfy`, `RtspTokenizer.dfy`, `RtspQuoting.dfy`, `WpaTokenizer.dfy`, `WpaQuoting.dfy` | the two tokenizers, their memory bounds, and quoting round trips |
| `EventLookup.dfy` | the binary search over event names that compares by prefix |

Where the source updates objects or buffers in place, a class or a loop over an array does the same, and
its contract ties each new state to a pure function of the old one (`Model()`, `Contents`, `Leases`).
The theorems are then proved about the pure functions, over all inputs and all runs. `Run`, `Runs` and
`TableAfter` are runs of any length.

## Where the code departs from what it was meant to do

The models follow the code. Each departure is a theorem, with the exact condition where there is one.

- A failed feed, or a flush, does not drop header lines already collected (src/rtsp_decoder.c:119-125).
  The next message is delivered with the stale lines in front; it is delivered as written if and only if
  there were none: `RoundTrip.DecodeAfterFlush`. Every block of canonical lines can be left behind, by a
  flush (`Failures.StaleLines`, `Failures.StaleMessage`) and by a line that fails
  (`Failures.FailedFeedKeeps`).
- A failed feed also discards the rest of its chunk (src/rtsp_decoder.c:568-583). What happens afterwards
  is what the later calls do to a flushed decoder (`DecoderSpec.AfterFailure`), so it depends on where
  the failing call ended: cutting the stream right behind the failing byte delivers other messages if and
  only if the bytes behind it begin with what the grammar reads as a message (`Failures.CutIff`,
  `Failures.DeliversIff`, `Failures.CutMatters`).
- A quote as the very first byte of a message does not open a quoted string for the decoder
  (src/rtsp_decoder.c:311-320) but does for the sanitizer. For a line the decoder finishes the two agree
  if and only if it is not a first line that starts with a quote, or some quote in it stands behind an
  odd number of backslashes: `Grammar.QuoteAgreement`, with a line of each kind in
  `Grammar.QuoteDisagreement` and `Grammar.QuoteCoincidence`.
- Sanitizing a line twice differs from sanitizing it once if and only if white-space outside quotes, then
  NULs, then white-space occur in it, and later a byte that is neither: `SanitizeTwice.SanitizeTwiceIff`,
  `SanitizeTwice.SanitizeNotIdempotent`. So it is idempotent on NUL-free input:
  `HeaderLine.SanitizeIdempotent`.
- Growing the ring when length, addition and one make exactly 2^64 reports success with too little room
  (src/shl_ring.c:60-61, 96-97): `Ring.ShlRing.Grow`.
- In an address range that ends at 255.255.255.255 the search for a free address wraps around
  (src/gdhcp/server.c:247-248). When the range is full it finds an address below it, which is then
  refused, so no expired lease is ever used again; or it never ends: `LeaseRuns.FreeAddressSearch`,
  `LeaseRuns.OfferedIff`, `LeaseRuns.SearchEndsIff`.
- OFFER_TIME is used as a point in time (src/gdhcp/server.c:560, 205-208). Another client that asks for an
  offered address is offered it too if and only if the clock has passed 300: `LeaseRuns.OfferReserves`.
  `LeaseRuns.SharedOffer` is a run in which two clients are, and the first one is refused.
- Expiry times are compared by a difference cut to 32 bits (src/gdhcp/server.c:182-188), so the lease list
  can lose its order: `LeaseOrder.InsertSortedIff` says exactly when an insertion keeps it. It is kept in
  every run in which the times in the list stay less than 2^31 seconds apart (`LeaseOrder.RunSorted`),
  and lost in the run of `LeaseOrder.OrderLost`, where a third client is then offered nothing although
  an offer has expired.
- Looking up an option never ends if and only if the file or server name field asks to be read again
  (src/gdhcp/common.c:96-126): `Options.TerminatesIff`, `Options.LoopExample`.
- A frame whose declared total length is below its headers passes the receiver's checks, if it gets them
  right, and reaches a copy of negative length (src/gdhcp/client.c:1337-1340): `Frame.UnderflowIff` says
  which frames do, `Frame.UnderflowExample` gives one for every such length, and `Frame.PayloadBound`
  bounds the copy by the size of a packet for all others.
- The conflict counter of the link-local client has eight bits. Between two claims, the restarts and the
  count of the conflict behind the first of them never make more than ten, so a tenth restart happens if
  and only if that conflict wrapped the counter around to 0: `Ipv4ll.RestartBound`, `Ipv4ll.TenRestarts`.
- A client that is restarted after a NAK begins with its count of such restarts as the number of attempts
  already made (src/gdhcp/client.c:1751-1762). Only stopping it clears that count, and both counters have
  eight bits: the k-th restart sends (10 - k) mod 256 DISCOVERs, which is ten if and only if k is a multiple
  of 256, none for the tenth, and 255 for the eleventh: `LeaseSearch.NakDiscovers`, `LeaseSearch.ElevenNaks`.
- A client whose request was given up keeps its count of attempts (src/gdhcp/client.c:1591-1596). Started
  again, it sends DISCOVERs but stays in REQUESTING, where no offer is handled
  (src/gdhcp/client.c:2722-2745). A start leads to a client that handles offers if and only if the last
  thing before it was not that a request was given up: `LeaseSearch.StartHears`; which clients are deaf,
  and how long they remain so, is in `LeaseSearch.DeafIff`, `LeaseSearch.DeafStays` and
  `LeaseSearch.DeafRestart`.
- A lease of 122 seconds or more that the server does not renew is given up three seconds after half of
  it has passed, without any attempt at rebinding, which section 4.4.5 of RFC 2131 places at seven
  eighths; a lease below 28 seconds is lost without a single request to the server:
  `LeaseTimers.LongLease`, `LeaseTimers.ShortLease`.
- A quoted `\0` escape makes the RTSP tokenizer step back over a byte it never wrote
  (src/rtsp_tokenizer.c:89-91). The result is right if and only if the line has no such escape, and the
  tokenizer writes before its buffer if and only if at some point it has stepped back over more bytes
  than it had to write: `RtspTokenizer.CorrectIff`, `RtspTokenizer.UnderflowIff`. The line of
  test/test_rtsp.c:281 is one of those in `RtspTokenizer.UnderflowExample`.
- Where char is signed, bytes from 128 on end a token of the RTSP tokenizer (src/rtsp_tokenizer.c:154).
  Signedness is a parameter of its model. It makes no difference to a line if and only if no such byte
  stands outside quotes: `RtspTokenizer.SignednessIff`, `RtspTokenizer.SignednessExample`. The round
  trips hold for both.

## Model

| member | source | states |
|---|---|---|
| `Bits.AndMask` | src/shl_ring.c:18 | masking with size - 1 is the remainder by the size when the size is a power of two |
| `Ring.SmearBits` | src/shl_ring.c:56-69 | the shift-or loop fills all bits below the highest one: its result plus one is the least power of two above the value |
| `Ring.LeastPow2IsLeast` | src/shl_ring.c:56-69 | no smaller power of two reaches the value |
| `Ring.RingPow2` | src/shl_ring.c:56-69 | the least power of two not below v in 64 bits, 4096 for 0, and 0 exactly when none fits |
| `Ring.GrownSize` | src/shl_ring.c:94-100 | the size asked for after 64-bit wrap-around: the least sufficient power of two, 4096 when the need is exactly 2^64, else not above the old size |
| `Ring.ShlRing.Length` | src/shl_ring.h:34-42 | the length stays below the size and is 0 exactly when start equals end |
| `Ring.ShlRing.MaskWraps` | src/shl_ring.c:18 | masking an index up to the size only wraps the size itself to 0 |
| `Ring.ShlRing.Resize` | src/shl_ring.c:24-53 | the contents survive the copy into the new buffer, wrapped or not |
| `Ring.ShlRing.Grow` | src/shl_ring.c:76-103 | exactly when growing succeeds; success leaves more than `add` free bytes if and only if the need is not exactly 2^64; failure, and room enough, change nothing |
| `Ring.ShlRing.Push` | src/shl_ring.c:109-137 | appends the bytes to the contents or fails without changing them, exactly when the limit of an object is passed |
| `Ring.ShlRing.Peek` | src/shl_ring.c:151-170 | at most two vectors, none empty, lie inside the buffer and concatenate to the contents |
| `Ring.ShlRing.Pull` | src/shl_ring.c:176-197 | drops the smaller of len and the length from the front |
| `Ring.ShlRing.Flush` | src/shl_ring.c:199-203 | empties the ring |
| `Ring.ShlRing.Copy` | src/shl_ring.c:211-252 | a fresh NUL-terminated copy of the prefix |
| `Ring.CopyVec` | src/shl_ring.c:225-252 | copying out of the vectors gives the bytes they hold in order |
| `HeaderLine.RewriteLine` | src/rtsp_decoder.c:189-237 | the in-place loop never overtakes its reader and leaves the sanitized bytes |
| `HeaderLine.TrimLine` | src/rtsp_decoder.c:239-246 | trailing spaces are cut off and the rest is NUL-terminated |
| `HeaderLine.SanitizeHeaderLine` | src/rtsp_decoder.c:182-247 | the buffer holds the sanitized line, terminated, and its length is returned |
| `HeaderLine.SanQuoting` | src/rtsp_decoder.c:195-237 | the output has the same quoting state as the input, byte by byte |
| `HeaderLine.SanBreaksQuoted` | src/rtsp_decoder.c:195-237 | a line break or tab that survives sanitizing lies inside quotes |
| `HeaderLine.SanitizedShape` | src/rtsp_decoder.c:182-247 | a sanitized line is NUL-free, has no trailing space, and breaks only inside quotes |
| `HeaderLine.SanTwice` | src/rtsp_decoder.c:195-237 | scanning the scanned text of a NUL-free line changes nothing |
| `HeaderLine.SanitizeIdempotent` | src/rtsp_decoder.c:182-247 | sanitizing is idempotent on NUL-free input |
| `SanitizeTwice.GapShrinks` | src/rtsp_decoder.c:195-237 | a second scan drops bytes if white-space was parted by NULs outside quotes, and else keeps all |
| `SanitizeTwice.SanitizeTwiceIff` | src/rtsp_decoder.c:182-247 | exactly the lines that sanitizing twice changes again: white-space outside quotes, NULs, white-space, and later a byte that is neither |
| `SanitizeTwice.SanitizeNotIdempotent` | src/rtsp_decoder.c:182-247 | such a line |
| `HeaderLine.SanitizeKeepsContent` | src/rtsp_decoder.c:182-247 | sanitizing a NUL-free line only touches white-space: every other byte is kept, in order |
| `SanitizedText.SanitizedBytes` | src/rtsp_decoder.c:182-247 | a sanitized line is, byte by byte: what stands in quotes, with protected NULs as 0 and other NULs dropped; outside quotes every byte that is no white-space, and one space for white-space that follows none; without the spaces at the end |
| `SanitizedText.QuotesByCounting` | src/rtsp_decoder.c:203-232 | a position is inside quotes if and only if an odd number of quotes that no backslash protects stand before it |
| `ContentLength.ContentLengthParses` | src/rtsp_decoder.c:249-267 | the name in any spelling, a space, and the decimal digits of any size_t declare that number |
| `ContentLength.OtherLines` | src/rtsp_decoder.c:249-267 | a line that begins with no spelling of the name leaves the declared length alone |
| `ContentLength.NumeralRead` | src/rtsp_decoder.c:255-258 | white-space, a sign if any, and digits are read as a whole, cut to 64 bits as strtoul does |
| `ContentLength.NumeralsOnly` | src/rtsp_decoder.c:255-258 | nothing else is read as a whole |
| `ContentLength.NumeralDeclares` | src/rtsp_decoder.c:255-264 | a numeral behind the name declares its number, unless another length than 0 or the same was declared before |
| `ContentLength.OthersRefused` | src/rtsp_decoder.c:255-258 | the name with anything else behind it, or with nothing, is an error |
| `ContentLength.LeadingZeros` | src/rtsp_decoder.c:256 | leading zeros do not count |
| `ContentLength.ContentLengthCanonical` | src/rtsp_decoder.c:182-267 | sanitizing leaves a written Content-Length line as it is |
| `DecoderSpec.RunAppend` | src/rtsp_decoder.c:556-585 | decoding two pieces one after the other is decoding them joined, up to the first failure |
| `DecoderSpec.RunPending` | src/rtsp_decoder.c:531-585 | the pending bytes never outgrow what was fed |
| `DecoderSpec.ChunkIndependence` | src/rtsp_decoder.c:556-585 | any way of cutting a stream into feed calls that each fit the ring gives the messages, the state and the error of one call |
| `DecoderSpec.AnyTwoChunkings` | src/rtsp_decoder.c:556-585 | two ways of cutting the same stream cannot be told apart |
| `DecoderSpec.StreamFits` | src/rtsp_decoder.c:556-566 | a stream that fits as a whole fits in every chunking |
| `DecoderSpec.AfterFailure` | src/rtsp_decoder.c:556-585 | the first failing call is the one with the failing byte; the rest of its chunk is lost, and the later calls go on from a flushed decoder |
| `Decoder.RtspMsg.Grow` | src/rtsp_decoder.c:147-172 | doubling the header arrays keeps the lines and their terminators |
| `Decoder.RtspMsg.Push` | src/rtsp_decoder.c:147-180 | appends one line; two slots stay free and the array NULL-terminated, also across doublings |
| `Decoder.RtspMsg.Reset` | src/rtsp_decoder.c:127-145 | forgets lines and body |
| `Decoder.RtspDecoder.MsgDone` | src/rtsp_decoder.c:127-145 | delivers the collected message once and forgets it |
| `Decoder.RtspDecoder.Flush` | src/rtsp_decoder.c:119-125 | forgets the ring and the state but not the collected lines |
| `Decoder.RtspDecoder.ParseHeaderLine` | src/rtsp_decoder.c:249-267 | sets the body size a Content-Length line gives, or fails and keeps it |
| `Decoder.RtspDecoder.TakeLine` | src/rtsp_decoder.c:269-285 | copies the pending line out of the ring, pulls it, and sanitizes the copy |
| `Decoder.RtspDecoder.FinishHeaderLine` | src/rtsp_decoder.c:269-296 | one line finished: ring, lines and body size follow the specification |
| `Decoder.RtspDecoder.FeedCharNew` | src/rtsp_decoder.c:298-324 | one byte between messages follows the specification, with `rlen` matching the ring |
| `Decoder.RtspDecoder.FeedCharHeader` | src/rtsp_decoder.c:326-437 | one byte of a header line follows the specification, with `rlen` matching the ring |
| `Decoder.RtspDecoder.FeedCharHeaderQuote` | src/rtsp_decoder.c:439-462 | one byte of a quoted string follows the specification, with `rlen` matching the ring |
| `Decoder.RtspDecoder.FeedCharBody` | src/rtsp_decoder.c:464-498 | one byte of a body follows the specification; the body delivered is the declared bytes |
| `Decoder.RtspDecoder.BodyDone` | src/rtsp_decoder.c:480-495 | the bytes of the body are copied out of the ring, delivered with the lines, and pulled |
| `Decoder.RtspDecoder.FeedCharHeaderNl` | src/rtsp_decoder.c:500-529 | one byte behind a CR blank line follows the specification |
| `Decoder.RtspDecoder.FeedChar` | src/rtsp_decoder.c:531-554 | the dispatch on the state follows the specification |
| `Decoder.RtspDecoder.FeedAll` | src/rtsp_decoder.c:568-583 | the loop over the fed bytes is the run of the specification, and stops at the first failure |
| `Decoder.RtspDecoder.Feed` | src/rtsp_decoder.c:556-585 | one feed call: return code, decoder state and delivered messages are those of the specification, while the ring grows and wraps underneath |
| `Grammar.StepConserves` | src/rtsp_decoder.c:298-554 | every byte goes into a completed piece or stays pending: none is lost, repeated or invented |
| `Grammar.StepSound` | src/rtsp_decoder.c:298-554 | the pieces a byte completes are accepted by the grammar and mean the messages the decoder delivers |
| `Grammar.RunSound` | src/rtsp_decoder.c:298-585 | on a run without failure the stream is the completed pieces followed by the pending bytes, the grammar accepts the pieces, and their meaning is what was delivered; the pending bytes are white-space, the start of one line, one CR, or a body whose rest makes up the declared length |
| `Grammar.PieceComplete` | src/rtsp_decoder.c:298-554 | from any state of rest the decoder accepts every piece the grammar accepts, with the same meaning |
| `Grammar.RunComplete` | src/rtsp_decoder.c:298-585 | every stream the grammar accepts is decoded without failure into the messages it means |
| `Grammar.Unambiguous` | src/rtsp_decoder.c:298-585 | a stream has only one meaning, however it is cut into pieces |
| `Grammar.QuoteAgreement` | src/rtsp_decoder.c:182-247 | a line the decoder finishes leaves the sanitizer outside quotes if and only if it is not a first line that starts with a quote, or some quote in it stands behind an odd number of backslashes |
| `Grammar.QuoteDisagreement` | src/rtsp_decoder.c:311-320 | a first line on which decoder and sanitizer disagree |
| `Grammar.QuoteCoincidence` | src/rtsp_decoder.c:311-320 | a first line that starts with a quote on which they agree |
| `RoundTrip.SanitizeEol` | src/rtsp_decoder.c:182-247 | a canonical line with any line break behind it is sanitized to the line |
| `RoundTrip.WrittenIsLine` | src/rtsp_decoder.c:326-462 | a canonical line with its line break is one logical line to the decoder |
| `RoundTrip.AcceptWire` | src/rtsp_decoder.c:127-145 | a written message is read as one message: its lines, and exactly Content-Length bytes of body |
| `RoundTrip.DecodeWritten` | src/rtsp_decoder.c:556-585 | any list of canonical messages, written with any line breaks and fed in any chunks, is delivered exactly and in order |
| `RoundTrip.DecodeAfterFlush` | src/rtsp_decoder.c:119-125 | after a flush the next message carries the stale lines; it is as written if and only if there were none |
| `RoundTrip.CanonicalExample` | src/rtsp_decoder.c:182-267 | any plain request line with a Content-Length line, in any spelling, and a body is canonical |
| `Failures.StaleLines` | src/rtsp_decoder.c:147-180 | after any canonical lines and one byte more, the decoder has collected exactly those lines |
| `Failures.StaleMessage` | src/rtsp_decoder.c:119-125 | a flush there puts them in front of the next message, which is not delivered as written |
| `Failures.StaleExample` | src/rtsp_decoder.c:119-125 | the bytes A, CR, LF, B leave the line A |
| `Failures.FailedFeedKeeps` | src/rtsp_decoder.c:568-583 | a line the parser refuses fails the feed, and the lines before it stay |
| `Failures.LinesBefore` | src/rtsp_decoder.c:147-180 | header lines left behind make no difference to what is accepted, nor to how many messages it is |
| `Failures.DeliversIff` | src/rtsp_decoder.c:119-125 | a flushed decoder delivers something from the bytes, however they go on, if and only if the grammar reads a message at the beginning of them |
| `Failures.CutIff` | src/rtsp_decoder.c:568-583 | ending a call right behind a failing byte makes a difference to the messages if and only if the grammar reads a message at the beginning of the bytes behind it |
| `Failures.CutMatters` | src/rtsp_decoder.c:568-583 | behind a broken line, any canonical message is delivered from a call of its own and lost from the failing one |
| `Failures.DeliveredShape` | src/rtsp_decoder.c:119-285 | over any sequence of feeds, failures and flushes, the lines of every message delivered are NUL-free, without a trailing space, and break only inside quotes |
| `Failures.RefusedFeed` | src/rtsp_decoder.c:556-566 | a feed call of more than 2^63 - 1 bytes with the pending ones is refused and leaves no trace |
| `LeaseTable.LookupsAgree` | src/gdhcp/server.c:94-107 | what is found by client is found by its address as well |
| `LeaseTable.PutByMac` | src/gdhcp/server.c:190-217 | adding a lease replaces those of the same client and the same address and no other |
| `LeaseTable.PutConsistent` | src/gdhcp/server.c:120-217 | adding a lease keeps clients and addresses unique and in range |
| `LeaseTable.StepConsistent` | src/gdhcp/server.c:642-743 | every packet leaves no client and no address twice, and every address in range |
| `LeaseRuns.FreeAddressSearch` | src/gdhcp/server.c:241-281 | the least usable free address; failing that an expired one of least expiry, and 0 exactly when nothing has expired; or, in a range up to the last address, the least free one below the range |
| `LeaseRuns.SearchEndsIff` | src/gdhcp/server.c:247-262 | the search goes on for ever if and only if the range is the whole address space and every usable address is leased |
| `LeaseRuns.OfferedIff` | src/gdhcp/server.c:535-576 | a client without a lease that asks for nothing it may have is offered an address if and only if one is free, or some lease has expired and the range ends below the last address |
| `LeaseReplies.Ignored` | src/gdhcp/server.c:661-671 | packets of other operations, lengths or types, and those for other servers, change nothing and are not answered |
| `LeaseReplies.DiscoverOwn` | src/gdhcp/server.c:535-546 | a client that has a lease is offered its address, whatever it asks for |
| `LeaseReplies.DiscoverRequested` | src/gdhcp/server.c:547-548 | a client without one is offered the address it asks for if that is in the range and leased by nobody, or has expired |
| `LeaseReplies.DiscoverFree` | src/gdhcp/server.c:241-262 | else it is offered the first address of the range that does not end in 0 or 255 and is leased by nobody |
| `LeaseReplies.DiscoverExpired` | src/gdhcp/server.c:264-281 | else, in a range below the last address, the address of a lease that has expired no later than any other, or nothing if none has |
| `LeaseReplies.OfferRecords` | src/gdhcp/server.c:190-217 | an offer is recorded until 300, in place of what the address and the client had; without an offer nothing changes |
| `LeaseReplies.RequestAnswered` | src/gdhcp/server.c:685-706 | exactly which REQUESTs are acknowledged, refused or ignored |
| `LeaseReplies.OnlyRequests` | src/gdhcp/server.c:642-743 | each kind of reply answers one type of message only |
| `LeaseReplies.RequestRecords` | src/gdhcp/server.c:592-615 | an acknowledgement gives the client its full time and touches no other; any other REQUEST changes nothing |
| `LeaseReplies.DeclineEnds` | src/gdhcp/server.c:707-722 | a DECLINE of the own address at this server ends the lease and touches no other; any other changes nothing; none is answered |
| `LeaseReplies.ReleaseExpires` | src/gdhcp/server.c:723-735 | a RELEASE of the own address makes the lease expire now, in 32 bits, and touches no other; any other changes nothing; none is answered |
| `LeaseReplies.InformAnswered` | src/gdhcp/server.c:736-739 | an INFORM is answered and changes nothing |
| `LeaseReplies.TableRead` | src/gdhcp/server.c:120-217 | in every run no client and no address is leased twice, every address is in the range, every client has an ordinary hardware address, and both lookups find every lease |
| `LeaseRuns.OfferSparesOthers` | src/gdhcp/server.c:488-576 | the address offered to a client is never one another client holds unexpired |
| `LeaseRuns.OthersCannotTouch` | src/gdhcp/server.c:642-743 | no packet of another client changes an unexpired lease |
| `LeaseRuns.OwnerKeeps` | src/gdhcp/server.c:642-743 | a client that sends no DISCOVER, DECLINE or RELEASE keeps its lease, the same or extended |
| `LeaseRuns.AckRecords` | src/gdhcp/server.c:592-615 | an ACK confirms the address the client already has in the table, and records the full lease time |
| `LeaseRuns.RunConsistent` | src/gdhcp/server.c:642-743 | the table is consistent after every run |
| `LeaseRuns.LeaseStands` | src/gdhcp/server.c:592-743 | an acknowledged lease stands, for its time, until its owner relinquishes it, whatever others send |
| `LeaseRuns.AckSafety` | src/gdhcp/server.c:592-743 | two ACKs of one address to two clients are separated by expiry or by a DISCOVER, DECLINE or RELEASE of the first client |
| `LeaseRuns.OfferReserves` | src/gdhcp/server.c:535-576 | another client without a lease that asks for an offered address is offered it as well if and only if the time is past 300 |
| `LeaseRuns.SharedOffer` | src/gdhcp/server.c:535-743 | a run in which two clients are offered one address and the first is refused |
| `LeaseOrder.CloseIff` | src/gdhcp/server.c:182-188 | expiry times lie in a window of 2^31 seconds if and only if all their differences are smaller |
| `LeaseOrder.InsertSortedIff` | src/gdhcp/server.c:182-217 | exactly when inserting into a sorted list leaves it sorted, by the differences of expiry times |
| `LeaseOrder.PutSorted` | src/gdhcp/server.c:190-217 | adding a lease keeps the list sorted when the times it leaves lie in one window |
| `LeaseOrder.StepSorted` | src/gdhcp/server.c:642-743 | every packet that leaves times in one window leaves the list sorted, whatever the clock |
| `LeaseOrder.RunSorted` | src/gdhcp/server.c:642-743 | in every run the list is sorted as long as its times have been less than 2^31 seconds apart |
| `LeaseOrder.RunClose` | src/gdhcp/server.c:642-743 | that is so from an empty table while clock plus lease time stay below 2^31 |
| `LeaseOrder.OrderLost` | src/gdhcp/server.c:241-281 | a run of three packets that leaves the list unsorted, after which an expired address is not found |
| `LeaseServer.HashDrop` | src/gdhcp/server.c:109-117 | removing one object from the list is removing one key from the hash |
| `LeaseServer.HashSplice` | src/gdhcp/server.c:190-217 | inserting one object into the list is adding one key to the hash |
| `LeaseServer.InsertAt` | src/gdhcp/server.c:182-217 | the insertion point of the sorted list insertion is that of the table |
| `LeaseServer.DhcpServer.FindLeaseByMac` | src/gdhcp/server.c:94-107 | the search loop finds the object of the client, or there is none |
| `LeaseServer.DhcpServer.FindLeaseByNip` | src/gdhcp/server.c:219-224 | the hash finds the object of the address, or there is none in the list |
| `LeaseServer.DhcpServer.RemoveLease` | src/gdhcp/server.c:109-117 | list and hash lose the object together |
| `LeaseServer.DhcpServer.GetLease` | src/gdhcp/server.c:120-180 | fails exactly for addresses and clients that cannot be leased; else what client and address had is gone, and an object outside list and hash is returned |
| `LeaseServer.DhcpServer.AddLease` | src/gdhcp/server.c:190-217 | list and hash hold the new lease in place of those it replaces, or are unchanged |
| `LeaseServer.DhcpServer.LeaseSetExpire` | src/gdhcp/server.c:283-292 | the object is moved to where its new expiry belongs; the hash need not change |
| `LeaseServer.DhcpServer.FindFreeOrExpiredNip` | src/gdhcp/server.c:241-281 | the search loop, with its counter that wraps around, computes the function that the theorems are about, wherever it ends |
| `LeaseServer.DhcpServer.CheckRequestedNip` | src/gdhcp/server.c:488-510 | true exactly when the client may have the address it asks for |
| `LeaseServer.DhcpServer.SendOffer` | src/gdhcp/server.c:535-576 | table and reply are those of the specification's DISCOVER step |
| `LeaseServer.DhcpServer.SendAck` | src/gdhcp/server.c:592-615 | the lease is recorded for the configured time and acknowledged |
| `LeaseServer.DhcpServer.ListenerEvent` | src/gdhcp/server.c:642-743 | for every packet the list, the hash and the reply are those of the specification |
| `Checksum.DhcpChecksum` | src/gdhcp/common.c:436-464 | the loops add the words, and a last odd byte, and fold the sum |
| `Checksum.FoldQuotient` | src/gdhcp/common.c:457-463 | folding keeps the sum modulo 65535 and ends |
| `Checksum.FoldResidue` | src/gdhcp/common.c:457-463 | folding gives the one residue in 1..65535 |
| `Checksum.SwapFold` | src/gdhcp/common.c:436-464 | summing in the other byte order swaps the bytes of the folded sum |
| `Checksum.ByteOrderIndependence` | src/gdhcp/common.c:436-464 | both byte orders store the same two bytes, for every buffer, odd lengths included (section 2 of RFC 1071) |
| `Checksum.SumUpdate` | src/gdhcp/common.c:436-464 | storing a word over zeros at an even offset adds that word to the sum |
| `Checksum.Verifies` | src/gdhcp/common.c:436-464 | a buffer with its checksum stored in a zeroed aligned word checks to 0 |
| `Checksum.NetworkChecksum` | src/gdhcp/common.c:436-464 | the two bytes stored make, with the 16-bit words of the buffer in network order, a multiple of 65535; 0xffff is the checksum of zeros only |
| `Checksum.OneByteShows` | src/gdhcp/common.c:436-464 | damage to any one byte changes the checksum |
| `Frame.FillPseudo` | src/gdhcp/common.c:560-582 | the frame before its checksums: pseudo-header, ports, length and payload in their places |
| `Frame.SealUdp` | src/gdhcp/common.c:583 | the UDP checksum, over the buffer as it stands |
| `Frame.SealIp` | src/gdhcp/common.c:584-589 | the IP header proper and its checksum, with nothing else changed |
| `Frame.BuildFrame` | src/gdhcp/common.c:549-597 | the frame put on the wire: header fields, both checksums and the payload, cut to 576 bytes |
| `Frame.MakePseudo` | src/gdhcp/client.c:1330-1335 | rebuilding the pseudo-header in place gives the bytes the sender summed |
| `Frame.IpChecked` | src/gdhcp/client.c:1325-1328 | the IP checksum test, which clears the checksum field |
| `Frame.UdpChecked` | src/gdhcp/client.c:1330-1337 | the UDP checksum test over the declared length, on the rebuilt pseudo-header |
| `Frame.RecvL2Packet` | src/gdhcp/client.c:1280-1346 | the receiver's checks and the payload it hands over |
| `Frame.PayloadBound` | src/gdhcp/client.c:1312-1345 | a payload is what follows the headers up to the declared length, and never more than a packet holds |
| `Frame.PayloadIff` | src/gdhcp/client.c:1280-1345 | exactly which frames hand over a payload: length, version, protocol, port, both checksums and the cookie |
| `Frame.DamageRejected` | src/gdhcp/client.c:1330-1337 | of any frame with a UDP checksum that hands over a payload, damage to any one byte of the payload is rejected |
| `Frame.UnderflowIff` | src/gdhcp/client.c:1280-1340 | exactly which frames reach a copy of negative length |
| `Frame.UnderflowExample` | src/gdhcp/client.c:1280-1340 | such a frame exists for every declared length below 28 and any addresses |
| `Frame.FrameRoundTrip` | src/gdhcp/common.c:549-589 | every frame sent to the client port with the DHCP magic is accepted, with anything behind it and by a host of either byte order, and yields the payload sent |
| `Options.WalkItems` | src/gdhcp/common.c:74-132 | walking a well-formed field finds the first option with the code and gathers the overload bits |
| `Options.NeverDone` | src/gdhcp/common.c:96-126 | where the loop condition holds no number of fields looked at is enough |
| `Options.DoneInFour` | src/gdhcp/common.c:74-132 | everywhere else at most four fields are looked at |
| `Options.TerminatesIff` | src/gdhcp/common.c:74-132 | the lookup ends if and only if the loop condition does not hold |
| `Options.LoopExample` | src/gdhcp/common.c:96-126 | options and file fields that both ask for the file field send every lookup round for ever |
| `Options.GetOption` | src/gdhcp/common.c:74-132 | the pointer walk finds what the sequence of fields says |
| `Options.LookupFirstMatch` | src/gdhcp/common.c:74-132 | with overload only in the options field and all fields ended, the result is the first match in options, then file, then server name |
| `OptionsWriting.FieldWalk` | src/gdhcp/common.c:74-132 | a field written from options and padding, ended or cut short, leads the walk to the first match, to the end with its overload bits, or to nothing |
| `OptionsWriting.LookupWritten` | src/gdhcp/common.c:74-132 | a lookup in written fields ends and finds the value: from options, else from the fields that an overload option asks for, file before server name |
| `Options.EndOption` | src/gdhcp/common.c:134-146 | the loop finds the END of the first well-formed run |
| `Options.AddBinaryOption` | src/gdhcp/common.c:231-247 | writes the option over END and a new END behind it, or changes nothing when it does not fit |
| `Options.AddItemsFrom` | src/gdhcp/common.c:231-247 | an added option appears behind all others and moves END |
| `Options.AddAppends` | src/gdhcp/common.c:231-247 | an option that fits is appended to the list if and only if its code is neither padding nor END |
| `OptionsWriting.AddedIff` | src/gdhcp/common.c:231-247 | an option is added if and only if END stays at 306 or below, else the field is left as it is |
| `Options.AddAllItems` | src/gdhcp/common.c:231-247 | after any sequence of additions END stays below 308 and the list grows by exactly those accepted |
| `Options.LookupAdded` | src/gdhcp/common.c:74-247 | looking up any code then gives the first accepted value for it |
| `Ipv4ll.StepInv` | src/gdhcp/client.c:524-596 | every event keeps the invariant: at most one live timer, the phase it stands for, the count of restarts, and who owns the address |
| `Ipv4ll.ReachableInv` | src/gdhcp/client.c:524-596 | in every run at most one timer is live |
| `Ipv4ll.ClaimSafety` | src/gdhcp/client.c:2578-2625 | in every run an address is claimed only after exactly three probes and two announcements of it since the last start or restart, with no conflict handled in between |
| `Ipv4ll.OwnershipSafety` | src/gdhcp/client.c:1398-1469 | in every run an address is monitored or defended exactly while it is owned: claimed, and neither lost, stopped nor given up since |
| `Ipv4ll.LostAfterDefence` | src/gdhcp/client.c:1427-1446 | in every run an owned address is given up exactly by a new start, by stopping the client, or by a sender conflict while defending, when exactly one defending announcement was sent |
| `Ipv4ll.MonitorEntry` | src/gdhcp/client.c:2566-2603 | in every run MONITOR is entered only by claiming the address probed or back from defending the address owned, and with the conflict counter at 0 |
| `Ipv4ll.RestartBound` | src/gdhcp/client.c:1425-1466 | between two claims restarts and first conflict count make at most ten; while an address is sought the restarts are known from the counter, and there are ten if and only if the first came at 0 and the counter stands at 9 |
| `Ipv4ll.TenRestarts` | src/gdhcp/client.c:1425-1466 | a run with ten restarts exists |
| `Ipv4ll.ConflictRestarts` | src/gdhcp/client.c:1377-1469 | in every run a conflict while probing or announcing gives the address up; it is a failure exactly when restarts and first conflict count make ten, or without restarts when the counter does |
| `Ipv4llEvents.Elsewhere` | src/gdhcp/client.c:1415-1423 | an ARP packet that does not name the address is ignored |
| `Ipv4llEvents.MonitorDefends` | src/gdhcp/client.c:1429-1437 | in every run, somebody else who sends from a monitored address is answered with one announcement, and the address is defended |
| `Ipv4llEvents.QueryCounted` | src/gdhcp/client.c:1425-1442 | in every run, a query for a monitored or defended address is counted and not answered |
| `Ipv4llEvents.GivesUp` | src/gdhcp/client.c:1439-1469 | in every run, any other conflict gives the address up: the search starts over up to the ninth counted, and fails from the tenth on |
| `Ipv4llEvents.TimerActs` | src/gdhcp/client.c:2566-2625 | in every run, a timer does the next of three probes, two announcements and the claim, or ends a defence |
| `Ipv4llEvents.StartSeeks` | src/gdhcp/client.c:1348-1375 | in every run, a start drops everything and seeks the address picked |
| `Ipv4llEvents.StopEnds` | src/gdhcp/client.c:2764-2792 | in every run, a stop leaves no timer and no address |
| `Ipv4llEvents.UndisturbedClaim` | src/gdhcp/client.c:524-596 | from every reachable state, a start followed by nothing but timers claims the address |
| `Ipv4llClient.DhcpClient.SendProbePacket` | src/gdhcp/client.c:524-557 | on the object: one probe for the address, picked first if there is none, listening from the first probe on, and the next timer (the function the claim theorems are about) |
| `Ipv4llClient.DhcpClient.SendAnnouncePacket` | src/gdhcp/client.c:563-596 | on the object: one announcement, the old timer removed, and the timer of the state armed |
| `Ipv4llClient.DhcpClient.Start` | src/gdhcp/client.c:1348-1375 | on the object: a new address, the old timer removed, and the first probe scheduled |
| `Ipv4llClient.DhcpClient.RecvArpPacket` | src/gdhcp/client.c:1398-1469 | on the object: counting, defending, losing, restarting and failing, for each state and kind of conflict, as the theorems assume |
| `Ipv4llClient.DhcpClient.ProbeTimeout` | src/gdhcp/client.c:2605-2625 | on the object: the next probe, or after the third the first announcement |
| `Ipv4llClient.DhcpClient.AnnounceTimeout` | src/gdhcp/client.c:2578-2603 | on the object: the second announcement, or the claim |
| `Ipv4llClient.DhcpClient.Stop` | src/gdhcp/client.c:2764-2792 | on the object: no timer and no listening is left |
| `Ipv4llClient.DhcpClient.Dispatch` | src/gdhcp/client.c:2209-2258 | every event of the main loop is one step of the specification and keeps its invariant |
| `LeaseTimers.GetLease` | src/gdhcp/client.c:1612-1628 | the lease lies in [10, 0x0fffffff], and is the option itself when that does |
| `LeaseTimers.FireInv` | src/gdhcp/client.c:1647-1749 | time passed plus time believed left stay within the lease at every halving timer |
| `LeaseTimers.StepInv` | src/gdhcp/client.c:1498-1762 | every timer, packet, start and stop keeps the invariant of states, attempts and lease time |
| `LeaseTimers.FireLog` | src/gdhcp/client.c:1647-1749 | a timer either asks the server and halves the lease or reports in time and stops |
| `LeaseTimers.SilenceReports` | src/gdhcp/client.c:1647-1749 | from any watched state a silent server leads to requests, then exactly one report within the lease, and to a new discovery if the lease was lost |
| `LeaseTimers.LeaseExpiryBound` | src/gdhcp/client.c:1647-1749 | in every run a bound client that hears nothing more reports lease-lost or no-lease no later than its last lease lasts |
| `LeaseTimers.LongLease` | src/gdhcp/client.c:1693-1749 | a lease of 122 seconds or more: one renewal at half, no-lease three seconds later, no rebinding |
| `LeaseTimers.ShortLease` | src/gdhcp/client.c:1647-1691 | a lease below 28 seconds is lost at three quarters without a request; from 28 to 121 the first request is a rebinding one |
| `LeaseEvents.RebindSchedule` | src/gdhcp/client.c:1647-1691 | the requests of a rebinding client, each after half of what is left, down to the loss of the lease |
| `LeaseEvents.LeaseSchedule` | src/gdhcp/client.c:1647-1749 | everything a client does with a lease of any length that is never renewed |
| `LeaseEvents.OfferTaken` | src/gdhcp/client.c:2314-2330 | an offer is followed by a request for the address it names |
| `LeaseEvents.AckBinds` | src/gdhcp/client.c:2334-2355 | an acknowledgement binds the client for the lease cut to 28 bits and at least ten seconds, an hour by default |
| `LeaseEvents.NakWaits` | src/gdhcp/client.c:2356-2366 | a refusal is followed by a restart after three seconds |
| `LeaseEvents.RestartForgets` | src/gdhcp/client.c:1630-1645 | a restart begins without an address |
| `LeaseEvents.BeginSearches` | src/gdhcp/client.c:2722-2761 | in every run, a start sends a DISCOVER and repeats it in three seconds |
| `LeaseEvents.EndStops` | src/gdhcp/client.c:2764-2792 | a stop releases the address if a lease is held, and nothing but a start can follow |
| `LeaseEvents.NamesTheOffer` | src/gdhcp/client.c:440-511 | in every run, each request, renewal, rebinding and release names the address of the last offer handled |
| `LeaseEvents.AlwaysListens` | src/gdhcp/client.c:1521-1584 | in every run, which socket is open, by the state |
| `LeaseSearch.SearchInv` | src/gdhcp/client.c:1751-1762 | every run keeps the 8-bit count of restarts after a NAK, what was sent last, and the count of attempts that a request given up leaves |
| `LeaseSearch.DiscoveryFails` | src/gdhcp/client.c:2547-2563 | without a server, DISCOVER is sent every three seconds until the 8-bit count of attempts reaches ten, and then no-lease is reported |
| `LeaseSearch.NakDiscovers` | src/gdhcp/client.c:1630-1762 | in every run, the k-th restart after a NAK since the last stop sends (10 - k) mod 256 DISCOVERs, ten if and only if k is a multiple of 256, and then reports no-lease |
| `LeaseSearch.NakRun` | src/gdhcp/client.c:2356-2366 | any number of such restarts happens in some run |
| `LeaseSearch.ElevenNaks` | src/gdhcp/client.c:1751-1762 | a run in which the eleventh sends 255 |
| `LeaseSearch.RequestFails` | src/gdhcp/client.c:1498-1610 | an unanswered request is sent every three seconds, five times in all, and then no-lease is reported |
| `LeaseSearch.StartHears` | src/gdhcp/client.c:2722-2745 | in every run, a started client handles an offer in time if and only if its count of attempts was not five, which it is exactly when a request was given up last |
| `LeaseSearch.DeafIff` | src/gdhcp/client.c:2314-2330 | in every run, a client waiting for offers does not handle them if and only if it is in REQUESTING with five to nine attempts |
| `LeaseSearch.DeafStays` | src/gdhcp/client.c:2722-2745 | in every run, such a client stays so exactly while its timer fires, until it reports no-lease, is answered or is stopped |
| `LeaseSearch.DeafRestart` | src/gdhcp/client.c:2722-2745 | started again after giving up a request, the client sends five DISCOVERs without handling offers, and reports no-lease a second time |
| `LeaseClient.DhcpClient.AddTimer` | src/gdhcp/client.c:2754-2758 | on the object and its main loop: a timer set when none is pending is the only one |
| `LeaseClient.DhcpClient.DropTimer` | src/gdhcp/client.c:1634-1637 | on the main loop: no timer is left |
| `LeaseClient.DhcpClient.Start` | src/gdhcp/client.c:2722-2761 | on the object: the tenth failure reported, or a DISCOVER and its timer |
| `LeaseClient.DhcpClient.StartRequest` | src/gdhcp/client.c:1586-1610 | on the object: the fifth failure reported, or a request and its timer |
| `LeaseClient.DhcpClient.RecvOffer` | src/gdhcp/client.c:2314-2330 | on the object: the offered address taken up and requested |
| `LeaseClient.DhcpClient.RestartDhcp` | src/gdhcp/client.c:1630-1645 | on the object: timer and address cleared, the attempts set to a given number, and discovery begun |
| `LeaseClient.DhcpClient.RestartDhcpTimeout` | src/gdhcp/client.c:1751-1762 | on the object: one NAK more in eight bits, and a restart with that many attempts |
| `LeaseClient.DhcpClient.RecvNak` | src/gdhcp/client.c:2356-2367 | on the object: attempts cleared, and a restart in three seconds |
| `LeaseClient.DhcpClient.StartBound` | src/gdhcp/client.c:1736-1749 | on the object: the renewal timer at half the lease |
| `LeaseClient.DhcpClient.StartRenewTimeout` | src/gdhcp/client.c:1706-1734 | on the object: halve, then renew and wait, or begin rebinding when 60 seconds or less are left |
| `LeaseClient.DhcpClient.StartReboundTimeout` | src/gdhcp/client.c:1647-1678 | on the object: halve, then ask again, or, when 6 seconds or less are left, lose the lease and begin discovery |
| `LeaseClient.DhcpClient.RecvAck` | src/gdhcp/client.c:2334-2355 | on the object: the pending timer dropped, the new lease clamped, and the clock of the lease started anew |
| `LeaseClient.DhcpClient.Stop` | src/gdhcp/client.c:2764-2792 | on the object: the lease released if there is one, and timer, counts and address cleared |
| `LeaseClient.DhcpClient.Fire` | src/gdhcp/client.c:1498-1762 | any timer of the main loop that fires does what the specification says of the only one pending |
| `LeaseClient.DhcpClient.Dispatch` | src/gdhcp/client.c:1498-1762 | every timer, packet, start and stop is one step of the specification, keeps its invariant, and leaves at most one timer in the main loop |
| `Tokens.ReadJoined` | src/wpa_parser.c:237-263 | walking by string length plus one over a token buffer gives back the tokens |
| `RtspTokenizer.StepRelated` | src/rtsp_tokenizer.c:62-165 | each byte keeps what is written equal to the tokens due, but for the bytes taken back by escapes |
| `RtspTokenizer.CorrectIff` | src/rtsp_tokenizer.c:34-176 | buffer and count are the tokens of the line if and only if no quoted `\0` escape occurs |
| `RtspTokenizer.WritesBound` | src/rtsp_tokenizer.c:41-51 | no line at all makes it write more than twice its length |
| `RtspTokenizer.UnderflowIff` | src/rtsp_tokenizer.c:89-91 | it writes before its buffer if and only if more escapes were dropped than bytes were due at some point |
| `RtspTokenizer.UnderflowExample` | src/rtsp_tokenizer.c:89-91 | every line that starts with a quoted `\0` is an example |
| `RtspTokenizer.TokensReadBack` | src/rtsp_tokenizer.c:34-176 | without such escapes the buffer is empty or NUL-terminated, and reading count strings gives the tokens |
| `RtspTokenizer.SignednessIff` | src/rtsp_tokenizer.c:112-164 | signed and unsigned chars give the same tokens if and only if no byte of 128 or above stands outside quotes |
| `RtspTokenizer.SignednessExample` | src/rtsp_tokenizer.c:154-163 | a word that is one token or two |
| `RtspTokenizer.QuotedTurn` | src/rtsp_tokenizer.c:67-110 | the loop body inside quotes, on the real buffer |
| `RtspTokenizer.PlainTurn` | src/rtsp_tokenizer.c:111-164 | the loop body outside quotes, on the real buffer |
| `RtspTokenizer.Tokenize` | src/rtsp_tokenizer.c:34-176 | the loop over the real buffer gives what the machine gives, and fails exactly where the source writes before its buffer |
| `RtspQuoting.RoundTrip` | src/rtsp_tokenizer.c:34-176 | words, separators and quotations with any escapes but that of zero, with blanks in front and wherever wanted, needed only between words, and perhaps an unclosed quotation at the end, are tokenized into exactly that list |
| `RtspQuoting.Classes` | src/rtsp_tokenizer.c:125-163 | the separators and the blanks, by their characters |
| `RtspQuoting.Escapes` | src/rtsp_tokenizer.c:69-97 | the named escapes; any other byte stands for itself |
| `RtspQuoting.QuotedListRoundTrip` | src/rtsp_tokenizer.c:34-176 | quoting any list of NUL-free strings, with the named escapes where there are any, and tokenizing returns the list |
| `WpaTokenizer.TokensFit` | src/wpa_parser.c:129-189 | tokens and NULs take no more room than the line with its NUL |
| `WpaTokenizer.TokensReadBack` | src/wpa_parser.c:129-189 | reading count strings from the buffer gives the tokens of the line |
| `WpaTokenizer.Turn` | src/wpa_parser.c:147-180 | the loop body on the real buffer keeps it equal to the tokens read so far |
| `WpaTokenizer.Tokenize` | src/wpa_parser.c:129-189 | buffer and count are the tokens of the line, with no write outside the buffer |
| `WpaQuoting.RoundTrip` | src/wpa_parser.c:129-189 | tokens made of bare and quoted parts with any escapes, the last of which may be unclosed, written with blanks in front and in between, are tokenized into exactly that list |
| `EventLookup.CompareZero` | src/wpa_parser.c:110-127 | the comparison is 0 exactly for keys that are the name, alone or followed by a blank |
| `EventLookup.CompareMonotone` | src/wpa_parser.c:110-127 | a key at or before a name comes before all later names of a sorted table |
| `EventLookup.LexLessBelow` | src/wpa_parser.c:71-91 | alphabetical order is enough when no name is a prefix of the other, or no name holds a blank |
| `EventLookup.PrefixFreeSorted` | src/wpa_parser.c:71-91 | any alphabetical prefix-free table meets the search's precondition |
| `EventLookup.BinarySearch` | src/wpa_parser.c:428-433 | binary search finds what a scan of the table finds, for every sorted table, key and choice of midpoints |
| `EventLookup.TableSorted` | src/wpa_parser.c:59-94 | the table of events is sorted |
| `EventLookup.EventFound` | src/wpa_parser.c:59-127 | every event is found under its name, alone or followed by a blank and arguments |
| `EventLookup.FindEvent` | src/wpa_parser.c:428-436 | an event is found if and only if the key names it |
| `EventLookup.TestLinesName` | test/test_wpa.c:40-58 | the first word of each test line, with any arguments, names the event the test expects and no other |

## Left out

- Sockets, the GLib main loop beyond its timers, processes, configuration and logging: I/O. Packets,
  clock readings, random picks and firing timers are inputs of the models.
- Allocation failures other than the ring's own -ENOMEM, and the overflow checks of the header arrays and
  the tokenizer buffer that only such sizes reach; callbacks that are absent or call back into the object.
- The pointers held in header arrays and freed with them: a line is modelled by its text and length.
- `Ring.ShlRing.Push`: pushes of more than 2^63 - 1 bytes, which no object can hold, are not modelled;
  the wrap-around they would reach is stated at `Ring.ShlRing.Grow`.
- Reading of packets into fields by the server: packets arrive decoded, with ciaddr already in host
  order, where src/gdhcp/server.c:689 and 732 compare it unconverted; saving leases and the ARP check,
  which always succeeds (src/gdhcp/server.c:227-231), are not modelled.
- `LeaseServer.DhcpServer.FindFreeOrExpiredNip`: nothing is said, here and at its callers, about the
  tables on which the search does not end, which are those of `LeaseRuns.SearchEndsIff`.
- `Frame.RecvL2Packet`: a frame too short to reach the magic is rejected, where the source compares
  memory it has not written; after a copy of negative length nothing is said about the run.
- `Ipv4ll.StepInv`: how long a timer runs, with its random part, is not modelled; a timer fires at any
  time. ARP packets of other operations are ignored by the source and are no events of the model.
- `LeaseTimers.LeaseExpiryBound`: a timer fires when it is due, not later; the client is not started while
  a timer is pending, as the source would forget that timer without removing it.
- `RtspTokenizer.Tokenize`: after a write before the buffer nothing is said about the run.
- The handlers of single wpa events and the priority prefix, src/rtsp_ctrl.c, src/wpa_ctrl.c, DHCPv6,
  option value strings, the random choice of link-local addresses, and the tools.
