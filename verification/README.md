# Verified model of the QVS media streaming crates

QVS streams media from peers, HTTP sources and local files. This project models the parts of it that
carry state or parse bytes, crate by crate, and proves what they promise for every input and every run.

- **Bencode and records** (`Bencode`, `SimpleBencode`, `QvsFile`, on `Bytes` and `Decimal`): the recursive
  printer and parser of bencoding (BEP 3), the second parser of the same format, and the `.qmv` record.
- **Buffering** (`Intervals`, `RingBufferModel`, `RingBuffer`, `Sequential`, `Downloads`, `FileDownloads`): the byte
  window with its filled ranges, what writing a file front to back does to it, and the three loops that do so.
- **UDP transport** (`CongestionModel`, `Congestion`, `UdpModel`, `UdpTransport`): Reno-style congestion control
  and the pending packets, as steps over send, receive and timeout.
- **DHT** (`Identifiers`, `RoutingModel`, `Routing`, `Krpc`, `DhtCodec`): XOR distance, the routing table,
  the iterative peer lookup with the announce store, and the wire format.
- **Local policies** (`RateLimiter`, `Bitfield`, `SchedulerModel`, `Scheduler`, `Cache`): the sliding-window
  limiter, the piece bitfield, the piece queue and cache eviction.
- `Wrappers`, `Arithmetic`, `Pieces` and `Sorting` hold what the others share.

An object whose methods change its fields is a class here too; each of its methods is proved equal to a
function on values (its new state, whole), and the laws are proved about that function over runs. Clocks,
sockets, disks, the HTTP server, remote DHT nodes and hash-map iteration order are inputs: the theorems hold
for every choice of them.

`dafny verify dfyconfig.toml` checks everything.

## What the proofs found

Where the code does not do what its design or its tests suggest, the code is modelled as it is, with the
exact condition under which the promise holds.

- **Sliding window.** `slide_to` moves the bytes correctly but rewrites the filled ranges to window positions,
  which every other method reads as file offsets. Reads are right in every run if and only if the file fits
  the buffer (`ReadsExactIffFits`, `ReadsSoundIffFits`); for every larger file and every buffer with room
  for a byte there is a run of at most two writes after which a read returns wrong bytes. A single write is
  always read back unless it is longer than the window (`WrittenIsRead`).
- **Routing table.** `bucket_index` counts in 1280 bits where identifiers have 160, so only buckets 0 (the local
  identifier) and 159 (everybody else) are ever used, and the splitting the repository's README advertises never
  happens. `find_closest` is right for every query if and only if one of the two buckets is empty.
- **Bencode.** The two parsers accept the same texts except those holding a dictionary key whose length is
  written with a plus sign, which only the full parser takes.
- **DHT messages.** No peer response is ever decoded as it was sent (the tag is written 20 bytes before it is
  read), and a ping response arrives as a ping.
- **Failed UDP sends.** A failed socket send stays in flight without being pending. With nothing pending the
  window is open in every run with at most n failed sends if and only if n is at most one (`OpensWhenIdleIff`);
  once it is closed with nothing pending, nothing but an ack from outside ever opens it.
- **Streaming a file larger than the buffer.** Written front to back, a file reads right at every point if and only
  if each chunk ends within the first window or is exactly as long as the window (`SequentialSoundIff`). So honest
  HTTP downloads with bodies shorter than the window read right if and only if the file fits the buffer
  (`ShortBodiesSoundIff`; `HttpSoundIff` has the condition for any bodies), and copies of a local file that is as
  long as announced and lose no byte read right if and only if it fits the buffer, or the buffer is exactly one
  chunk and the file whole chunks, or there is no buffer (`CopySoundIff`). A shorter chunk that makes the window
  slide makes byte 0 of the file read as the byte that starts the new window (`ShortWrite`).
- **Local files.** The loop never moves its reader back. For files as long as announced that fit the buffer, its
  reads are exactly the file's if and only if no failing read takes a byte before the errors that end the loop
  (`ExactIffLossless`). When the announced size fits and nothing fails, reads return the file's bytes only, if and
  only if the file is as long as announced (`GenuineIffLongEnough`).
- **Peer lookup.** A lookup can ask an address twice in one round. No address is asked twice from a shortlist of
  distinct addresses, and none from any shortlist if and only if the lookup is at most one query wide
  (`NeverAsksTwiceIff`).
- **Rate limiter.** The clock is read before the lock is taken, so a request can enter after one with a later time.
  If requests are at most `skew` late, windows of a given width never hold more than the limit if and only if
  width plus `skew` is at most the window; for a limit of one `skew` does not matter (`LimitHoldsIff`).
- **Bitfield.** `set_all(true)` sets the spare bits too. `count` is exact if and only if no spare bit is set or no
  piece is missing (`CountExactIff`).
- **Scheduler.** A piece keeps the priority class it was first scored with, so moving the playhead alone
  never reorders the queue; a requested piece is offered again until the next rebuild; without a seek target
  the class decides the order if and only if there are at most nine peers (`ClassDominatesIff`), and with one the
  pieces around it come first if and only if there are fewer than 400 (`SeekDominatesIff`).

## Model

| member | source | states |
|---|---|---|
| Decimal.UsizeRoundTrip | crates/qvs-format/src/bencode.rs:26-94 | a length that fits `usize` survives being printed and parsed |
| Decimal.I64RoundTrip | crates/qvs-format/src/bencode.rs:20-81 | every `i64`, the smallest included, survives being printed and parsed |
| Decimal.ParseUsizeIff | crates/qvs-format/src/bencode.rs:92-94 | a length is read exactly from digits that denote it and fit, with or without one plus sign |
| Decimal.ParseI64Iff | crates/qvs-format/src/bencode.rs:79-81 | an integer is read exactly from digits that denote it, behind a plus, behind a minus for its negation, or alone |
| Decimal.NatTextIff | crates/qvs-format/src/bencode.rs:26 | the printed length is the only text of that value without a leading zero |
| Decimal.NatTextShortest | crates/qvs-format/src/bencode.rs:26 | and no digits of the same value are shorter |
| Decimal.IntTextIff | crates/qvs-format/src/bencode.rs:20 | the printed integer is the only text without leading zeros, plus sign or negative zero that is read as it, with a minus exactly for negatives |
| Bencode.EncodeValue | crates/qvs-format/src/bencode.rs:15-52 | the buffer-building printer writes the text BEP 3 describes for the value, for any nesting |
| Bencode.RendersIff | crates/qvs-format/src/bencode.rs:15-52 | and every value has exactly one such text: canonical numbers, `i`..`e`, length`:`bytes, `l` items `e`, `d` entries in order `e` |
| Bencode.DecodeIntIff | crates/qvs-format/src/bencode.rs:68-83 | an integer is read exactly from its tag, a decimal that fits 64 bits, and the first end tag; all else is an error |
| Bencode.DecodeStrIff | crates/qvs-format/src/bencode.rs:85-103 | a string is read exactly from a length, the first colon, and that many bytes; all else is an error |
| Bencode.DecodeValue | crates/qvs-format/src/bencode.rs:55-66 | the dispatching parser returns what the recursive parser gives, errors included |
| Bencode.DecodeList | crates/qvs-format/src/bencode.rs:105-120 | the list loop computes the recursive list parser, first error included, and ends |
| Bencode.DecodeDict | crates/qvs-format/src/bencode.rs:122-140 | the dictionary loop computes the recursive entry parser, later keys overwriting earlier ones, and ends |
| Bencode.TextDecodes | crates/qvs-format/src/bencode.rs:55-140 | every text of a value is read as that value, whatever follows: any decimals, any order of keys, repeated keys overwritten by later ones |
| Bencode.DecodedText | crates/qvs-format/src/bencode.rs:55-140 | whatever is read begins with a text of the value returned, and the rest is what follows it |
| Bencode.DecodeIff | crates/qvs-format/src/bencode.rs:55-140 | so reading succeeds with a value and a rest exactly on a text of the value followed by the rest |
| Bencode.InsertIsUpdate | crates/qvs-format/src/bencode.rs:132 | inserting into a key-ordered map keeps it ordered and changes exactly that key |
| Bencode.RoundTrip | crates/qvs-format/src/bencode.rs:15-140 | decoding an encoding followed by any bytes gives back that value and those bytes, for every value of any nesting |
| Bencode.EncodingPrefixFree | crates/qvs-format/src/bencode.rs:15-52 | two streams that agree and each begin with an encoding begin with the same value and have the same rest |
| Bencode.DecodeSound | crates/qvs-format/src/bencode.rs:55-140 | every success is a value the Rust types allow (maps sorted by distinct keys) and leaves a proper suffix |
| Bencode.ReencodedTextDecodesBack | crates/qvs-format/src/bencode.rs:15-140 | whatever was decoded, canonical text or not, re-encodes to text that decodes to the same value |
| SimpleBencode.DecodeSimple | crates/qvs-core/src/util.rs:121-181 | the second parser, with its loops inline, computes its recursive parser and ends |
| SimpleBencode.ParsersAgree | crates/qvs-core/src/util.rs:121-181 | it accepts exactly the inputs the full parser accepts that hold no plus-signed key length, with equal value and rest |
| SimpleBencode.ParsersAgreeWithoutPlus | crates/qvs-core/src/util.rs:121-181 | on input without a plus sign both parsers accept the same and return the same |
| SimpleBencode.PlusKeySplitsTheParsers | crates/qvs-format/src/bencode.rs:129-130 | for every key and value, signing the key's length gives text only the full parser takes |
| QvsFile.EncodeFile | crates/qvs-format/src/qvs_file.rs:20-55 | the insert-by-insert encoder writes the encoding of the record's map |
| QvsFile.CastsUndone | crates/qvs-format/src/qvs_file.rs:33-38 | the cast to `i64` is undone by the cast back for every `u64`, those above 2^63 included |
| QvsFile.ChunksOfConcat | crates/qvs-format/src/qvs_file.rs:106-113 | cutting the joined hashes into 20 bytes gives back the list of hashes |
| QvsFile.EntriesLookup | crates/qvs-format/src/qvs_file.rs:21-52 | the map is a valid bencode dictionary with every field under its own key, the optional key only if present |
| QvsFile.TrackersKept | crates/qvs-format/src/qvs_file.rs:115-128 | of the tracker list exactly the UTF-8 strings are kept, in order |
| QvsFile.DecodeFileIff | crates/qvs-format/src/qvs_file.rs:62-142 | a file is read as a record exactly if it begins with a dictionary that holds each field under its key, in its type, length and encoding |
| QvsFile.FileRoundTrip | crates/qvs-format/src/qvs_file.rs:20-142 | every record survives encoding and decoding, whatever bytes follow it |
| QvsFile.DecodedFileIsStable | crates/qvs-format/src/qvs_file.rs:62-142 | whatever decodes is a well-typed record that encodes to a file decoding to itself |
| Intervals.MergeCovers | crates/qvs-stream/src/buffer.rs:243-275 | merging covers exactly the old bytes and the new ones and leaves sorted, separated, non-empty ranges in the file |
| Intervals.CanonicalUnique | crates/qvs-stream/src/buffer.rs:29-37 | such a set of ranges is determined by the bytes it covers |
| Intervals.SpannedIffCovered | crates/qvs-stream/src/buffer.rs:102-110 | one stored range spans a non-empty query exactly when every byte of the query is covered |
| Intervals.FilledSplits | crates/qvs-stream/src/buffer.rs:132-169 | filled before and filled from a position on, in the file or past its end, add up to all that is filled |
| RingBufferModel.ShiftRangesCanonical | crates/qvs-stream/src/buffer.rs:202-238 | the ranges rebuilt by a slide are sorted, separated, non-empty and within the file |
| RingBufferModel.ShiftRangesCover | crates/qvs-stream/src/buffer.rs:202-238 | a rebuilt range covers exactly what the old ranges cover further on by the shift, below the cap |
| RingBufferModel.SlideKeepsBytes | crates/qvs-stream/src/buffer.rs:178-226 | a file offset in both the old and the new window keeps its byte |
| RingBufferModel.SlideMeaning | crates/qvs-stream/src/buffer.rs:178-241 | what any slide leaves: bytes at their file offsets, zeros that came in, and which positions count as filled, which is where the two part |
| RingBufferModel.WriteMeaning | crates/qvs-stream/src/buffer.rs:52-82 | a write that fits the window slides it no further than it must, stores its bytes, marks them, and changes nothing else |
| RingBufferModel.ApplyKeepsInv | crates/qvs-stream/src/buffer.rs:52-82 | every operation, slides included, keeps the ranges canonical and the window its size |
| RingBufferModel.Run | crates/qvs-stream/src/buffer.rs:40-176 | so does every run from a new buffer |
| RingBufferModel.WrittenIsRead | crates/qvs-stream/src/buffer.rs:52-99 | in every state, slides included, a write is read back at once if and only if it is no longer than the window |
| RingBufferModel.RunAgrees | crates/qvs-stream/src/buffer.rs:52-82 | if every write of a run ends within the first window, each offset is filled exactly if written since the last clear, and holds the last byte written |
| RingBufferModel.FirstWindowReads | crates/qvs-stream/src/buffer.rs:52-110 | and then every read is exact, however large the file |
| RingBufferModel.WriteAgrees | crates/qvs-stream/src/buffer.rs:52-82 | one write to a buffer that agrees with the picture of the file paints its bytes, cut at the end of the file, and nothing else |
| RingBufferModel.AgreeingRead | crates/qvs-stream/src/buffer.rs:85-99 | a read of such a buffer returns data exactly if every byte was written, and then those bytes |
| RingBufferModel.ReadsExactIffFits | crates/qvs-stream/src/buffer.rs:52-110 | every read after every run equals a read of the plain picture of the file if and only if the file fits the buffer |
| RingBufferModel.ReadsSoundIffFits | crates/qvs-stream/src/buffer.rs:204-239 | every read that returns data returns the right bytes if and only if the file fits or the buffer has no room at all |
| RingBufferModel.BackSlideMisread | crates/qvs-stream/src/buffer.rs:182-215 | in every larger file, writing the last byte and then one byte below the window makes a byte never written read as zero |
| RingBufferModel.LongWriteMisread | crates/qvs-stream/src/buffer.rs:65-79 | a write longer than a one-byte window leaves its first byte where its last belongs |
| RingBuffer.RingBuffer.constructor | crates/qvs-stream/src/buffer.rs:41-50 | a new buffer is empty, zeroed and valid |
| RingBuffer.RingBuffer.Write | crates/qvs-stream/src/buffer.rs:52-82 | keeps the buffer valid and reaches exactly the state the write laws speak about |
| RingBuffer.RingBuffer.Read | crates/qvs-stream/src/buffer.rs:85-99 | returns what the read laws speak about |
| RingBuffer.RingBuffer.IsRangeFilled | crates/qvs-stream/src/buffer.rs:102-110 | the loop answers a non-empty query by byte-for-byte coverage |
| RingBuffer.RingBuffer.IsPlayable | crates/qvs-stream/src/buffer.rs:113-116 | true exactly when the head of the file, at most 262144 bytes and one window, is covered |
| RingBuffer.RingBuffer.FilledAfter | crates/qvs-stream/src/buffer.rs:132-142 | the number of covered bytes from the offset on |
| RingBuffer.RingBuffer.FilledBefore | crates/qvs-stream/src/buffer.rs:144-156 | the number of covered bytes below the offset, although the loop stops early |
| RingBuffer.RingBuffer.TotalFilled | crates/qvs-stream/src/buffer.rs:167 | the number of covered bytes of the file |
| RingBuffer.RingBuffer.FilledPercentage | crates/qvs-stream/src/buffer.rs:163-169 | the covered share of the file, 1 exactly when every byte is covered, an empty file included |
| RingBuffer.RingBuffer.SetPlayPosition | crates/qvs-stream/src/buffer.rs:158-160 | changes the play position only |
| RingBuffer.RingBuffer.Clear | crates/qvs-stream/src/buffer.rs:171-176 | empties and zeroes the buffer in place |
| RingBuffer.RingBuffer.SlideTo | crates/qvs-stream/src/buffer.rs:178-241 | reaches the state the slide laws speak about, by a fresh array or by zeroing in place, and stays valid |
| RingBuffer.RingBuffer.MergeRange | crates/qvs-stream/src/buffer.rs:243-275 | removing the touched ranges and inserting the grown one is exactly the canonical merge |
| RingBuffer.CollectTouching | crates/qvs-stream/src/buffer.rs:247-262 | one growing pass collects exactly the block of ranges the new one touches |
| Sequential.ReadOfArrived | crates/qvs-stream/src/buffer.rs:85-99 | with the first n bytes of the file there, a read returns the file's bytes up to n and nothing beyond |
| Sequential.WholeWindow | crates/qvs-stream/src/buffer.rs:61-82 | a chunk as long as the window, written past all that is there, leaves exactly itself, marked in file offsets |
| Sequential.FillInOrder | crates/qvs-stream/src/buffer.rs:52-82 | while every chunk ends in the first window or is one window long, the buffer holds exactly the file so far, or exactly the last window of it |
| Sequential.ShortWrite | crates/qvs-stream/src/buffer.rs:65-69 | a shorter chunk that makes the window slide over filled bytes makes byte 0 read as the byte that starts the new window |
| Sequential.LongWrite | crates/qvs-stream/src/buffer.rs:65-79 | a chunk longer than the window makes the start of the new window read as the chunk's first byte |
| Sequential.UnfitChunk | crates/qvs-stream/src/buffer.rs:52-99 | the first chunk that is neither makes some read of a marked file return the wrong byte |
| Sequential.SequentialSoundIff | crates/qvs-stream/src/buffer.rs:52-99 | for given chunk lengths every file reads right at every point if and only if each chunk ends within the first window or is one window long (or there is no window) |
| Sequential.ShortChunksFit | crates/qvs-stream/src/buffer.rs:65-69 | chunks shorter than the window meet that condition exactly as long as their sum fits the window |
| Downloads.RunHttpDownload | crates/qvs-stream/src/engine.rs:786-892 | ends on every response sequence within ten requests a byte; gives up only after ten requests in a row at one offset brought nothing; leaves exactly the state the download laws speak about |
| Downloads.HonestRun | crates/qvs-stream/src/engine.rs:804-882 | with an honest server the buffer is the bodies written front to back: exactly the file so far while that fits, and exactly its last window if every later body is one window long |
| Downloads.HttpSoundIff | crates/qvs-stream/src/engine.rs:804-882 | for given body lengths, every download of every file reads right at every point if and only if each body ends within the first window or is one window long |
| Downloads.ShortBodiesSoundIff | crates/qvs-stream/src/engine.rs:804-882 | honest downloads with bodies shorter than the window read right at every point if and only if the file fits the buffer (or no such body exists) |
| FileDownloads.RunFileDownload | crates/qvs-stream/src/engine.rs:1033-1117 | over one sequential reader, ends with the announced size, after ten reads in a row that failed, or when a read came to the end, in exactly the state the copy laws speak about |
| FileDownloads.OnlyErrors | crates/qvs-stream/src/engine.rs:1104-1115 | once only errors are to come nothing more is written |
| FileDownloads.LosslessRun | crates/qvs-stream/src/engine.rs:1060-1086 | a loop that loses nothing leaves the buffer as the file's chunks written front to back, whatever the sizes |
| FileDownloads.ExactIffLossless | crates/qvs-stream/src/engine.rs:1041-1117 | for every file at least as long as announced that fits the buffer, reads of the buffer are exactly the file up to the final offset, if and only if no failing read takes a byte before the errors that end the loop |
| FileDownloads.CopySoundIff | crates/qvs-stream/src/engine.rs:1043-1117 | for every capacity, announced size and file length: every copy that loses nothing reads right at every point if and only if there is no buffer, or the file is as long as announced and either fits the buffer or is whole chunks of exactly the buffer's size |
| FileDownloads.GenuineIffLongEnough | crates/qvs-stream/src/engine.rs:1087-1103 | when the announced size fits the buffer and nothing fails, reads return the file's bytes only, if and only if the file is as long as announced |
| FileDownloads.ShorterFile | crates/qvs-stream/src/engine.rs:1087-1103 | a shorter file reads exactly, and past its end zeros read as filled up to the end of the chunk that was cut short |
| FileDownloads.ShortUnsound | crates/qvs-stream/src/engine.rs:1087-1103 | whatever the buffer's size, some file of any shorter length makes a read return what is not in it |
| Pieces.CeilDiv | crates/qvs-stream/src/engine.rs:657-693 | the last piece ends exactly at the end of the file |
| Pieces.TileStep | crates/qvs-stream/src/engine.rs:684-714 | each piece ends where the next begins, the last at the end of the file |
| Downloads.RunDownload | crates/qvs-stream/src/engine.rs:651-740 | if the piece count fits 32 bits and the file the buffer, every byte of the file is filled; and for any sizes whatever reads return is zeros |
| CongestionModel.AckKeepsWindow | crates/qvs-transport/src/congestion.rs:65-82 | an ack grows the window by at most one, strictly below the cap, leaves fast recovery, and keeps the window laws |
| CongestionModel.LossKeepsWindow | crates/qvs-transport/src/congestion.rs:84-106 | losses, timeouts and sends keep the window laws |
| CongestionModel.RunEvents | crates/qvs-transport/src/congestion.rs:32-111 | in every run 2 <= cwnd <= 256, ssthresh is at least 2 and at most half the cap, fast recovery sits on ssthresh, avoidance at or above it, slow start below it, and the loss rate is lost over sent |
| CongestionModel.AvoidanceGrowth | crates/qvs-transport/src/congestion.rs:76-80 | in avoidance the square of the window grows by two an ack, and by at most a quarter more, until the cap |
| CongestionModel.SlowStartGrowth | crates/qvs-transport/src/congestion.rs:70-75 | in slow start every ack adds one packet and the ack that reaches the threshold ends it |
| CongestionModel.LossesHalve | crates/qvs-transport/src/congestion.rs:84-91 | n losses in a row halve the window n times, down to two packets, and leave it on the threshold |
| CongestionModel.AckAfterLosses | crates/qvs-transport/src/congestion.rs:65-91 | after any losses one ack is enough to leave fast recovery, one packet above the halved window |
| CongestionModel.AcksAfterTimeout | crates/qvs-transport/src/congestion.rs:65-100 | after a timeout the window climbs from two by one an ack, and slow start ends exactly at half the window before it |
| CongestionModel.RunHistory | crates/qvs-transport/src/congestion.rs:151-160 | the history is the last hundred samples |
| CongestionModel.EstimateIsMean | crates/qvs-transport/src/congestion.rs:151-160 | once there is a sample the estimate is the mean of the last hundred, in every run |
| CongestionModel.EstimateWithinSamples | crates/qvs-transport/src/congestion.rs:151-160 | so it lies between their extremes |
| CongestionModel.TimeoutBounded | crates/qvs-transport/src/congestion.rs:161-181 | if no sample exceeds M and M is at least 20 ms, the deviation is at most M, and the timeout, the estimate and four deviations, at most 5 M, integer division included |
| Congestion.UdpCongestionControl.constructor | crates/qvs-transport/src/congestion.rs:32-48 | starts in slow start at two packets, with the constants of the source |
| Congestion.UdpCongestionControl.OnAck | crates/qvs-transport/src/congestion.rs:65-82 | one packet leaves the flight; the window grows by one, or in avoidance by its inverse, up to 256; the threshold, once reached, starts avoidance |
| Congestion.UdpCongestionControl.OnLoss | crates/qvs-transport/src/congestion.rs:84-91 | the window and the threshold become half the window, at least two; one packet leaves the flight and counts as lost |
| Congestion.UdpCongestionControl.OnTimeout | crates/qvs-transport/src/congestion.rs:93-100 | the threshold becomes half the window, the window two packets, and the flight ends |
| Congestion.UdpCongestionControl.OnPacketSent | crates/qvs-transport/src/congestion.rs:102-106 | one more packet sent and in flight, the window as it was |
| Congestion.UdpCongestionControl.UpdateRtt | crates/qvs-transport/src/congestion.rs:151-167 | slides the history; the estimate is its mean, and the deviation moves a quarter of the way to the new distance, rounded down |
| Congestion.UdpCongestionControl.UpdateLossRate | crates/qvs-transport/src/congestion.rs:141-149 | the rate is lost over sent, and streaming starts, for good, when more than a tenth is lost |
| UdpModel.ReachableSafe | crates/qvs-transport/src/udp_stream.rs:149-259 | in every run: the window laws, at most 256 in flight, pending numbers below the next one, fewer than five retransmits each; packets put in pending = acked + expired + still pending; in flight <= pending + failed sends |
| UdpModel.PendingAsSent | crates/qvs-transport/src/udp_stream.rs:149-259 | in every run each pending packet is one that some step sent, with its number, piece, block, payload and address, however often it was resent |
| UdpModel.RoundKeepsInv | crates/qvs-transport/src/udp_stream.rs:222-259 | a retransmit round in any iteration order, with any sends failing, keeps all of this and loses no packet but the expired |
| UdpModel.RoundMeaning | crates/qvs-transport/src/udp_stream.rs:222-259 | a round touches exactly the packets sent more than half a second ago and not behind a failed send: each is stamped, counted, and gone at its fifth retransmit; a round that finds none changes nothing at all |
| UdpModel.RoundLosses | crates/qvs-transport/src/udp_stream.rs:233-258 | it counts one loss for each packet resent and one for each dropped; packets resent halve the window one by one, a packet dropped sends it back to two packets, slow start and an empty flight |
| UdpModel.WedgedWithoutAcks | crates/qvs-transport/src/udp_stream.rs:149-259 | with nothing pending and the window full, no step but a received ack changes anything |
| UdpModel.WedgedForGood | crates/qvs-transport/src/udp_stream.rs:149-259 | so no run of such steps ever leaves that state |
| UdpModel.TwoFailedSendsWedge | crates/qvs-transport/src/udp_stream.rs:161-167 | two failed sends on a fresh transport lead to that state |
| UdpModel.OpensWhenIdleIff | crates/qvs-transport/src/udp_stream.rs:156-175 | in every run with at most n failed sends the window is open whenever nothing is pending, if and only if n is at most one |
| UdpModel.BudgetFrom | crates/qvs-transport/src/udp_stream.rs:249-254 | the retransmits left, summed over the pending packets, do not depend on the order of summing |
| UdpModel.FullRound | crates/qvs-transport/src/udp_stream.rs:222-259 | a round that finds everything overdue and loses no send lowers that sum by one for each pending packet and drops exactly those at the limit |
| UdpModel.RoundsCount | crates/qvs-transport/src/udp_stream.rs:222-259 | after n such rounds what is pending was pending before, unchanged but for n more retransmits |
| UdpModel.FiveRoundsEmpty | crates/qvs-transport/src/udp_stream.rs:222-259 | after five such rounds nothing is pending, whatever sends failed before, and a packet can be sent if and only if something was pending or the window was open at the start |
| UdpTransport.UdpTransport.constructor | crates/qvs-transport/src/udp_stream.rs:136-147 | starts valid with nothing pending and number one next |
| UdpTransport.UdpTransport.SendData | crates/qvs-transport/src/udp_stream.rs:149-177 | refuses exactly when the window is full, and then changes nothing; takes the next number; keeps the packet as given, with its address and time, unless the socket fails, which leaves it in flight and not pending |
| UdpTransport.UdpTransport.Receive | crates/qvs-transport/src/udp_stream.rs:188-220 | an ack settles its packet and counts as a 50 ms round trip, a nack for a pending packet resends that packet to its own address, a ping is answered, and nothing else changes anything |
| UdpTransport.UdpTransport.RetransmitTimeout | crates/qvs-transport/src/udp_stream.rs:222-259 | resends, as first sent and in the order of the map, exactly the packets more than half a second old up to the first failing send; those are stamped or dropped, all others stay as they are, and the window and the losses follow |
| UdpTransport.UdpTransport.ResendAll | crates/qvs-transport/src/udp_stream.rs:233-247 | the resend loop counts one loss for each attempt and stops after the first failing send |
| UdpTransport.UdpTransport.DropAll | crates/qvs-transport/src/udp_stream.rs:249-258 | the expiry loop drops exactly the packets at the limit, one timeout each |
| Sorting.SortPermutes | crates/qvs-transport/src/scheduler.rs:121 | sorting neither loses nor adds an element |
| Sorting.SortStable | crates/qvs-transport/src/scheduler.rs:121 | a stable sort by a total preorder is ordered and keeps ties in the order of the input |
| Sorting.PairwisePermutation | crates/qvs-dht/src/krpc.rs:230-234 | reordering keeps any irreflexive relation that holds between all elements |
| Identifiers.DistanceInjective | crates/qvs-core/src/types.rs:47-53 | distances from one target tell identifiers apart |
| Identifiers.DistanceSymmetric | crates/qvs-core/src/types.rs:47-53 | the distance is symmetric |
| Identifiers.DistanceZero | crates/qvs-core/src/types.rs:47-53 | the distance is zero only from an identifier to itself |
| Identifiers.DistanceBits | crates/qvs-core/src/types.rs:47-53 | a bit of the distance is set exactly where the identifiers differ |
| Identifiers.NearerIsNumeric | crates/qvs-dht/src/routing.rs:182-186 | comparing distance arrays compares 160-bit numbers, most significant byte first |
| Identifiers.NearerTotal | crates/qvs-dht/src/routing.rs:182-186 | of two identifiers one is at most as far as the other, and both only if they are equal |
| Identifiers.NearerTransitive | crates/qvs-dht/src/routing.rs:182-186 | being nearer is transitive |
| RoutingModel.InsertKeepsBucket | crates/qvs-dht/src/routing.rs:32-56 | an insert keeps identifiers distinct and the bucket at eight, drops no fresh entry, and refuses exactly when the bucket is full of other, fresh entries |
| RoutingModel.InsertRight | crates/qvs-dht/src/routing.rs:32-56 | what each result says of the bucket: a known entry gets the time and the latency and moves to the front, a new one is appended as given, if need be for the first one overdue, and only a full bucket with nothing overdue refuses |
| RoutingModel.RemoveRight | crates/qvs-dht/src/routing.rs:58-60 | a remove takes out the one entry with the identifier and keeps the others in order |
| RoutingModel.TwoBuckets | crates/qvs-dht/src/routing.rs:131-140 | the local identifier maps to bucket 0 and every other identifier to bucket 159 |
| RoutingModel.NeverSplit | crates/qvs-dht/src/routing.rs:142-155 | the splitting branch is never reached |
| RoutingModel.InsertKeepsInv | crates/qvs-dht/src/routing.rs:142-156 | an insert keeps the table sound, touches one bucket, and the identifier is stored exactly if not refused |
| RoutingModel.TableInsertRight | crates/qvs-dht/src/routing.rs:142-156 | an insert does this to the bucket of its identifier and changes no other bucket |
| RoutingModel.InsertOutcome | crates/qvs-dht/src/routing.rs:142-156 | the inserted identifier is stored or its bucket is full; nothing leaves a bucket with room, and nothing that is not overdue leaves any |
| RoutingModel.RemoveKeepsInv | crates/qvs-dht/src/routing.rs:211-216 | a remove keeps the table sound and takes out exactly that identifier |
| RoutingModel.Run | crates/qvs-dht/src/routing.rs:126-216 | in every run of inserts and removes no identifier is stored twice, no bucket exceeds eight, every entry sits where its identifier maps |
| RoutingModel.LocalBucketEmpty | crates/qvs-dht/src/routing.rs:131-156 | if the local identifier is never inserted, its bucket stays empty |
| RoutingModel.FindClosestExact | crates/qvs-dht/src/routing.rs:158-190 | with one of the two buckets empty, the result is exactly the nearest entries of the whole table, fewer only if there are fewer, in strictly increasing distance |
| RoutingModel.FindClosestMeaning | crates/qvs-dht/src/routing.rs:158-190 | in every table a search gives the nearest of the first bucket it looks in, if that has enough entries, and else the nearest of all |
| RoutingModel.RunFindsClosest | crates/qvs-dht/src/routing.rs:126-216 | so is every search after every run that never inserts the local identifier |
| RoutingModel.LocalEntryMissed | crates/qvs-dht/src/routing.rs:163-180 | with both buckets in use some search stops at the far bucket and misses a nearer entry |
| RoutingModel.FindClosestRightIff | crates/qvs-dht/src/routing.rs:158-190 | every search of a table is exact if and only if one of the two buckets is empty |
| Routing.RoutingTable.constructor | crates/qvs-dht/src/routing.rs:126-129 | a new table has 160 empty buckets and is valid |
| Routing.RoutingTable.Insert | crates/qvs-dht/src/routing.rs:142-156 | the bucket of the identifier changes as the insert law says for the result returned, no other bucket changes, and the splitting branch is dead |
| Routing.RoutingTable.Remove | crates/qvs-dht/src/routing.rs:211-216 | exactly the entry with the identifier goes, all others stay in order |
| Routing.RoutingTable.FindClosest | crates/qvs-dht/src/routing.rs:158-190 | the outward loop, sort and cut return the nearest of the first bucket or of all, and of all whenever one of the two buckets is empty |
| Krpc.StoreFillsUp | crates/qvs-dht/src/krpc.rs:298-302 | storing keeps the list and appends the first new peers until there are fifty |
| Krpc.StoreInRun | crates/qvs-dht/src/krpc.rs:155-183 | in every run of announces and lookups a hash keeps exactly the first fifty peers offered for it, bad tokens not counted |
| Krpc.AbsorbMeaning | crates/qvs-dht/src/krpc.rs:312-331 | absorbing a reply keeps the shortlist and its distinct addresses, adds only reported nodes not yet queried, and misses no address |
| Krpc.AbsorbFirst | crates/qvs-dht/src/krpc.rs:312-331 | of the nodes reported under one new address the first one joins |
| Krpc.ToQueryDistinct | crates/qvs-dht/src/krpc.rs:236-241 | from distinct addresses a round picks distinct addresses |
| Krpc.FirstBatch | crates/qvs-dht/src/krpc.rs:236-241 | the first round picks the front of the shortlist as it stands, repeated addresses included |
| Krpc.NothingToQuery | crates/qvs-dht/src/krpc.rs:243-245 | there is nothing to ask only if every address on the shortlist was asked |
| Krpc.QueryRound | crates/qvs-dht/src/krpc.rs:247-360 | the query loop does what asking the entries one by one does, ends at the first peers, and reports found nodes exactly when the shortlist grew |
| Krpc.AskRound | crates/qvs-dht/src/krpc.rs:229-369 | a round does what the modelled round does, and asks nothing only if every address on the shortlist was asked (or alpha is zero) |
| Krpc.Search | crates/qvs-dht/src/krpc.rs:227-397 | the round loop computes the modelled lookup, and so a right one in the sense of that law |
| Krpc.LookUpMeaning | crates/qvs-dht/src/krpc.rs:205-398 | against any replies: at most alpha queries a round, no address twice from distinct addresses or with alpha at most one, the nearest node strictly nearer each time it changes, every node accounted for, peers exactly from the last reply |
| Krpc.LookUpRight | crates/qvs-dht/src/krpc.rs:227-397 | every lookup, against any replies: each round asks the nearest known entries not asked before, up to alpha, nearest first; the first peers end it; else it goes on exactly while rounds are left, something is unasked, and each round brings a new address and, after the first, a nearer node; and it returns all it came to know |
| Krpc.FirstQueries | crates/qvs-dht/src/krpc.rs:229-250 | while no peers come, a lookup begins by asking the alpha nearest entries, nearest first |
| Krpc.SharedAddressAskedTwice | crates/qvs-dht/src/krpc.rs:236-250 | an address that two of those entries share is asked twice, at their two positions |
| Krpc.NeverAsksTwiceIff | crates/qvs-dht/src/krpc.rs:236-250 | lookups ask no address twice, whatever the shortlist and the replies, if and only if alpha is at most one (or there are no rounds) |
| Krpc.InTurnMeaning | crates/qvs-dht/src/krpc.rs:387-393 | after the discovered nodes were inserted in turn each of them is in the table or its bucket is full, and no node that is not overdue was lost |
| Krpc.KademliaRpc.constructor | crates/qvs-dht/src/krpc.rs:28-37 | starts with no stored peers over a sound table |
| Krpc.KademliaRpc.Announce | crates/qvs-dht/src/krpc.rs:155-195 | a good token appends one peer if fewer than fifty are there, a bad one changes nothing |
| Krpc.KademliaRpc.IterativeFindPeers | crates/qvs-dht/src/krpc.rs:205-398 | fails exactly if the whole table is empty; otherwise it is a right lookup of eight rounds from the nearest entries of the table, after which the peers found are stored, up to fifty, or the nodes returned are inserted in turn |
| DhtCodec.EncodeMessage | crates/qvs-dht/src/rpc.rs:120-207 | the appending encoder writes header, identifier and payload of the variant |
| DhtCodec.LaidOut | crates/qvs-dht/src/rpc.rs:120-207 | every message byte by byte: `QVDT`, type, transaction with the high byte first, version, sender, and each field of the variant at its place |
| DhtCodec.DecodeMessage | crates/qvs-dht/src/rpc.rs:209-341 | the decoder with its list loops computes the decoding the round-trip laws speak about, errors included |
| DhtCodec.DecodeIff | crates/qvs-dht/src/rpc.rs:209-417 | what is read at all, by magic, version, type and length, and where each field of what is read was |
| DhtCodec.ReadNodes | crates/qvs-dht/src/rpc.rs:240-246 | the loop reads every whole node and drops a remainder |
| DhtCodec.ReadValues | crates/qvs-dht/src/rpc.rs:270-303 | tag, count and list are read from payload byte 40 on, with the error for a payload too short |
| DhtCodec.ReadSomePeers | crates/qvs-dht/src/rpc.rs:278-289 | the counted loop reads at most the announced number of whole peers |
| DhtCodec.ReadSomeNodes | crates/qvs-dht/src/rpc.rs:291-302 | the counted loop reads at most the announced number of whole nodes |
| DhtCodec.HeaderRoundTrip | crates/qvs-dht/src/rpc.rs:383-417 | an encoded header decodes with the protocol's magic and version, type and transaction kept, the rest untouched |
| DhtCodec.NodesRoundTrip | crates/qvs-dht/src/rpc.rs:91-116 | any number of encoded nodes decodes to those nodes |
| DhtCodec.BodyRoundTrip | crates/qvs-dht/src/rpc.rs:212-340 | under the right type byte every other body decodes to its message |
| DhtCodec.DecodedShape | crates/qvs-dht/src/rpc.rs:212-340 | whatever decodes carries the decoded header, sits under its own type byte and is never a ping response |
| DhtCodec.RoundTripIff | crates/qvs-dht/src/rpc.rs:120-341 | a message comes back as sent if and only if its header is well-formed for its variant and it is neither a ping response nor a peer response |
| DhtCodec.FindPeersResponseNeverReadBack | crates/qvs-dht/src/rpc.rs:166-184 | no peer response is ever decoded as it was sent, whatever it holds |
| DhtCodec.PingResponseArrivesAsPing | crates/qvs-dht/src/rpc.rs:213-223 | a ping response decodes as a ping |
| DhtCodec.TypesShareNoLength | crates/qvs-dht/src/rpc.rs:231-337 | a request and a response under one type byte never have the same length |
| RateLimiter.RateLimiter.constructor | crates/qvs-local-server/src/middleware.rs:28-34 | starts with an empty log |
| RateLimiter.RateLimiter.Check | crates/qvs-local-server/src/middleware.rs:36-47 | reaches the log and the answer the window laws speak about |
| RateLimiter.CheckKeepsFaithful | crates/qvs-local-server/src/middleware.rs:39-45 | the stored timestamps keep telling how many requests fall in the window ending at any later time |
| RateLimiter.NeverOverLimit | crates/qvs-local-server/src/middleware.rs:36-47 | if requests enter the lock in the order of their times, for every address no half-open window of that length holds more accepted requests than the limit |
| RateLimiter.LateEntriesBound | crates/qvs-local-server/src/middleware.rs:36-47 | if they enter at most `skew` late, no window shorter by `skew` does |
| RateLimiter.LateEntryExample | crates/qvs-local-server/src/middleware.rs:37-38 | with two allowed in three, requests at 3, 3, 6, 5 all pass and three of them lie in [3, 6) |
| RateLimiter.LimitHoldsIff | crates/qvs-local-server/src/middleware.rs:36-47 | the limit holds for windows of a width in every run at most `skew` late if and only if width + `skew` is at most the window, or the limit is one and the width at most the window, or limit or width is zero |
| RateLimiter.RefusedIffFull | crates/qvs-local-server/src/middleware.rs:41-42 | for requests that enter in the order of their times, one is refused if and only if the window ending with it already holds the limit |
| Bitfield.Bitfield.constructor | crates/qvs-core/src/types.rs:98-104 | a new field has a byte for every eight pieces, all zero |
| Bitfield.Bitfield.SetPiece | crates/qvs-core/src/types.rs:124-138 | changes the array as the bit laws assume, and not at all outside the field |
| Bitfield.Bitfield.SetAllPieces | crates/qvs-core/src/types.rs:140-145 | every byte, spare bits included, becomes ones or zeros, so every piece is there or none |
| Bitfield.Bitfield.CountPieces | crates/qvs-core/src/types.rs:148-154 | the summing loop computes the population count, which is the number of pieces there while no spare bit is set |
| Bitfield.HasAfterSet | crates/qvs-core/src/types.rs:112-138 | setting a piece is seen at that piece only |
| Bitfield.HighestBitFirst | crates/qvs-core/src/types.rs:112-122 | piece i is the bit `1 << (7 - i % 8)` of byte i / 8 |
| Bitfield.SumOnesCounts | crates/qvs-core/src/types.rs:148-152 | the byte-wise population count is the number of set bits |
| Bitfield.CountExactIff | crates/qvs-core/src/types.rs:148-154 | for any bytes, `count` is the number of pieces present if and only if no spare bit is set or no piece is missing |
| Bitfield.RunCountExact | crates/qvs-core/src/types.rs:98-154 | after every run of `new` and `set` the count is exact |
| Bitfield.SetAllOvercounts | crates/qvs-core/src/types.rs:140-154 | with spare bits, `set_all(true)` and one piece cleared make the count wrong |
| SchedulerModel.QueueOrder | crates/qvs-transport/src/scheduler.rs:83-123 | the queue lists each piece neither completed nor requested exactly once, by descending score, ties by index |
| SchedulerModel.ClassDominatesIff | crates/qvs-transport/src/scheduler.rs:96-122 | without a seek target, cached class, then rarity, then index decide the order for every scheduler with n peers if and only if n is at most nine |
| SchedulerModel.SeekDominatesIff | crates/qvs-transport/src/scheduler.rs:96-122 | a seek puts the pieces within two of its target before all others that are not critical, in every queue for n peers, if and only if n is below 400 |
| SchedulerModel.PlayheadIgnored | crates/qvs-transport/src/scheduler.rs:36-81 | once the queue was built, moving the playhead without a seek gives the same queue again |
| SchedulerModel.ClassInRun | crates/qvs-transport/src/scheduler.rs:36-123 | in every run of marks, seeks, playhead moves, classifications and rebuilds a piece is scored with its class at the playhead where it was first scored |
| SchedulerModel.NextInRun | crates/qvs-transport/src/scheduler.rs:83-133 | until the next rebuild the next request is the wanted piece that came before every other, or none because nothing was wanted |
| SchedulerModel.CompletedStaysOut | crates/qvs-transport/src/scheduler.rs:40-94 | once complete a piece is in no queue built later |
| SchedulerModel.RequestedStaysOut | crates/qvs-transport/src/scheduler.rs:40-94 | once requested it is in none built before it is complete |
| SchedulerModel.RequestedIsOfferedAgain | crates/qvs-transport/src/scheduler.rs:45-133 | a piece just requested, and so no longer wanted, is offered again |
| Scheduler.PieceScheduler.constructor | crates/qvs-transport/src/scheduler.rs:18-28 | starts with an empty queue and no marks |
| Scheduler.PieceScheduler.SetPlayhead | crates/qvs-transport/src/scheduler.rs:36-38 | moves the playhead and nothing else, the cached classes least of all |
| Scheduler.PieceScheduler.MarkCompleted | crates/qvs-transport/src/scheduler.rs:40-43 | a completed piece is no longer requested |
| Scheduler.PieceScheduler.MarkRequested | crates/qvs-transport/src/scheduler.rs:45-47 | adds the piece to those requested |
| Scheduler.PieceScheduler.SetSeekTarget | crates/qvs-transport/src/scheduler.rs:59-62 | seeking moves the playhead too |
| Scheduler.PieceScheduler.CalculatePriority | crates/qvs-transport/src/scheduler.rs:65-81 | the first answer for a piece is its class by distance to the playhead, at most 0, 2 and 16; it is cached and is the answer from then on |
| Scheduler.PieceScheduler.ScorePiece | crates/qvs-transport/src/scheduler.rs:101-118 | the points of the class, one for each peer without the piece, and 500 within two of the seek target |
| Scheduler.PieceScheduler.UpdateDownloadQueue | crates/qvs-transport/src/scheduler.rs:83-123 | the loops build the queue of the order laws, each piece neither complete nor requested once, and cache the class of exactly the pieces scored |
| Scheduler.PieceScheduler.NextRequest | crates/qvs-transport/src/scheduler.rs:126-133 | for any situation the queue was built from, a wanted piece before every other wanted piece, or none exactly if nothing was wanted |
| Cache.EvictCountMinimal | crates/qvs-format/src/cache.rs:219-226 | evicting that many leaves at most the threshold, one fewer would not |
| Cache.EvictionIsMinimal | crates/qvs-format/src/cache.rs:209-226 | sorting and cutting is an eviction of the least recently used: nothing lost, kept within the threshold, no kept entry older than an evicted one, minimal |
| Cache.CacheManager.EvictOldest | crates/qvs-format/src/cache.rs:214-226 | the retain pass with its running total keeps exactly the entries after the minimal cut |
| Cache.CacheManager.Cleanup | crates/qvs-format/src/cache.rs:209-234 | leaves such an eviction at 80% of the maximum, least recent first, and lists the evicted for deletion in that order |

## Left out

- Machine integers: offsets, sequence numbers, counters, timestamps and sizes are unbounded, so overflow (also of `start + len` in the string parsers and the `i64` casts of `slide_to`) and the wrap of the 32-bit sequence counter are not modelled; the `i64`/`u64` casts of the record and the 32-bit piece counts are.
- Floating point: window, loss rate and filled share are reals without rounding; `buffered_duration`, `wait_time`, rates and progress figures are not part of this model, and neither is the integer arithmetic of `estimate_position_ms`, which only feeds them.
- Error texts: errors are constructors, one per branch, without their messages.
- Bencode.RoundTrip: covers byte strings of at most 2^64 - 1 bytes, the most a vector can hold.
- The two value types of the two bencode parsers are one datatype here, and a `BTreeMap` is the sequence of its entries in key order.
- Krpc.LookUpMeaning: that no address is asked twice is stated for distinct addresses or a width of one; the routing table keeps identifiers, not addresses, distinct, and `SharedAddressAskedTwice` and `NeverAsksTwiceIff` show what happens otherwise.
- Krpc.KademliaRpc.Announce: peers are their addresses and the token check is an input; the replies to pings, node searches and peer searches of `handle_message`, `refresh_buckets` and `TokenManager` are not part of this model.
- Routing.RoutingTable.Insert: one clock reading serves the whole call, and a bucket is a value inside the table, without its refresh time; `refresh_list`, `KBucket::find_closest` and outside calls to `split_bucket` are not modelled.
- UdpTransport.UdpTransport.Receive: malformed datagrams and the result of the reply's own socket send do not change the state and are not modelled; `send_ack` and the packet codec are left out.
- UdpModel.FiveRoundsEmpty: stated for rounds in which every pending packet is overdue and every resend succeeds; a failing resend leaves later packets of its round untouched.
- Downloads.RunDownload: the pause poll, which can wait for ever, the sleeps and the progress reports are left out; the other two loops also drop reports and sleeps.
- FileDownloads.RunFileDownload: opening the file is left out, and the file does not change while it is read; an error takes fewer bytes than the read asked for.
- Downloads.HonestRun: what is in the buffer is stated as the bodies written front to back for any sizes; that reads give the file is stated for bodies that fit, because for others it fails (`HttpSoundIff`).
- FileDownloads.ExactIffLossless: stated for files that fit the buffer, because larger ones misread without any error (`CopySoundIff`).
- Bitfield.Bitfield.constructor: `from_bytes` has no constructor of its own; the counting and bit laws hold for any bytes.
- Scheduler.PieceScheduler.NextRequest: the constant block bounds of the request are left out, as are `select_peer_for_piece` and `rarest_first`.
- Cache.CacheManager.Cleanup: the file deletions, the other cache operations and the product `max_size * 80` overflowing are left out.
- Concurrency: every operation is one step, in the order in which it takes its lock. The rate limiter reads the clock before its lock, which is why its requests carry their own times in any order; a lookup holds the table lock at its two ends only, and changes others make in between are not modelled.
- Peer wire protocol, handshake, connection pool, tracker client, NAT traversal, P2SP downloader, media stream, local gateway handlers, decoding, user interface and settings: flat state or foreign code.
