# Rochefort Java client: record framing

Rochefort is an append-only blob store. Its Java client (`Client.java`) talks to
the server over HTTP, and the part of it with real invariants is the binary
framing of the responses:

- **Batch get** (`getMulti`). A response body is a run of
  `[4-byte length][payload]` records. The client decodes it with a cursor loop
  into the list of payloads, in order. It fails on a zero length, on a length
  whose top bit is set (`new byte[len]` throws) and on a length that runs past
  the body (`System.arraycopy` throws, once `new byte[len]` has succeeded). It stops without error when fewer than
  four bytes remain, or when the cursor lands exactly on the end.
- **Scan** (`scan`). A long-lived stream of
  `[4-byte length][8-byte offset][payload]` records is read through a
  `DataInputStream`, a 12-byte header array and one payload buffer. The buffer
  starts at 65535 bytes. It is replaced by one of exactly `len` bytes only
  when it is too short, and it never shrinks. The consumer's
  `accept(buffer, len, offset)` is called once per record. When the stream
  ends before a complete header, the loop breaks and the scan ends without
  error. When the stream ends inside a payload, when a length is negative, or
  when `accept` throws, the exception reaches the outer `catch` and the scan
  fails. Calls already made stay made.
- **Endpoints** (`Client(URL)`). The constructor builds one prefix, made of
  `protocol://host[:port]` and the path, with a `/` added when the path lacks
  one. The four endpoint URLs are that prefix followed by `get`, `getMulti`,
  `append` and `scan`.

The project has four modules:

- `Wire` (`wire.dfy`) holds the fixed-width integers: `Util.aByteToInt` and
  `Util.abyteToLong` read them, and `Util.listOfLongsToBytes` writes a list of
  offsets.
- `BatchGet` (`batch_get.dfy`) holds the specification function
  `DecodeRecords`, the loop `GetMulti` proved equal to it, the encoder
  `EncodeRecords`, and the round trip in both directions.
- `ScanDecoder` (`scan.dfy`) holds the specification function `ScanFrom`. It
  also holds `Scan`, written over a `DataStream` object and two arrays as the
  Java loop is, and proved equal to `ScanFrom`. The rest of the module is the
  buffer rule, the consumer-call properties, and the round trip with the
  stream encoder `EncodeStream`.
- `Endpoints` (`endpoints.dfy`) holds the prefix and the `Client` constructor.

Modelling choices:

- **Byte order.** The source of `Util` is not part of this model. Its integers
  are taken to be big-endian two's complement, the order of
  `java.io.DataInputStream` and `java.nio.ByteBuffer`.
- **Lengths and offsets are signed.** A length is a Java `int` and an offset a
  Java `long`. A length with the top bit set is an error in both decoders, as
  the code makes it.
- **Inputs.** The response body is an `array<byte>`, with the status code next
  to it. The scan input is the whole `seq<byte>` the server sends before
  closing the connection.
- **The consumer** is a function of the calls it has already received and of
  the new call. It answers `false` where `accept` throws. Each call is
  recorded as an `Event`: the first `len` bytes of the buffer, `len`, the
  offset and the buffer's length.
- **Two behaviours of the code are worth noting**, and the model keeps both:
  - A stream that ends 1 to 11 bytes into a header ends the scan *without*
    error, because line 162 catches the `EOFException` of the partial
    `readFully` and breaks.
  - The scan does not reject a zero length: it calls `accept` with `len == 0`.
    Only `getMulti` rejects one.

## Model

| member | source | states |
|---|---|---|
| `Wire.ToBytes` | clients/java/src/main/java/nl/prymr/rochefort/Client.java:121 | the unsigned big-endian encoding of a value has the requested width and reads back as that value |
| `Wire.ToBytesFromBytes` | clients/java/src/main/java/nl/prymr/rochefort/Client.java:121 | re-encoding the value read from any bytes gives those bytes: reading a fixed width is one-to-one |
| `Wire.FromBytesFront` | clients/java/src/main/java/nl/prymr/rochefort/Client.java:121 | the first byte weighs 256^(width-1) in the value read |
| `Wire.SignedOf` | clients/java/src/main/java/nl/prymr/rochefort/Client.java:121 | a two's complement value lies in the signed range of its width and is non-negative exactly when it equals the unsigned value |
| `Wire.SignedBytes` | clients/java/src/main/java/nl/prymr/rochefort/Client.java:121 | every value in the signed range of a width has an encoding of that width that reads back as it |
| `Wire.SignedBytesOf` | clients/java/src/main/java/nl/prymr/rochefort/Client.java:121 | re-encoding a signed value read from any bytes gives those bytes |
| `Wire.SignedNegativeIffTopBit` | clients/java/src/main/java/nl/prymr/rochefort/Client.java:127 | a value read is negative exactly when the top bit of its first byte is set |
| `Wire.Int32At` | clients/java/src/main/java/nl/prymr/rochefort/Client.java:121 | `Util.aByteToInt`: the four bytes at a position read as a Java `int` |
| `Wire.Int64At` | clients/java/src/main/java/nl/prymr/rochefort/Client.java:166 | `Util.abyteToLong`: the eight bytes at a position read as a Java `long` |
| `Wire.Int32Bytes` | clients/java/src/main/java/nl/prymr/rochefort/Client.java:121 | a Java `int` is written as four bytes; `Wire.Int32RoundTrip` reads them back |
| `Wire.Int64Bytes` | clients/java/src/main/java/nl/prymr/rochefort/Client.java:166 | a Java `long` is written as eight bytes; `Wire.Int64RoundTrip` reads them back |
| `Wire.Int32RoundTrip` | clients/java/src/main/java/nl/prymr/rochefort/Client.java:121 | a written `int` reads back as itself wherever it stands in a byte string |
| `Wire.Int64RoundTrip` | clients/java/src/main/java/nl/prymr/rochefort/Client.java:166 | a written `long` reads back as itself wherever it stands in a byte string |
| `Wire.Int32BytesAt` | clients/java/src/main/java/nl/prymr/rochefort/Client.java:121 | any four bytes are the encoding of the `int` they read as |
| `Wire.Int64BytesAt` | clients/java/src/main/java/nl/prymr/rochefort/Client.java:166 | any eight bytes are the encoding of the `long` they read as |
| `Wire.Int32NegativeIffTopBit` | clients/java/src/main/java/nl/prymr/rochefort/Client.java:127 | a length read is negative exactly when its first byte is 128 or more |
| `Wire.FromBytesOfLastByte` | clients/java/src/main/java/nl/prymr/rochefort/Client.java:121 | leading zero bytes add nothing to the value read |
| `Wire.SmallValue` | clients/java/src/main/java/nl/prymr/rochefort/Client.java:165-166 | a field whose bytes are zero except a last byte below 128 reads as that last byte |
| `Wire.EncodeOffsets` | clients/java/src/main/java/nl/prymr/rochefort/Client.java:67-70 | `Util.listOfLongsToBytes`: eight bytes per offset |
| `Wire.DecodeOffsets` | clients/java/src/main/java/nl/prymr/rochefort/Client.java:67-70 | reading a request body back takes one `long` per eight bytes, all in the `long` range |
| `Wire.OffsetsRoundTrip` | clients/java/src/main/java/nl/prymr/rochefort/Client.java:67-70 | an encoded offset list reads back as the same offsets in the same order |
| `BatchGet.DecodeRecords` | clients/java/src/main/java/nl/prymr/rochefort/Client.java:118-133 | the decode as a function of the body: every payload it returns is non-empty and shorter than 2^31, and it never fails with a status error |
| `BatchGet.GetMulti` | clients/java/src/main/java/nl/prymr/rochefort/Client.java:101-134 | a status other than 200 fails with that status; otherwise the cursor loop returns exactly `DecodeRecords` of the body, payloads or failure |
| `BatchGet.DecodeEnd` | clients/java/src/main/java/nl/prymr/rochefort/Client.java:119 | fewer than four bytes left decode to no further payloads, without error |
| `BatchGet.DecodeFails` | clients/java/src/main/java/nl/prymr/rochefort/Client.java:121-128 | a zero, negative or overrunning length at the cursor fails the rest of the decode with the matching failure |
| `BatchGet.DecodeStep` | clients/java/src/main/java/nl/prymr/rochefort/Client.java:127-131 | a valid record at the cursor moves its payload onto the output list and the cursor past it, keeping the overall result |
| `BatchGet.DecodeAt` | clients/java/src/main/java/nl/prymr/rochefort/Client.java:119-132 | decoding from a record header anywhere in the body, case by case |
| `BatchGet.EncodeRecordsCons` | clients/java/src/main/java/nl/prymr/rochefort/Client.java:118-133 | the body of a payload list is its first record followed by the body of the rest |
| `BatchGet.DecodeRecord` | clients/java/src/main/java/nl/prymr/rochefort/Client.java:121-131 | a record written in front of any bytes decodes to its payload and carries on with those bytes |
| `BatchGet.DecodeAfterRecords` | clients/java/src/main/java/nl/prymr/rochefort/Client.java:118-133 | decoding runs through well-formed records in order and then carries on with whatever follows them |
| `BatchGet.DecodeEncodedRecords` | clients/java/src/main/java/nl/prymr/rochefort/Client.java:118-133 | decode after encode: non-empty payloads come back exactly, in order, also with fewer than four stray bytes after them; an empty body gives an empty list |
| `BatchGet.DecodeZeroLengthAfterRecords` | clients/java/src/main/java/nl/prymr/rochefort/Client.java:121-125 | a zero length fails the whole decode whatever valid records precede it; no partial list is returned |
| `BatchGet.DecodeOverrunAfterRecords` | clients/java/src/main/java/nl/prymr/rochefort/Client.java:127-128 | a length larger than the bytes after its header fails the decode instead of yielding a short payload |
| `BatchGet.DecodeNegativeAfterRecords` | clients/java/src/main/java/nl/prymr/rochefort/Client.java:121-127 | a length with its top bit set fails the decode |
| `BatchGet.DecodedBodyIsEncoding` | clients/java/src/main/java/nl/prymr/rochefort/Client.java:118-133 | encode after decode: a successful decode has read the encoding of the payloads it returns, followed by fewer than four bytes |
| `BatchGet.TwoRecordBody` | clients/java/src/main/java/nl/prymr/rochefort/Client.java:118-133 | the body `[0 0 0 3] "abc" [0 0 0 2] "xy"` decodes to `["abc", "xy"]` |
| `ScanDecoder.Grow` | clients/java/src/main/java/nl/prymr/rochefort/Client.java:167-169 | the buffer before a read is never smaller than before or than `len`, and differs from the old one only when that was too short, in which case it is exactly `len` long |
| `ScanDecoder.ScanFrom` | clients/java/src/main/java/nl/prymr/rochefort/Client.java:159-172 | the scan as a function of the remaining stream: the calls already made stay a prefix of the trace, and every call it adds has a `long` offset, a non-negative `int` length, exactly `len` payload bytes and a buffer that holds them |
| `ScanDecoder.DataStream.constructor` | clients/java/src/main/java/nl/prymr/rochefort/Client.java:157 | a stream over the response, with nothing consumed yet |
| `ScanDecoder.DataStream.ReadFully` | clients/java/src/main/java/nl/prymr/rochefort/Client.java:161 | `readFully(dst, 0, n)`: a negative `n` reads nothing and fails with an index error; too few bytes fail with end of stream and leave the stream at its end; otherwise the next `n` bytes land in `dst[0..n)` and the rest of `dst` is unchanged |
| `ScanDecoder.Scan` | clients/java/src/main/java/nl/prymr/rochefort/Client.java:155-184 | the Java loop over the header array and the reallocated buffer: its outcome and consumer trace are exactly `ScanStream` of the stream |
| `ScanDecoder.ScanStops` | clients/java/src/main/java/nl/prymr/rochefort/Client.java:160-164 | fewer than 12 bytes left, none or some, end the scan without error and without a call |
| `ScanDecoder.ScanFails` | clients/java/src/main/java/nl/prymr/rochefort/Client.java:170-184 | a negative length, or one that runs past the stream, ends the scan in the matching error with no new call |
| `ScanDecoder.HeaderFields` | clients/java/src/main/java/nl/prymr/rochefort/Client.java:165-166 | the length and offset read from the header array are those at the record's place in the stream |
| `ScanDecoder.ScanRecordStep` | clients/java/src/main/java/nl/prymr/rochefort/Client.java:165-171 | one complete record makes one call with its payload, length, offset and grown buffer; the scan continues after it if `accept` returns and fails with that call recorded if it throws |
| `ScanDecoder.ResizedOnDemandExtend` | clients/java/src/main/java/nl/prymr/rochefort/Client.java:167-169 | a call that saw the buffer grown on demand extends a trace that keeps the buffer rule |
| `ScanDecoder.ScanResizesOnDemand` | clients/java/src/main/java/nl/prymr/rochefort/Client.java:167-169 | every call a scan makes saw the previous buffer, replaced only when it was shorter than `len` |
| `ScanDecoder.NeverBelowInitial` | clients/java/src/main/java/nl/prymr/rochefort/Client.java:155-169 | under the buffer rule the buffer is never below its first size |
| `ScanDecoder.NeverShrinks` | clients/java/src/main/java/nl/prymr/rochefort/Client.java:167-169 | under the buffer rule the buffer never shrinks and always holds every record read so far |
| `ScanDecoder.SizedBySomeRecord` | clients/java/src/main/java/nl/prymr/rochefort/Client.java:167-169 | under the buffer rule the buffer is its first size or exactly as long as a record already read |
| `ScanDecoder.ResizedBufferBounds` | clients/java/src/main/java/nl/prymr/rochefort/Client.java:167-169 | the three consequences of the buffer rule, for all calls of a trace |
| `ScanDecoder.ScanBuffer` | clients/java/src/main/java/nl/prymr/rochefort/Client.java:155-171 | on every call of a whole scan the buffer is at least 65535 bytes and at least `len`, never smaller than on an earlier call, and either 65535 bytes or exactly as long as a record already read |
| `ScanDecoder.ScanConsumerCalls` | clients/java/src/main/java/nl/prymr/rochefort/Client.java:171-184 | every call returned normally except possibly the last, which threw exactly when the scan failed with a consumer error; the calls before it stay in the trace |
| `ScanDecoder.Deliveries` | clients/java/src/main/java/nl/prymr/rochefort/Client.java:171 | one call per record, with that record's payload, length and offset |
| `ScanDecoder.Frame` | clients/java/src/main/java/nl/prymr/rochefort/Client.java:161-170 | one written record is 12 header bytes followed by its payload |
| `ScanDecoder.ReadFrame` | clients/java/src/main/java/nl/prymr/rochefort/Client.java:165-170 | a header read back from a written record gives its length and offset, and its payload follows |
| `ScanDecoder.WriteFrame` | clients/java/src/main/java/nl/prymr/rochefort/Client.java:165-170 | a header and the payload it announces are the written form of the record they read as |
| `ScanDecoder.EncodeStreamCons` | clients/java/src/main/java/nl/prymr/rochefort/Client.java:159-172 | a written stream is its first record followed by the stream of the rest |
| `ScanDecoder.ScanFrame` | clients/java/src/main/java/nl/prymr/rochefort/Client.java:165-171 | with a consumer that never throws, one written record makes one call and the scan goes on after it |
| `ScanDecoder.ScanAfterRecords` | clients/java/src/main/java/nl/prymr/rochefort/Client.java:159-172 | with a consumer that never throws, a scan runs through well-formed records in order, one call each, and carries on with whatever follows them |
| `ScanDecoder.CapacityAfterCons` | clients/java/src/main/java/nl/prymr/rochefort/Client.java:167-169 | the buffer after a call followed by more calls is the buffer after those calls started from that call's buffer |
| `ScanDecoder.ScanEncodedStream` | clients/java/src/main/java/nl/prymr/rochefort/Client.java:159-172 | with a consumer that never throws, a written stream that ends on a record boundary or 1 to 11 bytes into a header ends without error after exactly one call per record, in order, each with its record's payload, length and offset |
| `ScanDecoder.ScanTruncatedPayload` | clients/java/src/main/java/nl/prymr/rochefort/Client.java:170-184 | with a consumer that never throws, a stream that ends inside a payload fails, after the calls for all records before it |
| `ScanDecoder.ScanNegativeLength` | clients/java/src/main/java/nl/prymr/rochefort/Client.java:167-184 | with a consumer that never throws, a length with its top bit set fails, after the calls for all records before it |
| `ScanDecoder.RecordsOf` | clients/java/src/main/java/nl/prymr/rochefort/Client.java:171 | the records a run of calls carried, one per call, each storable |
| `ScanDecoder.ScanDoneStep` | clients/java/src/main/java/nl/prymr/rochefort/Client.java:160-172 | a scan that ends without error and has a full header left reads a whole record there and accepts it |
| `ScanDecoder.ScanDoneReadRecords` | clients/java/src/main/java/nl/prymr/rochefort/Client.java:159-172 | conversely, a scan that ends without error has read the encoding of the records it delivered, followed by fewer than 12 bytes |
| `ScanDecoder.ScanReadRecords` | clients/java/src/main/java/nl/prymr/rochefort/Client.java:159-184 | for every outcome and every consumer, including one that throws, the calls a scan made carried the records written at the front of the stream, in stream order, each with its header's length and offset and the payload after it; a scan stopped by a negative or overrunning length has at least 12 bytes left after them |
| `ScanDecoder.ScanAcceptedRecord` | clients/java/src/main/java/nl/prymr/rochefort/Client.java:165-171 | a complete record that the consumer accepts moves the scan past it with that call recorded |
| `ScanDecoder.TwoRecordStream` | clients/java/src/main/java/nl/prymr/rochefort/Client.java:159-172 | with a consumer that never throws, the stream of `("Z", offset 10)` and `("hi", offset 20)` gives exactly those two calls, in order, and ends without error |
| `ScanDecoder.TwoRecordHeaders` | clients/java/src/main/java/nl/prymr/rochefort/Client.java:165-166 | the lengths and offsets read from the two headers of that stream |
| `ScanDecoder.SmallHeader` | clients/java/src/main/java/nl/prymr/rochefort/Client.java:165-166 | a header whose length and offset fit in their last bytes reads as those bytes |
| `Endpoints.Digits` | clients/java/src/main/java/nl/prymr/rochefort/Client.java:30 | the decimal digits of a port, at least one, without a leading zero |
| `Endpoints.DigitsRoundTrip` | clients/java/src/main/java/nl/prymr/rochefort/Client.java:30 | the digits of a number read back as that number |
| `Endpoints.IntString` | clients/java/src/main/java/nl/prymr/rochefort/Client.java:30 | Java's string form of an `int`, never empty |
| `Endpoints.IntStringRoundTrip` | clients/java/src/main/java/nl/prymr/rochefort/Client.java:30 | the port text reads back as the port, so different ports give different origins |
| `Endpoints.NegativeRoundTrip` | clients/java/src/main/java/nl/prymr/rochefort/Client.java:30 | a negative number's string reads back as that number |
| `Endpoints.Origin` | clients/java/src/main/java/nl/prymr/rochefort/Client.java:29-33 | `protocol://host` begins the origin, and the origin is longer than that exactly when the URL names a port |
| `Endpoints.Directory` | clients/java/src/main/java/nl/prymr/rochefort/Client.java:34-37 | the path made a directory ends in `/`, starts with the path, and is one character longer exactly when the path did not end in `/` |
| `Endpoints.Prefix` | clients/java/src/main/java/nl/prymr/rochefort/Client.java:27-37 | the prefix ends in `/`, starts with origin and path, and adds at most the one `/` |
| `Endpoints.DirectoryIdempotent` | clients/java/src/main/java/nl/prymr/rochefort/Client.java:35-37 | making a path a directory twice is the same as once |
| `Endpoints.PrefixOfNormalizedPath` | clients/java/src/main/java/nl/prymr/rochefort/Client.java:34-37 | a URL whose path already ends in `/` gives the same prefix |
| `Endpoints.PrefixSlash` | clients/java/src/main/java/nl/prymr/rochefort/Client.java:34-37 | a path ending in `/` is kept as it is, any other gets exactly one `/` appended |
| `Endpoints.Client.constructor` | clients/java/src/main/java/nl/prymr/rochefort/Client.java:26-43 | each of the four endpoint URLs is the prefix followed by `get`, `getMulti`, `append` or `scan` |
| `Endpoints.EndpointsDistinct` | clients/java/src/main/java/nl/prymr/rochefort/Client.java:39-42 | stripping the prefix from each endpoint URL gives back its name, and no two endpoints share a URL |

## Left out

- HTTP transport through Unirest and `HttpURLConnection` is left out, because it is network I/O in foreign libraries. `GetMulti` receives the status code and the whole body. `Scan` receives the whole stream.
- Status checks are modelled only as "any status but 200 fails `getMulti`". Exception message texts are left out. The scan's status (`getInputStream` throwing on an error response, `getResponseCode` in the `catch`) is left out too, because it is part of the transport.
- `get` and `append` are left out: an HTTP call and JSON parsing (`JsonNode`) in an unseen library.
- The source of `Util` is not part of this model. `Util.readFully` reads the whole body, which `GetMulti`'s `data` parameter stands for. `Util.convertStreamToString` only builds error messages. `Util.listOfLongsToBytes` is modelled as `EncodeOffsets`, big-endian by assumption.
- Connect and read timeouts are left out as settings. What a timeout causes is covered by the `ScanDecoder.Scan` line on read failures below.
- The `finally` block that closes the stream and disconnects is left out, because it is I/O.
- The overload delegations at lines 196-234 and `Client(String)` are left out. The delegations only default the namespace. `Client(String)` parses the text with `java.net.URL`, whose source is not part of this model.
- `ScanDecoder.Scan` records what `accept` can observe on each call: the first `len` buffer bytes, `len`, the offset and the buffer length. It leaves out the stale bytes after `len`, and any change the consumer makes to the buffer or a reference to it that the consumer keeps. The consumer's own state is modelled only through its view of earlier calls.
- `BatchGet.GetMulti` returns the payloads as values (`seq<seq<byte>>`), not as fresh `byte[]` arrays in an `ArrayList`. The list's capacity hint (`encodedListOfOffsets.length / 8`) has no observable effect.
- `BatchGet.GetMulti` moves its cursor with unbounded integers and does not model Java `int` wrap-around. The wrap can happen only for bodies of at least 2^31 - 4 bytes, which Java arrays can reach. Take a body of 2^31 - 3 bytes whose records end at offset 2^31 - 4. There, `offset + 4` on line 119 wraps negative, the check passes, and `aByteToInt` reads past the end and throws. The model returns the payloads read so far instead.
- `BatchGet.GetMulti` leaves out `OutOfMemoryError` from `new byte[len]` on line 127. That line runs before the bounds check of `System.arraycopy` on line 128. So a length the VM cannot allocate throws that error, where the model gives `PayloadOverrun` when the length runs past the body. On HotSpot, `Integer.MAX_VALUE` is always such a length.
- `ScanDecoder.Scan` leaves out `OutOfMemoryError` from `new byte[len]` for a huge `len`. It is not an `Exception`, so the `catch` would not wrap it.
- `ScanDecoder.Scan` leaves out read failures other than the end of the stream. Line 162 catches only `EOFException`. A reset connection, or the read timeout set on line 147, therefore fails the scan through the outer `catch`, even in the middle of a header. The model's input is a `seq<byte>`, which can only end. So it turns every cut-off stream into a clean end, when the cut falls within a header, or into `TruncatedPayload`, when it falls within a payload.
- `Endpoints.Url` admits any port. `java.net.URL` only produces -1 (no port) or a non-negative port.

