# AICS intent capture codec, modelled in Dafny

The AICS Java library records Android intents for later replay. Each captured
intent is an *intent packet*: a header and an intent data block (the
payload). There are three header kinds: activity, broadcast and service.
Headers and payloads are flattened into big-endian byte buffers.
`toByteBuffer()` writes them, and parsing constructors read them back.
An `AICSFile` holds the packets of one capture session together with a
fixed file header.

This project is a functional model of that codec:

- `wrappers.dfy`: `Option`, `Result` and the library's error kinds.
  - `BufferUnderflow`, `BufferOverflow`, `IndexOutOfBounds`,
    `IllegalArgument`, `Parse` and `NullPointer` stand for the Java
    exceptions of the same names.
- `byte_order.dfy`: bytes, Java's `int`/`short`/`byte` and their
  big-endian encodings.
  - 32-bit wrap-around (`Wrap32`).
  - The cursor readers behind `getInt`/`getShort`.
  - `ByteBuffer.allocate` followed by `put`s (`Allocate`).
  - The `At` relation: "these bytes sit at this position".
- `fields.dfy`: a length-prefixed field.
  - A string or blob paired with its declared size.
  - The `if (SIZE > 0) { ... get(temp) ... }` body blocks of every parser.
  - The "body only when the size is positive" rule of every writer.
- `intent_data.dfy`: `IntentData`, with its decoder, setters, `getSize` and
  `toByteBuffer`.
- `intent_header.dfy`: `IntentHeader` and the shared machinery of its three
  subclasses.
  - One datatype with a variant per kind.
  - `parseIntentType` and the common setters.
  - The shared layout, `getSize`, `toByteBuffer` and the parsing
    constructor.
- `activity_intent_header.dfy`, `broadcast_intent_header.dfy` and
  `service_intent_header.dfy`: each variant's default constructor, its own
  setters, and the tests' size and parser facts.
- `intent_packet.dfy`: `IntentPacket`.
- `aics_file.dfy`: `AICSFile`, a list of packets (null entries included), and the file header
  encoder.

Conventions:

- Objects are values. A Java setter that mutates and returns `this` becomes
  a function that returns the updated value.
- A setter that can throw returns a `Result`.
- A parsing constructor is a function `(bytes, cursor) -> Result<(value,
  new cursor)>`.
- The round trips are proved by uniqueness. The decoders state what they
  return in terms of `At` facts. Injectivity of the encodings then makes
  the decoded value equal the original one.
- Some wire values cannot come back as they were written:
  - a field whose size is 0 or negative comes back with no body, since
    `""` and null are indistinguishable on the wire;
  - a header comes back with its payload attached.

  `Normalize` names exactly what comes back.

The model follows the code as written where it departs from its
documentation:

- **Payload size.** `IntentData.getSize()` counts the seven fixed ints as
  `32 * 7 = 224` bytes, but only 28 are written. An encoding therefore ends
  in 196 zero bytes. The decoder stops before them
  (`IntentData.DecodeStopsBeforePadding`).
- **Int overflow.** `getSize()` is an `int` sum. The model wraps it to 32
  bits rather than assuming it cannot overflow.
- **parseIntentType underflow.** `parseIntentType` reads with an absolute
  `getShort(position + 6)`. Too short a buffer therefore gives
  `IndexOutOfBounds`, not the `BufferUnderflowException` its comment
  promises.
- **Broadcast payload cursor.** The broadcast parser decodes its payload
  from `buffer.slice()`. The outer cursor stops where the payload begins.
  The activity and service parsers advance the cursor past the payload.
- **IntentPacket.toByteBuffer.** Its second `put` copies from offset
  `headArray.length` of the payload's array. That range never fits, so the
  method never succeeds. The model says so.

## Model

| member | source | states |
|---|---|---|
| ByteOrder.Wrap32 | src/com/carteryagemann/AICS/IntentData.java:186-189 | The `int` a Java sum produces is the one congruent to the exact sum modulo 2^32 in the signed range, and is the exact sum when that fits |
| ByteOrder.Int32Of | src/com/carteryagemann/AICS/IntentData.java:65-71 | The `int` `getInt` assembles from four bytes is the one whose `putInt` encoding is exactly those bytes |
| ByteOrder.Int32BytesInjective | src/com/carteryagemann/AICS/IntentData.java:200-206 | Two ints with the same big-endian bytes are equal, so a `putInt` can be read back unambiguously |
| ByteOrder.Int16BytesInjective | src/com/carteryagemann/AICS/ActivityIntentHeader.java:162-163 | Two shorts with the same big-endian bytes are equal |
| ByteOrder.Int8Of | src/com/carteryagemann/AICS/AICSFile.java:159-160 | The signed value read from one byte is the value whose `put(byte)` wrote that byte |
| ByteOrder.ReadInt32 | src/com/carteryagemann/AICS/IntentData.java:65 | `getInt` succeeds exactly when four bytes remain, else underflows; the value read is the one whose encoding lies at the cursor, and the cursor moves by 4 |
| ByteOrder.ReadInt16 | src/com/carteryagemann/AICS/ActivityIntentHeader.java:72-73 | `getShort` succeeds exactly when two bytes remain, else underflows; the value's encoding lies at the cursor and the cursor moves by 2 |
| ByteOrder.ReadInt32Of | src/com/carteryagemann/AICS/ActivityIntentHeader.java:77-87 | Reading an int where `putInt(x)` was written yields `x` and moves the cursor past it |
| ByteOrder.ReadInt16Of | src/com/carteryagemann/AICS/ActivityIntentHeader.java:72-73 | Reading a short where `putShort(x)` was written yields `x` |
| ByteOrder.ReadInt32s | src/com/carteryagemann/AICS/IntentData.java:65-71 | A run of `getInt` calls underflows exactly when fewer than 4 bytes per int remain; otherwise it yields that many ints whose encodings lie back to back at the cursor |
| ByteOrder.ReadInt32sSequential | src/com/carteryagemann/AICS/IntentData.java:65-71 | The run is one `getInt` followed by the rest of the run, failing at the first underflow |
| ByteOrder.Int32sBytesInjective | src/com/carteryagemann/AICS/IntentData.java:200-206 | Equal-length runs of ints with the same encoding are equal |
| ByteOrder.ReadInt32sOf | src/com/carteryagemann/AICS/ActivityIntentHeader.java:77-87 | Reading a run of ints where their encodings were written returns exactly those ints |
| ByteOrder.Allocate | src/com/carteryagemann/AICS/IntentData.java:199-214 | `allocate(n)` followed by puts: a negative capacity is an `IllegalArgument`; writing more than the capacity overflows; otherwise the buffer is `n` bytes, the written bytes first and zeros after |
| ByteOrder.ZeroInts | src/com/carteryagemann/AICS/ActivityIntentHeader.java:41-55 | Every byte of a run of zero ints is zero |
| Fields.FromString | src/com/carteryagemann/AICS/ActivityIntentHeader.java:126-131 | A string setter stores the value; its size is the string's length, or 0 for null |
| Fields.FromBlob | src/com/carteryagemann/AICS/ActivityIntentHeader.java:140-144 | A byte-array setter dereferences its argument: null throws `NullPointerException`; otherwise the array is stored with its length as the size |
| Fields.Normalize | src/com/carteryagemann/AICS/IntentData.java:73-77 | What a parser rebuilds from a field: same size and same written bytes, with a body exactly when the size is positive |
| Fields.NormalizeRestores | src/com/carteryagemann/AICS/IntentData.java:73-77 | The rebuilt field has the original size, and the original body wherever the size is positive |
| Fields.ReadField | src/com/carteryagemann/AICS/IntentData.java:73-77 | A body block reads exactly `size` bytes when the size is positive, underflowing if fewer remain; any other size leaves the body null and consumes nothing |
| Fields.ReadFields | src/com/carteryagemann/AICS/IntentData.java:73-105 | The body blocks of a record underflow exactly when the positive sizes ask for more than remains; otherwise the fields carry the sizes read, have bodies only for positive sizes, and their bodies are the bytes at the cursor |
| Fields.ReadFieldsSequential | src/com/carteryagemann/AICS/IntentData.java:73-105 | Reading the blocks is one block followed by the rest, failing with the first block that fails |
| Fields.FieldsAtSpec | src/com/carteryagemann/AICS/IntentData.java:73-105 | The fields extracted for a list of sizes carry those sizes, are normal, and their bodies are the bytes at the cursor |
| Fields.ReadFieldsOf | src/com/carteryagemann/AICS/IntentData.java:73-105 | Reading body blocks where a list of fields was written returns those fields, normalized, and moves past their bodies |
| Fields.FieldsDetermined | src/com/carteryagemann/AICS/IntentData.java:73-105 | Normal fields are determined by their sizes and their written bodies |
| Fields.BodiesLength | src/com/carteryagemann/AICS/IntentData.java:209-214 | The bodies written take as many bytes as the positive sizes add up to |
| Fields.SizeSumBelowBodies | src/com/carteryagemann/AICS/IntentData.java:186-214 | The sum of the declared sizes never exceeds the bytes the bodies take, and falls short of them when a size is negative |
| Fields.SizeSumOfNonNegative | src/com/carteryagemann/AICS/IntentData.java:186-214 | With no negative size, the sum of the declared sizes is the bytes the bodies take |
| Fields.BodiesOfNormalized | src/com/carteryagemann/AICS/IntentData.java:209-214 | Normalizing fields changes neither their sizes nor the bytes written for them |
| IntentData.Encode | src/com/carteryagemann/AICS/IntentData.java:197-218 | `toByteBuffer` succeeds exactly when `getSize()` covers the 28 fixed bytes plus the bodies, otherwise failing with `IllegalArgument` or `BufferOverflow`; the buffer is `getSize()` bytes: flags at 0, the six sizes from 4 in field order, the positive-size bodies from 28, zeros after |
| IntentData.Decode | src/com/carteryagemann/AICS/IntentData.java:63-109 | The parser fails only with underflow, exactly when fewer than 28 bytes remain or the positive sizes ask for more than remains; on success the result's fixed part and bodies are the bytes read, it has bodies only for positive sizes, and the cursor sits just after the last body |
| IntentData.DecodeRejectsShortInput | src/com/carteryagemann/AICS/IntentData.java:63-71 | Fewer than 28 bytes after the cursor underflow |
| IntentData.DecodeOf | src/com/carteryagemann/AICS/IntentData.java:63-109 | Parsing where a payload's fixed part and bodies lie yields that payload, normalized, with the cursor after its bodies |
| IntentData.RoundTrip | src/com/carteryagemann/AICS/IntentData.java:63-109 | Parsing any bytes that contain a payload's encoding yields the payload normalized, whose `getSize()` is the encoding's length and which encodes identically |
| IntentData.DecodeStopsBeforePadding | src/com/carteryagemann/AICS/IntentData.java:63-109 | On its own encoding, the parser stops 196 bytes before the end: the padding `getSize()` over-counts is never read |
| IntentData.NormalizeKeepsEncoding | src/com/carteryagemann/AICS/IntentData.java:186-218 | Dropping bodies of non-positive fields changes neither `getSize()` nor the encoding |
| IntentData.Blank | src/com/carteryagemann/AICS/IntentData.java:44-55 | The default payload has flags 0 and every field null; it is well formed and `getSize()` is 224 |
| IntentData.GetSize | src/com/carteryagemann/AICS/IntentData.java:186-189 | With non-negative sizes and no overflow, `getSize()` is 224 plus the bytes of the six bodies |
| IntentData.SizeAfterSetters | src/com/carteryagemann/AICS/IntentData.java:121-189 | After setting the flags and the six fields on any payload, `getSize()` is 224 plus the six lengths, as an `int` |
| IntentData.TestSize | test/com/carteryagemann/AICS/IntentDataTest.java:254-275 | With fields of 35, 23, 35, 10, 100 and 100 bytes, `getSize()` is 527 |
| IntentData.WellFormedEncoding | src/com/carteryagemann/AICS/IntentData.java:197-218 | With non-negative sizes and no overflow, encoding succeeds and is 28 bytes, the bodies, then 196 zero bytes |
| IntentData.BlankEncodesToZeros | test/com/carteryagemann/AICS/IntentDataTest.java:78-82 | A default payload encodes to exactly 224 zero bytes |
| IntentData.ParserReadsBack | test/com/carteryagemann/AICS/IntentDataTest.java:47-69 | Parsing a payload's own encoding restores its flags and each of the six fields (bodies where the size is positive), and the parsed `getSize()` equals the encoding's length |
| IntentData.SetFlags | src/com/carteryagemann/AICS/IntentData.java:121-124 | Sets the flags; nothing else changes |
| IntentData.SetAction | src/com/carteryagemann/AICS/IntentData.java:126-131 | Stores the action, its size the length or 0 for null; nothing else changes |
| IntentData.SetData | src/com/carteryagemann/AICS/IntentData.java:133-138 | Stores the data URI, its size the length or 0 for null; nothing else changes |
| IntentData.SetCategory | src/com/carteryagemann/AICS/IntentData.java:140-145 | Stores the category, its size the length or 0 for null; nothing else changes |
| IntentData.SetType | src/com/carteryagemann/AICS/IntentData.java:147-152 | Stores the MIME type, its size the length or 0 for null; nothing else changes |
| IntentData.SetClipData | src/com/carteryagemann/AICS/IntentData.java:154-158 | Null throws `NullPointerException`; otherwise stores the clip data with its length; nothing else changes |
| IntentData.SetExtras | src/com/carteryagemann/AICS/IntentData.java:160-164 | Null throws `NullPointerException`; otherwise stores the extras with their length; nothing else changes |
| IntentHeader.ParseIntentType | src/com/carteryagemann/AICS/IntentHeader.java:59-71 | Succeeds exactly when 8 bytes follow the cursor and the short at cursor+6 is 0, 1 or 2; fails with `IndexOutOfBounds` when too short and `Parse` when out of range; the type returned is the short whose bytes lie at cursor+6, and the cursor is not an output |
| IntentHeader.ParseIntentTypeOf | src/com/carteryagemann/AICS/IntentHeader.java:59-71 | On bytes where a header is laid out, the type peek returns that header's type code |
| IntentHeader.TypeOfEncoding | test/com/carteryagemann/AICS/IntentHeaderTest.java:34-52 | On a header's encoding, the type peek returns its variant's constant |
| IntentHeader.Encode | src/com/carteryagemann/AICS/ActivityIntentHeader.java:157-184 | `toByteBuffer` succeeds exactly when `getSize()` covers the fixed part plus the bodies; the buffer is `getSize()` bytes holding timestamp, offset, type, the five ids, the variant's ints, the three sizes, the cached payload size, then the positive-size bodies, zeros after |
| IntentHeader.EncodingReads | src/com/carteryagemann/AICS/ActivityIntentHeader.java:160-180 | Reading an encoding back as int, short, short and a run of ints gives the timestamp, offset, type code and the header's ints in wire order, with the bodies after the fixed part |
| IntentHeader.GetSize | src/com/carteryagemann/AICS/ActivityIntentHeader.java:187-190 | With non-negative sizes and no overflow, `getSize()` is the fixed size (52, or 48 for a service) plus the bytes of the three bodies |
| IntentHeader.WellFormedEncoding | src/com/carteryagemann/AICS/ActivityIntentHeader.java:157-184 | With non-negative sizes and no overflow, encoding succeeds with exactly the fixed part and the bodies |
| IntentHeader.BlankEncoding | src/com/carteryagemann/AICS/ActivityIntentHeader.java:41-55 | A header as a default constructor leaves it encodes to its fixed size in zero bytes except the low byte of the type code |
| IntentHeader.DecodeRecord | src/com/carteryagemann/AICS/ActivityIntentHeader.java:70-104 | The header part of a parsing constructor fails only with underflow or `Parse`, and yields a header of the expected kind without payload |
| IntentHeader.DecodeRecordChecks | src/com/carteryagemann/AICS/ActivityIntentHeader.java:70-104 | The header part fails exactly when one of its checks does, with that check's error, in the code's order: too short for the prefix, wrong type, too short for the fixed part, negative payload size, bodies longer than what remains |
| IntentHeader.DecodedRecordLaidOut | src/com/carteryagemann/AICS/ActivityIntentHeader.java:70-104 | What the header part yields has a non-negative payload size, is laid out at the cursor, has bodies only for positive sizes, and the cursor is after its bodies |
| IntentHeader.Decode | src/com/carteryagemann/AICS/ActivityIntentHeader.java:68-109 | A parsing constructor fails only with underflow or `Parse`; on success the header has the expected kind and a payload attached |
| IntentHeader.DecodeFailsWithRecord | src/com/carteryagemann/AICS/ActivityIntentHeader.java:70-104 | When a header check fails, the parsing constructor fails with that error |
| IntentHeader.DecodeRejectsShortInput | src/com/carteryagemann/AICS/ActivityIntentHeader.java:71-73 | Fewer than 8 bytes after the cursor underflow, for every kind |
| IntentHeader.DecodeRejectsWrongType | src/com/carteryagemann/AICS/ActivityIntentHeader.java:73-76 | A header of one kind given to another kind's parser is rejected with `Parse` |
| IntentHeader.DecodeRejectsNegativeDataSize | src/com/carteryagemann/AICS/ActivityIntentHeader.java:87-90 | A negative cached payload size is rejected with `Parse` |
| IntentHeader.RecordOf | src/com/carteryagemann/AICS/ActivityIntentHeader.java:70-104 | Where a header with a non-negative payload size is laid out, the header part yields it normalized and without payload, the cursor after its bodies |
| IntentHeader.DataOf | src/com/carteryagemann/AICS/BroadcastIntentHeader.java:106 | The payload after a header is read from a slice for a broadcast and from the same cursor for the other kinds, yielding the payload normalized |
| IntentHeader.DecodeOf | src/com/carteryagemann/AICS/ActivityIntentHeader.java:68-109 | Where a header and a payload lie back to back, a parsing constructor yields the header normalized with the payload normalized attached, the cursor where its variant leaves it |
| IntentHeader.RoundTrip | src/com/carteryagemann/AICS/ActivityIntentHeader.java:68-109 | Parsing bytes holding a header's encoding followed by a payload's yields the normalized header with the normalized payload, and the normalized header encodes identically; no condition is put on the offset, which the parsers never range-check |
| IntentHeader.NormalizeKeepsEncoding | src/com/carteryagemann/AICS/ActivityIntentHeader.java:157-190 | Dropping bodies of non-positive fields changes neither `getSize()` nor the encoding |
| IntentHeader.StreamRoundTrip | src/com/carteryagemann/AICS/ActivityIntentHeader.java:68-109 | A well-formed header's encoding followed by a well-formed payload's parses back to both, normalized, and both re-encode identically |
| IntentHeader.StreamReadsBack | test/com/carteryagemann/AICS/ActivityIntentHeaderTest.java:299-362 | Parsing such a stream restores the kind, every common member but the payload, the variant's ints and the three fields, and the attached payload encodes as the original |
| IntentHeader.SetTimestamp | src/com/carteryagemann/AICS/IntentHeader.java:101-104 | Sets the timestamp; nothing else changes |
| IntentHeader.SetOffset | src/com/carteryagemann/AICS/IntentHeader.java:114-118 | Accepts exactly 0..999 and sets the offset, changing nothing else; any other value is an `IllegalArgument` |
| IntentHeader.SetCallerUid | src/com/carteryagemann/AICS/IntentHeader.java:120-123 | Sets the caller uid; nothing else changes |
| IntentHeader.SetCallerPid | src/com/carteryagemann/AICS/IntentHeader.java:125-128 | Sets the caller pid; nothing else changes |
| IntentHeader.SetReceiverUid | src/com/carteryagemann/AICS/IntentHeader.java:130-133 | Sets the receiver uid; nothing else changes |
| IntentHeader.SetReceiverPid | src/com/carteryagemann/AICS/IntentHeader.java:135-138 | Sets the receiver pid; nothing else changes |
| IntentHeader.SetUserId | src/com/carteryagemann/AICS/IntentHeader.java:140-143 | Sets the user id; nothing else changes |
| IntentHeader.SetIntentData | src/com/carteryagemann/AICS/IntentHeader.java:145-150 | Stores the payload and caches its `getSize()`, or 0 for null; nothing else changes |
| IntentHeader.SetIntentDataSize | src/com/carteryagemann/AICS/IntentHeader.java:145-150 | For a well-formed payload the cached size is non-negative and is the length of the payload's encoding |
| IntentHeader.SameShapeEncoding | src/com/carteryagemann/AICS/IntentHeader.java:101-150 | Setters of common members leave `getSize()` and the encoding's length as they were |
| ActivityIntentHeader.New | src/com/carteryagemann/AICS/ActivityIntentHeader.java:38-55 | The default activity header has every id and int zero and all three fields null; it is well formed, `getSize()` is 52 and the type is 0 |
| ActivityIntentHeader.NewEncoding | src/com/carteryagemann/AICS/ActivityIntentHeader.java:41-55 | The default activity header encodes to 52 zero bytes and peeks as an activity |
| ActivityIntentHeader.SetRequestCode | src/com/carteryagemann/AICS/ActivityIntentHeader.java:116-119 | Sets the request code; common members, start flags and fields unchanged |
| ActivityIntentHeader.SetStartFlags | src/com/carteryagemann/AICS/ActivityIntentHeader.java:121-124 | Sets the start flags; common members, request code and fields unchanged |
| ActivityIntentHeader.SetReceiverComponent | src/com/carteryagemann/AICS/ActivityIntentHeader.java:126-131 | Stores the receiver component, size its length or 0 for null; everything else unchanged |
| ActivityIntentHeader.SetCallerComponent | src/com/carteryagemann/AICS/ActivityIntentHeader.java:133-138 | Stores the caller component, size its length or 0 for null; everything else unchanged |
| ActivityIntentHeader.SetOptions | src/com/carteryagemann/AICS/ActivityIntentHeader.java:140-144 | Null throws `NullPointerException`; otherwise stores the options with their length; everything else unchanged |
| ActivityIntentHeader.SizeAfterSetters | src/com/carteryagemann/AICS/ActivityIntentHeader.java:187-190 | After setting the three fields, `getSize()` is 52 plus their lengths |
| ActivityIntentHeader.TestSize | test/com/carteryagemann/AICS/ActivityIntentHeaderTest.java:276-292 | With fields of 13, 11 and 3 bytes, `getSize()` is 79 |
| ActivityIntentHeader.ParserReadsBack | test/com/carteryagemann/AICS/ActivityIntentHeaderTest.java:299-362 | Parsing an activity header's encoding followed by a payload's restores every getter's value, type 0, and a payload that re-encodes identically |
| BroadcastIntentHeader.New | src/com/carteryagemann/AICS/BroadcastIntentHeader.java:41-55 | The default broadcast header has every id and int zero and all three fields null; it is well formed, `getSize()` is 52 and the type is 1 |
| BroadcastIntentHeader.NewEncoding | src/com/carteryagemann/AICS/BroadcastIntentHeader.java:41-55 | The default broadcast header encodes to zero bytes except type byte 1 and peeks as a broadcast |
| BroadcastIntentHeader.SetRequestCode | src/com/carteryagemann/AICS/BroadcastIntentHeader.java:117-120 | Sets the request code; common members, flags and fields unchanged |
| BroadcastIntentHeader.SetFlags | src/com/carteryagemann/AICS/BroadcastIntentHeader.java:122-125 | Sets the flags; common members, request code and fields unchanged |
| BroadcastIntentHeader.SetReceiverComponent | src/com/carteryagemann/AICS/BroadcastIntentHeader.java:127-132 | Stores the receiver component, size its length or 0 for null; everything else unchanged |
| BroadcastIntentHeader.SetCallerComponent | src/com/carteryagemann/AICS/BroadcastIntentHeader.java:134-139 | Stores the caller component, size its length or 0 for null; everything else unchanged |
| BroadcastIntentHeader.SetRequiredPermission | src/com/carteryagemann/AICS/BroadcastIntentHeader.java:141-146 | Stores the required permission, size its length or 0 for null; everything else unchanged |
| BroadcastIntentHeader.SizeAfterSetters | src/com/carteryagemann/AICS/BroadcastIntentHeader.java:190-193 | After setting the three fields, `getSize()` is 52 plus their lengths |
| BroadcastIntentHeader.TestSize | test/com/carteryagemann/AICS/BroadcastIntentHeaderTest.java:292 | With fields of 13, 11 and 27 bytes, `getSize()` is 103 |
| BroadcastIntentHeader.ParserReadsBack | test/com/carteryagemann/AICS/BroadcastIntentHeaderTest.java:330-361 | Parsing a broadcast header's encoding followed by a payload's restores every getter's value, type 1, a payload that re-encodes identically, and leaves the cursor at the end of the header |
| ServiceIntentHeader.New | src/com/carteryagemann/AICS/ServiceIntentHeader.java:40-53 | The default service header has every id and int zero and all three fields null; it is well formed, `getSize()` is 48 and the type is 2 |
| ServiceIntentHeader.NewEncoding | src/com/carteryagemann/AICS/ServiceIntentHeader.java:40-53 | The default service header encodes to zero bytes except type byte 2 and peeks as a service |
| ServiceIntentHeader.SetFlags | src/com/carteryagemann/AICS/ServiceIntentHeader.java:114-117 | Sets the flags; common members and fields unchanged |
| ServiceIntentHeader.SetReceiverComponent | src/com/carteryagemann/AICS/ServiceIntentHeader.java:119-124 | Stores the receiver component, size its length or 0 for null; everything else unchanged |
| ServiceIntentHeader.SetCallerComponent | src/com/carteryagemann/AICS/ServiceIntentHeader.java:126-131 | Stores the caller component, size its length or 0 for null; everything else unchanged |
| ServiceIntentHeader.SetAction | src/com/carteryagemann/AICS/ServiceIntentHeader.java:133-138 | Stores the action, size its length or 0 for null; everything else unchanged |
| ServiceIntentHeader.SizeAfterSetters | src/com/carteryagemann/AICS/ServiceIntentHeader.java:178-181 | After setting the three fields, `getSize()` is 48 plus their lengths |
| ServiceIntentHeader.TestSize | test/com/carteryagemann/AICS/ServiceIntentHeaderTest.java:277 | With fields of 13, 11 and 4 bytes, `getSize()` is 76 |
| ServiceIntentHeader.ParserReadsBack | test/com/carteryagemann/AICS/ServiceIntentHeaderTest.java:313-342 | Parsing a service header's encoding followed by a payload's restores every getter's value, type 2, and a payload that re-encodes identically |
| IntentPacket.New | src/com/carteryagemann/AICS/IntentPacket.java:39-42 | The constructor stores both parts as given, null included; `getHeader()` and `getData()` return them |
| IntentPacket.SetHeader | src/com/carteryagemann/AICS/IntentPacket.java:51-56 | Null throws `NullPointerException`; otherwise only the header is replaced |
| IntentPacket.SetData | src/com/carteryagemann/AICS/IntentPacket.java:65-69 | Null throws `NullPointerException`; otherwise only the payload is replaced |
| IntentPacket.SettersCommute | src/com/carteryagemann/AICS/IntentPacket.java:51-69 | Setting a header and a payload in either order gives the packet built from those two |
| IntentPacket.ToByteBuffer | src/com/carteryagemann/AICS/IntentPacket.java:81-88 | Never succeeds: a null part or a failing part encoder fails, and otherwise the allocation or the second `put` throws |
| IntentPacket.ToByteBufferAlwaysOutOfBounds | src/com/carteryagemann/AICS/IntentPacket.java:85-87 | When both parts encode and their total fits an `int`, the second `put` reads past the payload's array: `IndexOutOfBounds` |
| IntentPacket.WellFormedPacketFails | src/com/carteryagemann/AICS/IntentPacket.java:81-88 | A packet of a well-formed header and payload fails with `IndexOutOfBounds`, or with `IllegalArgument` when their sizes overflow an `int` |
| AicsFile.New | src/com/carteryagemann/AICS/AICSFile.java:56-59 | A new file has no intents and keeps the Android major, minor and patch versions given |
| AicsFile.AppendIntent | src/com/carteryagemann/AICS/AICSFile.java:67-69 | Size grows by one, the packet (or null, which the list accepts) is last, earlier entries and the file header are unchanged |
| AicsFile.GetIntent | src/com/carteryagemann/AICS/AICSFile.java:77-79 | Returns the entry at the index, a packet or null, exactly when it is inside the list; any other index is `IndexOutOfBounds` |
| AicsFile.ClearIntents | src/com/carteryagemann/AICS/AICSFile.java:84-86 | Leaves no intents and the file header unchanged |
| AicsFile.Size | src/com/carteryagemann/AICS/AICSFile.java:93-95 | The size counts every entry, nulls included, and the indices `getIntent` accepts are exactly 0 to size - 1 |
| AicsFile.AppendThenGet | src/com/carteryagemann/AICS/AICSFile.java:67-79 | After an append, the old size's index holds the packet and every other index reads as before |
| AicsFile.AppendAllThenGet | src/com/carteryagemann/AICS/AICSFile.java:67-69 | Appending a list of packets puts the i-th at the old size plus i and keeps the earlier packets |
| AicsFile.ClearThenGet | src/com/carteryagemann/AICS/AICSFile.java:77-86 | After clearing, every index is out of bounds |
| AicsFile.EncodeFileHeader | src/com/carteryagemann/AICS/AICSFile.java:152-160 | The file header is a 96-byte buffer whose first 12 bytes are written and the rest zero, with the position left at 12 |
| AicsFile.MagicBytes | src/com/carteryagemann/AICS/AICSFile.java:124 | The magic number is written as the bytes A1 B2 C3 D4 |
| AicsFile.FileHeaderLayout | src/com/carteryagemann/AICS/AICSFile.java:152-160 | The file header is the magic, format version 0.1, the Android major as a short, minor and patch as bytes, then 84 zero bytes |
| AicsFile.FileHeaderReadsBack | src/com/carteryagemann/AICS/AICSFile.java:152-160 | Reading the file header back as an int, a short and two signed bytes yields the magic and the Android major, minor and patch versions |

## Left out

- `AICSFile.readFromFile` and `AICSFile.writeToFile` are stubs that only print to the error stream. They are file I/O and are not modelled.
- There is no whole-file encoder or decoder in `AICSFile`. The file tests call methods the class does not have (`toByteBuffer`, `readFromBuffer`, `readFromArray`), so there is nothing to model there.
- Character sets are not modelled. Strings are their bytes, so `String.length()` and `getBytes().length` agree, as for ASCII. A decoded string is the bytes read.
- Object identity and aliasing are not modelled; objects are values.
  - Setters return the updated value instead of `this`.
  - `IntentHeader.SetIntentData` caches the payload's size at call time. A later change to the payload is a new value, so the stale-cache situation of the Java code cannot arise in the model.
- Several Java exceptions collapse into one error kind.
  - `ParseException` becomes `Parse`, `BufferUnderflowException` becomes `BufferUnderflow`, and so on.
  - Exception messages and the position a `ParseException` reports are not modelled.
- The cursor after a failed parse is not modelled; only the error is.
- The `byte[]` overloads of the parsing constructors and of `parseIntentType` only wrap the array in a buffer. They are the same functions at cursor 0.
- Getters are the datatypes' destructors and have no members of their own: `getHeader()` is `Packet.header`, `getAction()` is `Payload.action.body`, and so on.
- `IntentHeader.SetOffset`: on a rejected offset the model returns the error and no header. The caller still holds the unchanged original, which is what the Java code leaves.
- `AicsFile.Size` is a `nat`. An `ArrayList` of more than 2^31 - 1 packets is not modelled.
- `IntentHeader.WellFormed` and `IntentData.WellFormed` require the sizes to be non-negative and the total to fit an `int`. The round-trip lemmas and the size-equals-length lemmas assume this. Headers with negative sizes, which only a parser can produce, are covered by the general `RoundTrip` lemmas and the `Encode` contracts instead.
- `Fields.FromBlob`: on a null array the Java byte-array setters store the null before they read its length, so after the `NullPointerException` the object holds a null body next to the size it had before. The model returns only the error; the caller keeps the unchanged original. The `Field` type pairs every body with its size, so a null body with a positive size cannot be represented.
- `IntentData.SetClipData`: `setClipData(null)` leaves `CLIPDATA` null with the old `CLIPDATA_SIZE` (IntentData.java lines 155-156). After `setClipData` of 3 bytes and then `setClipData(null)`, the size is still 3, and a later `toByteBuffer()` throws `NullPointerException` at the clip-data `put`. The model keeps the state before the failed call instead.
- `IntentData.SetExtras`: `setExtras(null)` leaves `EXTRAS` null with the old `EXTRAS_SIZE` (IntentData.java lines 161-162), with the same consequence for a later `toByteBuffer()`. The model keeps the state before the failed call instead.
- `ActivityIntentHeader.SetOptions`: `setOptions(null)` leaves `OPTIONS` null with the old `OPTIONS_SIZE` (ActivityIntentHeader.java lines 141-142), with the same consequence for a later `toByteBuffer()`. The model keeps the state before the failed call instead.
- `IntentData.Encode` and `IntentHeader.Encode` do not model the `NullPointerException` that a positive size with a null body causes. The Java code reaches that state only through a byte-array setter given null, as described above. The `Field` type pairs every body with its size, so that state cannot be built in the model.
- Test-only code is not modelled: console output and random test data.
