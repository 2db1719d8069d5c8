# Nordic serial DFU host: a verified model

This project models the host side of the Nordic Semiconductor serial Device
Firmware Update (DFU) client. The client pushes firmware to an nRF bootloader over
a serial line. It covers four parts of the client:

- **SLIP framing.** `SlipConstants`, `SlipEncoder` and `SlipDecoder` model the
  RFC 1055 octet stuffing that delimits every message on the line. The
  encoder works on a growable array. The decoder is a class with a growable
  message buffer, kept across arbitrarily chunked input.
- **The DFU error codes.** `DfuErrors` holds the code catalogs and the message lookup.
  `DfuExceptionExtensions` holds the "check the exception slot before and after an
  awaited call" helpers.
- **The chunked object transfer.** `DfuAbstractTransport` models the transfer over an
  abstract device. The steps are: select, resume from the offset and checksum the
  device reports, create each chunk, write it, request its checksum, execute it, and
  retry a chunk up to five times. The transfer is stated as functions that mirror the
  source's recursions, and a class whose methods are proved equal to them.
  `DfuTransferProperties` proves what a successful transfer guarantees.
  `DfuTransferReference` proves which commands the transfer issues, compared with an
  independent description.
- **The serial transport and the operation.** `DfuTransportPrn` holds the packet
  parsing and the wire layouts. `DfuTransportSerial` is the stateful transport: the
  packet slot, the ready handshake, the MTU, and writes split into MTU-sized pieces
  with the packet receive notification (PRN) checksum every `prn` pieces.
  `DfuOperation` runs the updates in order and stops at the first failure.

`Crc32` supplies the checksum and its continuation law. The CRC-32 implementation
the client calls is not part of this model. The standard reflected CRC-32
(polynomial 0xEDB88320, initial and final XOR 0xFFFFFFFF) is defined here
instead. The resume and PRN logic depend only on its continuation law,
`Crc(a + b, s) == Crc(b, Crc(a, s))`, which is proved here rather than assumed.

The model follows the code in these behaviours, which a reader of the method names
might not expect:

- **The PRN counter starts again on every write.** `WriteObject` starts it at 0
  (`src/DfuTransportPrn.cs:276`), so it is not carried across chunks.
- **A retried chunk is created with size `end - start`.** `newStart` is the chunk's
  boundary (`src/DfuAbstractTransport.cs:235`), so the size is not computed from it.
  The subtraction is unsigned and wraps.
- **A device error response never reaches a waiting `Read`.** `OnData` throws on
  it, and on a second packet while one is unread, before it signals the waiter
  (`src/DfuTransportPrn.cs:160-172`). The exception goes through the SLIP decoder's
  `HandleEnd` (`src/util/SLIPDecoder.cs:142`) and `DecodeBytes` into the serial
  port's `async void` data handler (`src/DfuTransportSerial.cs:187-200`), which has
  no `catch`, so it is an unhandled exception. The waiting `Read` is never
  signalled and times out. The model keeps the timeout and leaves the unhandled
  exception out; see `ErrorResponseTimesOut`.
- **`Parse` of a one- or two-byte packet that starts with 0x60 faults with an
  index out of range.** It does not fail with a DFU error code. The model returns
  `OutOfRange`.
- **Failed writes and checksum requests are not retried.** A `WriteObject` or
  `CrcObject` failure propagates. Only a failed check of the reported offset or
  checksum triggers a retry.
- **A failed `Ready` leaves the transport stuck.** `_isGettingReady` stays set after
  a failure, so every later `Ready` waits forever on a flag nobody sets. The model
  returns `Diverges` for such a call (`DfuTransportSerial.SerialTransport.Ready`).

## Model

| member | source | states |
|---|---|---|
| SlipConstants.EscapeCode | src/util/SLIPEncoder.cs:44-59 | the code that follows ESC for a reserved octet is never itself END or ESC |
| SlipConstants.ConstantsDistinct | src/util/SLIPConstants.cs:17-20 | END, ESC, ESC_END and ESC_ESC are 0xC0, 0xDB, 0xDC and 0xDD, as RFC 1055 fixes them, and pairwise distinct |
| SlipConstants.UnescapeEscapeCode | src/util/SLIPDecoder.cs:69-79 | the decoder's un-escaping inverts the encoder's escaping, and the escape code determines the reserved octet |
| SlipEncoder.EscapeByte | src/util/SLIPEncoder.cs:44-59 | each input byte becomes one or two octets |
| SlipEncoder.InitialCapacity | src/util/SLIPEncoder.cs:28-30 | the first buffer holds the message plus the opening END and is a multiple of four bytes |
| SlipEncoder.Grow | src/util/SLIPEncoder.cs:36-42 | the grown buffer is a new array of twice the length that keeps every byte written so far |
| SlipEncoder.PutEscaped | src/util/SLIPEncoder.cs:44-59 | the written prefix is extended by exactly the escape of the byte, and the index moves past it |
| SlipEncoder.Encode | src/util/SLIPEncoder.cs:26-64 | the result is the frame: END, every byte escaped in order, END, and nothing else (every array write is in bounds) |
| SlipEncoder.EscapedAppend | src/util/SLIPEncoder.cs:44-59 | escaping a concatenation is the concatenation of the escapings |
| SlipEncoder.FramedLength | src/util/SLIPEncoder.cs:26-64 | a frame is the message length plus two delimiters plus one octet per reserved byte |
| SlipEncoder.EscapedHasNoEnd | src/util/SLIPEncoder.cs:44-59 | an escaped body never contains END |
| SlipEncoder.FramedDelimited | src/util/SLIPEncoder.cs:33-63 | a frame starts and ends with END and has no END in between |
| SlipEncoder.FramedEmpty | src/util/SLIPEncoder.cs:26-64 | the empty message is framed as two ENDs |
| SlipEncoder.FramedSingle | src/util/SLIPEncoder.cs:44-59 | END becomes ESC ESC_END, ESC becomes ESC ESC_ESC, any other byte is sent as it is |
| SlipDecoder.Initial | src/util/SLIPDecoder.cs:38-52 | a new decoder has a buffer of the configured size, index zero and no pending escape |
| SlipDecoder.AddByteSpec | src/util/SLIPDecoder.cs:119-132 | storing a byte puts it at the index, keeps the earlier bytes, doubles a full buffer, and reports more-room exactly when the buffer is below the maximum message size |
| SlipDecoder.Overflowed | src/util/SLIPDecoder.cs:106-116 | after a size-limit error the index and escape are cleared; as written the grown buffer is kept, with the corrected handling the decoder is as new |
| SlipDecoder.HandleEndSpec | src/util/SLIPDecoder.cs:135-149 | an END with nothing stored delivers nothing and returns null; otherwise it delivers the stored bytes and returns them; either way the index restarts |
| SlipDecoder.Step | src/util/SLIPDecoder.cs:67-100 | one input byte keeps the decoder state well formed (index within the buffer) |
| SlipDecoder.Feed | src/util/SLIPDecoder.cs:61-104 | any input keeps the decoder state well formed |
| SlipDecoder.SlipDecoder.constructor | src/util/SLIPDecoder.cs:38-52 | the new decoder is in the initial state for its configuration, with no callbacks made |
| SlipDecoder.SlipDecoder.AddByte | src/util/SLIPDecoder.cs:119-132 | the in-place buffer update follows the value-level store |
| SlipDecoder.SlipDecoder.HandleMessageMaxError | src/util/SLIPDecoder.cs:106-116 | reports the whole buffer to the error callback and resets the index as written |
| SlipDecoder.SlipDecoder.HandleEnd | src/util/SLIPDecoder.cs:135-149 | the in-place end of message follows the value-level one |
| SlipDecoder.SlipDecoder.DecodeBytes | src/util/SLIPDecoder.cs:61-104 | a call on a chunk leaves the state, callbacks and return value that the value-level decoding of that chunk gives |
| SlipDecoder.FeedAppend | src/util/SLIPDecoder.cs:61-104 | decoding a + b is decoding b after a |
| SlipDecoder.FeedIgnoresLast | src/util/SLIPDecoder.cs:61-104 | what a call returns does not influence later decoding |
| SlipDecoder.ChunkingInvariant | src/util/SLIPDecoder.cs:29-36 | splitting the input over two calls delivers the same messages and leaves the same state as one call |
| SlipDecoder.FeedEscapeByte | src/util/SLIPDecoder.cs:69-100 | decoding the escape of a byte stores exactly that byte |
| SlipDecoder.FeedEscaped | src/util/SLIPDecoder.cs:61-104 | decoding an escaped body stores exactly the body, without overflow while it fits |
| SlipDecoder.RoundTrip | src/util/SLIPDecoder.cs:61-104 | decoding the encoder's frame of a non-empty message that fits delivers exactly that message once, returns it, and leaves the decoder between frames |
| SlipDecoder.RoundTripWithoutLeadingEnd | src/DfuTransportSerial.cs:100-104 | the frame with its opening END stripped, as the serial transport sends it, decodes the same way |
| SlipDecoder.RoundTripEmpty | src/util/SLIPDecoder.cs:135-140 | the frame of the empty message delivers nothing and returns null |
| SlipDecoder.EscapedEndIsData | src/util/SLIPDecoder.cs:69-79 | an END that follows ESC is stored as data and does not end the message |
| SlipDecoder.BufferNeverShrinks | src/util/SLIPDecoder.cs:106-131 | as written no input makes the buffer smaller |
| SlipDecoder.OverflowIsPermanent | src/util/SLIPDecoder.cs:106-131 | as written, once the buffer has reached the maximum size every stored byte is an overflow and no message is delivered again |
| SlipDecoder.OverflowSteps | src/util/SLIPDecoder.cs:96-100 | with a 1-byte buffer and a 2-byte maximum, the message [1, 2] grows the buffer to 2 and reports an overflow |
| SlipDecoder.OverflowLosesNextFrame | src/util/SLIPDecoder.cs:106-116 | as written, after that overflow even the one-byte message [3] is never delivered |
| SlipDecoder.OnlyOverflowsAfter | src/util/SLIPDecoder.cs:106-131 | as written, from a full buffer any input produces only overflow reports |
| SlipDecoder.StepPrefixLog | src/util/SLIPDecoder.cs:61-104 | one byte only appends to the callback log, independently of what was logged |
| SlipDecoder.FeedPrefixLog | src/util/SLIPDecoder.cs:61-104 | any input only appends to the callback log, independently of what was logged |
| SlipDecoder.OverflowResynchronises | src/util/SLIPDecoder.cs:106-116 | with the corrected handling, the next frame that fits after an overflow is delivered |
| Common.Min | src/DfuTransportPrn.cs:284 | the smaller of two values |
| Common.Take | src/DfuAbstractTransport.cs:99 | `Take(n)` is the first n bytes, all of them when n is larger, none when n is not positive |
| Common.U32Add | src/DfuTransportPrn.cs:288 | unsigned 32-bit addition wraps modulo 2^32 |
| Common.U32Sub | src/DfuAbstractTransport.cs:235 | unsigned 32-bit subtraction wraps modulo 2^32 |
| Common.LE32Signed | src/DfuTransportSerial.cs:275-281 | a 32-bit little-endian field read as a signed value is in the int range, negative exactly when the top bit is set, and agrees with the unsigned reading modulo 2^32 |
| Common.ToLE32 | src/DfuTransportPrn.cs:262-265 | a 32-bit value is laid out as four bytes |
| Common.LE32OfToLE32 | src/DfuTransportPrn.cs:329-330 | reading a laid-out 32-bit field back gives the value, at any position |
| Crc32.CrcAppend | src/DfuTransportPrn.cs:289 | the checksum of a + b is the checksum of b seeded with the checksum of a |
| Crc32.CrcNoSeed | src/DfuAbstractTransport.cs:233 | no seed is the same as a zero seed |
| Crc32.CrcEmpty | src/DfuAbstractTransport.cs:99 | the checksum of nothing is the seed |
| Crc32.CrcExtend | src/DfuAbstractTransport.cs:193-194 | a slice seeded with the checksum of everything before it gives the checksum of the whole prefix |
| DfuErrors.CatalogOf | src/DfuException.cs:124-138 | categories 0, 1 and 2 have a message catalog, no other category does |
| DfuErrors.Lookup | src/DfuException.cs:213-220 | a catalog yields an entry exactly for the codes it declares, and that entry is for the code asked |
| DfuErrors.GetErrorMessage | src/DfuException.cs:277-311 | a message exists exactly for codes below 0x300; the code's high byte selects the catalog, and an entry is found exactly when the catalog declares the code |
| DfuErrors.NewDfuException | src/DfuException.cs:269-273 | an exception can be built exactly for codes below 0x300; it keeps its code, and the detail text exactly when it is not blank |
| DfuErrors.DeclaredCodesConstruct | src/DfuException.cs:49-118 | every declared code builds an exception; all but 0x101 and 0x10B have a message entry |
| DfuErrors.GeneralCatalogRange | src/DfuException.cs:145-171 | the general catalog holds only category-0 codes |
| DfuErrors.ResponseCatalogRange | src/DfuException.cs:195-211 | the response catalog holds only category-1 codes, never SUCCESS or EXT_ERROR |
| DfuErrors.ResponseCatalogKeys | src/DfuException.cs:195-211 | the response catalog holds exactly the codes up to 0x10A except 0x101, 0x106 and 0x109 |
| DfuErrors.ExtendedCatalogKeys | src/DfuException.cs:232-251 | the extended catalog holds exactly 0x200 to 0x20E |
| DfuExceptionExtensions.CheckExceptionWithThrow | src/util/DfuExceptionExtensions.cs:49-58 | the slot is always cleared, and its exception is raised exactly when there was one |
| DfuExceptionExtensions.AwaitAndCheck | src/util/DfuExceptionExtensions.cs:27-47 | a pending exception is raised before anything else; an operation's failure propagates; after a success a newly recorded exception is raised and otherwise the result is returned |
| DfuExceptionExtensions.AwaitAndCheckTransparent | src/util/DfuExceptionExtensions.cs:27-47 | with no exception before or after, the wrapper changes nothing |
| DfuExceptionExtensions.AwaitAndCheckSuccess | src/util/DfuExceptionExtensions.cs:8-25 | the wrapped call succeeds exactly when no exception is pending before, the operation succeeds and none is recorded after |
| DfuAbstractTransport.ToInt32 | src/DfuAbstractTransport.cs:99 | the `(int)` cast of an offset keeps values below 2^31 and makes larger ones negative |
| DfuAbstractTransport.Skip | src/DfuAbstractTransport.cs:193 | `Skip(n)` drops the first n bytes, all of them when n is larger, none when n is not positive |
| DfuAbstractTransport.PrefixBelowLength | src/DfuAbstractTransport.cs:99 | the prefix up to a reported offset within the payload is exactly those bytes |
| DfuAbstractTransport.SliceWithin | src/DfuAbstractTransport.cs:193 | a chunk within the payload is exactly its bytes |
| DfuAbstractTransport.SliceBeyond | src/DfuAbstractTransport.cs:193 | a chunk that starts past the payload's end is empty |
| DfuAbstractTransport.SliceCrc | src/DfuAbstractTransport.cs:193-194 | a chunk seeded with the checksum of the bytes before it has the checksum of the whole prefix up to its end |
| DfuAbstractTransport.ChunkStart | src/DfuAbstractTransport.cs:231 | the rewound start never lies after the start |
| DfuAbstractTransport.ChunkStartAligned | src/DfuAbstractTransport.cs:231 | the rewound start is a multiple of the chunk size and less than one chunk before the start |
| DfuAbstractTransport.ChunkEnd | src/DfuAbstractTransport.cs:133 | a resumed chunk ends after its offset, at most one chunk later, and never past the payload |
| DfuAbstractTransport.ChunkEndAligned | src/DfuAbstractTransport.cs:133 | a resumed chunk ends on a chunk boundary or at the payload's end |
| DfuAbstractTransport.ChunkEndWraps | src/DfuAbstractTransport.cs:133 | an offset near 2^32 makes the unsigned sum wrap to 0 |
| DfuAbstractTransport.NextEnd | src/DfuAbstractTransport.cs:179 | the next chunk ends one chunk later or at the payload's end, whichever comes first |
| DfuAbstractTransport.RewoundSeed | src/DfuAbstractTransport.cs:233 | a retry from offset 0 has no seed, any other retry is seeded |
| DfuAbstractTransport.ChunkCheck | src/DfuAbstractTransport.cs:205-213 | a check passes exactly when offset and checksum agree; the offset is checked first (UNEXPECTED_BYTES), then the checksum (CRC_MISMATCH) |
| DfuAbstractTransport.Call | src/DfuAbstractTransport.cs:253-286 | a primitive appends its command and the device's reply to the history, returns the reply's result and records any exception the reply raises |
| DfuAbstractTransport.Guard | src/util/DfuExceptionExtensions.cs:27-47 | a pending exception is raised and the model does not run the call (the code has already started it; see Left out); a guarded call succeeds exactly when the call succeeds and raises nothing |
| DfuAbstractTransport.GuardedCall | src/DfuAbstractTransport.cs:92-95 | in the model a guarded primitive sends its command only when no exception is pending (the code starts it before the check; see Left out), and succeeds exactly when the device accepts it and raises nothing |
| DfuAbstractTransport.AttemptSpec | src/DfuAbstractTransport.cs:193-213 | an attempt writes the slice at its offset with its seed, then requests the checksum of what it wrote, then checks the answer |
| DfuAbstractTransport.SendPayloadChunkSpec | src/DfuAbstractTransport.cs:191-241 | a chunk always sends at least one command |
| DfuAbstractTransport.RetrySpec | src/DfuAbstractTransport.cs:219-240 | a retry always sends at least one command |
| DfuAbstractTransport.SendAndExecuteSpec | src/DfuAbstractTransport.cs:166-185 | sending and executing always sends at least one command |
| DfuAbstractTransport.AfterChunkSpec | src/DfuAbstractTransport.cs:171-184 | the step after a chunk always sends at least one command |
| DfuAbstractTransport.NextChunkSpec | src/DfuAbstractTransport.cs:179-184 | the step to the next chunk always sends at least one command |
| DfuAbstractTransport.ResumeSpec | src/DfuAbstractTransport.cs:96-151 | a resume only extends the history |
| DfuAbstractTransport.FreshSpec | src/DfuAbstractTransport.cs:153-156 | a fresh transfer only extends the history |
| DfuAbstractTransport.SendPayloadSpec | src/DfuAbstractTransport.cs:89-157 | a transfer only extends the history |
| DfuAbstractTransport.AbstractTransport.constructor | src/DfuAbstractTransport.cs:51-52 | a new transport has an empty history and no pending exception |
| DfuAbstractTransport.AbstractTransport.Primitive | src/DfuAbstractTransport.cs:253-286 | a primitive updates the history and slot as the device answers |
| DfuAbstractTransport.AbstractTransport.CreateObject | src/DfuAbstractTransport.cs:253 | sends Create with its type and size |
| DfuAbstractTransport.AbstractTransport.WriteObject | src/DfuAbstractTransport.cs:263 | sends Write with its data, seed and offset |
| DfuAbstractTransport.AbstractTransport.CrcObject | src/DfuAbstractTransport.cs:268 | sends the checksum request with its offset and seed |
| DfuAbstractTransport.AbstractTransport.ExecuteObject | src/DfuAbstractTransport.cs:275 | sends Execute |
| DfuAbstractTransport.AbstractTransport.SelectObject | src/DfuAbstractTransport.cs:283 | sends Select with its type |
| DfuAbstractTransport.AbstractTransport.AbortObject | src/DfuAbstractTransport.cs:286 | sends Abort |
| DfuAbstractTransport.AbstractTransport.CheckExceptionWithThrow | src/util/DfuExceptionExtensions.cs:49-58 | raises what the slot held, clears it and sends nothing |
| DfuAbstractTransport.AbstractTransport.CheckAfter | src/util/DfuExceptionExtensions.cs:37-46 | the after-call check of the wrapper on the transport's own slot, sending nothing |
| DfuAbstractTransport.AbstractTransport.GuardedPrimitive | src/util/DfuExceptionExtensions.cs:27-47 | a primitive behind the before and after slot checks behaves as the guarded call |
| DfuAbstractTransport.AbstractTransport.Restart | src/DfuAbstractTransport.cs:59-63 | sends Create of type 1 and size 16, unguarded |
| DfuAbstractTransport.AbstractTransport.Abort | src/DfuAbstractTransport.cs:67-71 | sends Abort, unguarded |
| DfuAbstractTransport.AbstractTransport.SendInitPacket | src/DfuAbstractTransport.cs:75-78 | transfers the init packet as object type 1 with the boundary flag unset |
| DfuAbstractTransport.AbstractTransport.SendFirmwareImage | src/DfuAbstractTransport.cs:82-85 | transfers the image as object type 2 with the boundary flag unset |
| DfuAbstractTransport.AbstractTransport.Attempt | src/DfuAbstractTransport.cs:193-213 | the method's history and result are those of the attempt's definition |
| DfuAbstractTransport.AbstractTransport.SendPayloadChunk | src/DfuAbstractTransport.cs:191-241 | the recursive method's history and result are those of the chunk's definition |
| DfuAbstractTransport.AbstractTransport.Retry | src/DfuAbstractTransport.cs:219-240 | the retry's history and result are those of its definition |
| DfuAbstractTransport.AbstractTransport.SendAndExecutePayloadChunk | src/DfuAbstractTransport.cs:166-185 | the recursive method's history and result are those of its definition |
| DfuAbstractTransport.AbstractTransport.AfterChunk | src/DfuAbstractTransport.cs:171-184 | the execute and next-chunk step's history and result are those of its definition |
| DfuAbstractTransport.AbstractTransport.SendPayload | src/DfuAbstractTransport.cs:89-157 | the transfer's history and result are those of its definition |
| DfuTransferProperties.SeedForStart | src/DfuAbstractTransport.cs:233 | the rewound seed is the checksum of the payload before the chunk boundary |
| DfuTransferProperties.AttemptConfirms | src/DfuAbstractTransport.cs:199-213 | an attempt that passes ends with the device confirming the payload's prefix up to the chunk's end |
| DfuTransferProperties.ChunkSuccessConfirmed | src/DfuAbstractTransport.cs:191-241 | a chunk that succeeds, with or without retries, ends with the prefix up to its end confirmed |
| DfuTransferProperties.RetryConfirmed | src/DfuAbstractTransport.cs:219-240 | a retry that succeeds ends with the prefix up to the chunk's end confirmed |
| DfuTransferProperties.RetryFromBoundary | src/DfuAbstractTransport.cs:231-239 | the chunk re-sent from its boundary after the re-create confirms the same prefix |
| DfuTransferProperties.LastChunkConfirmed | src/DfuAbstractTransport.cs:171-175 | after the last chunk's execute the whole payload was confirmed and then executed |
| DfuTransferProperties.SendAndExecuteConfirmed | src/DfuAbstractTransport.cs:166-185 | a chunk sequence that succeeds ends with the whole payload confirmed and then executed |
| DfuTransferProperties.AfterChunkConfirmed | src/DfuAbstractTransport.cs:171-184 | after a confirmed chunk, success means the whole payload was confirmed and then executed |
| DfuTransferProperties.NextChunkConfirmed | src/DfuAbstractTransport.cs:179-184 | continuing with the next chunk, success means the whole payload was confirmed and then executed |
| DfuTransferProperties.PayloadSuccessConfirmed | src/DfuAbstractTransport.cs:89-157 | for a device whose select answers report offsets below 2^31 (`SelectOffsetsFit`), whenever a transfer succeeds, the device confirmed the checksum of the whole payload and an execute followed |
| DfuTransferProperties.ResumeConfirmed | src/DfuAbstractTransport.cs:96-151 | for a device whose select offsets are below 2^31, a resume that succeeds confirms and executes the whole payload |
| DfuTransferProperties.CompleteResumeConfirmed | src/DfuAbstractTransport.cs:104-113 | a resume of a fully received payload confirms it through the select and executes it |
| DfuTransferProperties.BoundaryResumeConfirmed | src/DfuAbstractTransport.cs:115-128 | for a device whose select offsets are below 2^31, the execute and second transfer of a boundary resume confirm and execute the whole payload |
| DfuTransferProperties.ChunkStartsWithWrite | src/DfuAbstractTransport.cs:193-196 | a chunk's first command is the write of its slice at its offset with its seed |
| DfuTransferProperties.SendAndExecuteStartsWithWrite | src/DfuAbstractTransport.cs:166-168 | a chunk sequence starts with the write of its first slice |
| DfuTransferProperties.ResumeMismatchAborts | src/DfuAbstractTransport.cs:96-150 | a reported checksum that disagrees with the payload fails with PRE_DFU_INTERRUPTED and sends nothing after the select |
| DfuTransferProperties.ResumeComplete | src/DfuAbstractTransport.cs:104-113 | a resume that finds the whole payload received sends exactly one execute and succeeds exactly when it does |
| DfuTransferProperties.ResumeAtBoundary | src/DfuAbstractTransport.cs:115-128 | at a chunk boundary with the flag unset the resume executes and then runs the whole transfer again with the flag set |
| DfuTransferProperties.BoundaryTakenOnce | src/DfuAbstractTransport.cs:115 | with the flag set the boundary branch is not taken again, so a transfer re-selects at most once |
| DfuTransferProperties.MidChunkResume | src/DfuAbstractTransport.cs:130-140 | a mid-chunk resume writes, right after the select and without a create, the rest of that chunk seeded with the device's checksum |
| DfuTransferProperties.FreshTransferCreates | src/DfuAbstractTransport.cs:153-155 | a fresh transfer creates an object of the first chunk's size right after the select |
| DfuTransferProperties.FreshTransferWritesFirstChunk | src/DfuAbstractTransport.cs:153-156 | after that create, the first chunk is written from offset 0 without a seed |
| DfuTransferProperties.AttemptWritesOnce | src/DfuAbstractTransport.cs:196 | an attempt sends exactly one write |
| DfuTransferProperties.ChunkWritesBounded | src/DfuAbstractTransport.cs:221-224 | a chunk sends at most 6 - retries writes: one plus at most five retries |
| DfuTransferProperties.RetryWritesBounded | src/DfuAbstractTransport.cs:219-240 | a retry sends at most 5 - retries writes |
| DfuTransferProperties.RejectedAttempt | src/DfuAbstractTransport.cs:205-213 | against a device that reports a wrong offset for every checksum request, an attempt's check reports UNEXPECTED_BYTES |
| DfuTransferProperties.RetriesExhausted | src/DfuAbstractTransport.cs:221-224 | against a device that rejects every check, a chunk sends exactly 6 - retries writes and fails with TOO_MANY_WRITE_FAILURES |
| DfuTransferProperties.RetryExhausted | src/DfuAbstractTransport.cs:219-240 | the same for a retry, with 5 - retries writes |
| DfuTransferProperties.WriteOfSlice | src/DfuAbstractTransport.cs:193-196 | the write of a slice carries payload bytes at their own offset, seeded with the checksum of the bytes before them |
| DfuTransferProperties.AttemptWritesFit | src/DfuAbstractTransport.cs:193-196 | every write of an attempt carries payload bytes at their own offset with the right seed |
| DfuTransferProperties.ChunkWritesFit | src/DfuAbstractTransport.cs:191-241 | every write of a chunk, retries included, carries payload bytes at their own offset with the right seed |
| DfuTransferProperties.RetryWritesFit | src/DfuAbstractTransport.cs:219-240 | the same for a retry |
| DfuTransferProperties.RetryFromBoundaryWritesFit | src/DfuAbstractTransport.cs:231-239 | the same for the re-send from the chunk boundary |
| DfuTransferProperties.SendAndExecuteWritesFit | src/DfuAbstractTransport.cs:166-185 | the same for a chunk sequence |
| DfuTransferProperties.AfterChunkWritesFit | src/DfuAbstractTransport.cs:171-184 | the same after a chunk |
| DfuTransferProperties.NextChunkWritesFit | src/DfuAbstractTransport.cs:179-184 | the same for the next chunk |
| DfuTransferProperties.FreshWritesFit | src/DfuAbstractTransport.cs:153-156 | the same for a fresh transfer |
| DfuTransferProperties.ResumeWritesFit | src/DfuAbstractTransport.cs:96-151 | the same for a resume from an offset below 2^31, on a device whose select offsets are below 2^31 |
| DfuTransferProperties.PayloadWritesFit | src/DfuAbstractTransport.cs:89-157 | for a device whose select offsets are below 2^31, every write a transfer sends carries payload bytes at their own offset, seeded with the checksum of the payload before them |
| DfuTransferReference.Commands | src/DfuAbstractTransport.cs:253-286 | one command per event of the history |
| DfuTransferReference.CommandsAppend | src/DfuAbstractTransport.cs:253-286 | the commands of joined histories are the joined commands |
| DfuTransferReference.EndAt | src/DfuAbstractTransport.cs:179 | a reference chunk lies within the payload and is non-empty unless the payload is exhausted |
| DfuTransferReference.CycleContents | src/DfuAbstractTransport.cs:166-185 | a reference chunk creates one object of its size and writes exactly its bytes |
| DfuTransferReference.ChunksWritePayload | src/DfuAbstractTransport.cs:166-185 | the reference chunks from an offset write exactly the payload from that offset, in order |
| DfuTransferReference.ChunkSizes | src/DfuAbstractTransport.cs:153-184 | every object but the last has the maximum size, the last holds the rest (nothing only for an empty payload), and the sizes add up to the payload's length |
| DfuTransferReference.TenBytesInFours | src/DfuAbstractTransport.cs:153-184 | ten bytes in objects of at most four are created as 4, 4 and 2 |
| DfuTransferReference.SixBytesInFours | src/DfuAbstractTransport.cs:179-184 | the last six of them are created as 4 and 2 |
| DfuTransferReference.EchoCall | src/DfuAbstractTransport.cs:253-286 | the accept-all device accepts every command and raises nothing |
| DfuTransferReference.EchoAttempt | src/DfuAbstractTransport.cs:193-213 | against the accept-all device an attempt passes with the reference's write and checksum request |
| DfuTransferReference.EchoChunk | src/DfuAbstractTransport.cs:191-241 | against the accept-all device a chunk succeeds with no retry |
| DfuTransferReference.EchoSendAndExecute | src/DfuAbstractTransport.cs:166-185 | against the accept-all device a chunk sequence succeeds with the reference's commands |
| DfuTransferReference.EchoAfterChunk | src/DfuAbstractTransport.cs:171-184 | the same for the step after a chunk |
| DfuTransferReference.EchoNextChunk | src/DfuAbstractTransport.cs:179-184 | the same for the next chunk |
| DfuTransferReference.EchoFresh | src/DfuAbstractTransport.cs:153-156 | a fresh transfer against the accept-all device succeeds with every reference chunk |
| DfuTransferReference.EchoTransfer | src/DfuAbstractTransport.cs:89-157 | against the accept-all device a transfer succeeds, and its commands are exactly the select followed by every reference chunk in order |
| DfuTransportPrn.Parse | src/DfuTransportPrn.cs:178-222 | a packet parses exactly when it has the 0x60 marker and result 1, and is then the opcode and payload it was built from; an empty packet or one without the marker gives NOT_START_WITH_0x60 |
| DfuTransportPrn.ParseDeclared | src/DfuTransportPrn.cs:178-222 | every DFU code a parse raises is a declared code; a one- or two-byte packet with the marker faults with an index out of range |
| DfuTransportPrn.ParseSuccessResponse | src/DfuTransportPrn.cs:185-191 | a success response parses back to its opcode and payload |
| DfuTransportPrn.ParseErrorResponse | src/DfuTransportPrn.cs:193-200 | an error response with a catalogued result code fails with that code |
| DfuTransportPrn.ParseUnknownResult | src/DfuTransportPrn.cs:214-218 | an uncatalogued result code fails with OP_CODE_NOT_SUPPORTED |
| DfuTransportPrn.ParseUnknownExtended | src/DfuTransportPrn.cs:201-212 | an uncatalogued extended code fails with the generic code 0 |
| DfuTransportPrn.AssertPacket | src/DfuTransportPrn.cs:227-252 | accepts exactly a packet of the expected opcode and length, and returns its payload; a missing packet gives EMPTY_RESPONSE; every failure is one of the three assertion codes |
| DfuTransportPrn.AssertPacketOpcodeFirst | src/DfuTransportPrn.cs:238-248 | the opcode is checked before the length |
| DfuTransportPrn.Expect | src/DfuTransportPrn.cs:268-269 | a read failure propagates, and a read packet is asserted |
| DfuTransportPrn.ExpectSuccessResponse | src/DfuTransportPrn.cs:178-252 | a success response of the expected opcode and length yields its payload |
| DfuTransportPrn.CreateCommand | src/DfuTransportPrn.cs:258-266 | a create command is six bytes: opcode 1, the type and the size little-endian |
| DfuTransportPrn.SelectPayload | src/DfuTransportPrn.cs:359-362 | a select answer payload is twelve bytes |
| DfuTransportPrn.DecodeSelectPayload | src/DfuTransportPrn.cs:359-362 | decoding a select answer gives back its maximum size, offset and checksum |
| DfuTransportPrn.CrcPayload | src/DfuTransportPrn.cs:325-330 | a checksum answer payload is eight bytes |
| DfuTransportPrn.DecodeCrcPayload | src/DfuTransportPrn.cs:329-330 | decoding a checksum answer gives back its offset and checksum |
| DfuTransportPrn.Pieces | src/DfuTransportPrn.cs:281-318 | a write is split into at least one piece |
| DfuTransportPrn.PiecesCover | src/DfuTransportPrn.cs:281-318 | the pieces concatenate to the bytes, each is at most the MTU, all but the last are exactly the MTU, and a piece is empty only for an empty write |
| DfuTransportSerial.SerialFrame | src/DfuTransportSerial.cs:98-108 | a command goes on the line escaped and closed by END, without the opening END |
| DfuTransportSerial.SerialFrameShape | src/DfuTransportSerial.cs:98-108 | the line frame has one octet per command byte, one more per reserved byte, and the closing END, which is its only END |
| DfuTransportSerial.SetPrnCommand | src/DfuTransportSerial.cs:214-219 | the set-PRN command is three bytes starting with opcode 2 |
| DfuTransportSerial.SetPrnCommandLayout | src/DfuTransportSerial.cs:214-219 | its last two bytes are the PRN interval as a 16-bit two's complement little-endian value |
| DfuTransportSerial.CsRem | src/DfuTransportSerial.cs:241 | C# `%` truncates toward zero: the remainder takes the dividend's sign |
| DfuTransportSerial.MtuFromWire | src/DfuTransportSerial.cs:228-241 | the data MTU is a non-negative multiple of four, 0 for a wire MTU below 12, and otherwise the largest multiple of four at most half the wire MTU minus two |
| DfuTransportSerial.RoundDownToFour | src/DfuTransportSerial.cs:241 | subtracting the truncated remainder rounds a non-negative value down to a multiple of four |
| DfuTransportSerial.DecodeFirmwareVersion | src/DfuTransportSerial.cs:297-313 | 0xFF means no image, a type above 2 fails with UNSUPPORTED_TYPE, otherwise the image type is the one the byte names |
| DfuTransportSerial.FirmwareVersionPayload | src/DfuTransportSerial.cs:295 | a firmware version answer payload is thirteen bytes |
| DfuTransportSerial.DecodeFirmwareVersionPayload | src/DfuTransportSerial.cs:307-313 | decoding a firmware version answer gives back its type, version, address and length |
| DfuTransportSerial.DecodeHardwareVersion | src/DfuTransportSerial.cs:273-283 | the part number is negative exactly when its top byte has the sign bit set |
| DfuTransportSerial.ToLE32Signed | src/DfuTransportSerial.cs:275-281 | a signed 32-bit value is laid out as four bytes |
| DfuTransportSerial.LE32SignedOfToLE32Signed | src/DfuTransportSerial.cs:275-281 | reading a laid-out signed field back gives the value |
| DfuTransportSerial.HardwareVersionPayload | src/DfuTransportSerial.cs:271 | a hardware version answer payload is twenty bytes |
| DfuTransportSerial.DecodeHardwareVersionPayload | src/DfuTransportSerial.cs:273-283 | decoding a hardware version answer gives back its five fields |
| DfuTransportSerial.FirmwareQueries | src/DfuTransportSerial.cs:318-329 | the k-th query asks for image index + k, wrapping at 256 |
| DfuTransportSerial.IndexAtNext | src/DfuTransportSerial.cs:325 | the index after the next one's k-th is the (k+1)-th after the first, wrapping at 256 |
| DfuTransportSerial.FirmwareQueriesCons | src/DfuTransportSerial.cs:318-329 | the queries from an index are the query for it, then the queries from the next index |
| DfuTransportSerial.CollectFirst | src/DfuTransportSerial.cs:318-329 | a successful collection starts with the image the first query found, is empty exactly when that query found none, and goes on with the collection from the next index |
| DfuTransportSerial.CollectFound | src/DfuTransportSerial.cs:318-329 | a successful collection holds, at position k, the image the query for index + k found, in index order, and the query after the last image found none |
| DfuTransportSerial.PrefixedTwice | src/DfuTransportSerial.cs:325 | adding images found in two steps is adding them joined |
| DfuTransportSerial.PrefixedNone | src/DfuTransportSerial.cs:318 | adding no images changes nothing |
| DfuTransportSerial.PrnSchedule | src/DfuTransportPrn.cs:290-297 | one check decision per piece |
| DfuTransportSerial.PrnScheduleFrom | src/DfuTransportPrn.cs:290-297 | with a positive interval, piece k after `count` earlier pieces is checked exactly when count + k + 1 is a multiple of it |
| DfuTransportSerial.PrnEvery | src/DfuTransportPrn.cs:276-297 | within one write every prn-th piece is followed by a checksum read, and an interval of 0 or less never checks |
| DfuTransportSerial.PrnDisabled | src/DfuTransportPrn.cs:293 | an interval of 0 or less never checks |
| DfuTransportSerial.ReachedFirst | src/DfuTransportPrn.cs:284-289 | after its first piece a write has reached the offset and checksum of that piece |
| DfuTransportSerial.ReachedShift | src/DfuTransportPrn.cs:308-315 | past the first piece, the rest of the write reaches after its piece k what the whole write reaches after its piece k + 1 |
| DfuTransportSerial.NotifiedAt | src/DfuTransportPrn.cs:293-305 | a notification is read after piece k exactly when that piece was checked, and it then reports the offset and checksum reached after piece k |
| DfuTransportSerial.NotifiedThenRest | src/DfuTransportPrn.cs:293-315 | a first piece whose notification agrees, followed by a rest whose notifications agree, is a write whose notifications agree |
| DfuTransportSerial.NotifiedLast | src/DfuTransportPrn.cs:293-317 | a last piece whose notification agrees makes a one-piece write whose notifications agree |
| DfuTransportSerial.ErrorResponseTimesOut | src/DfuTransportPrn.cs:160-172 | in the model a device error response never reaches the waiting read, which times out; in the code `OnData` throws an exception that goes unhandled in the port's data handler, and the read is never signalled |
| DfuTransportSerial.WaitOutcome | src/DfuTransportPrn.cs:133-172 | a wait succeeds exactly when a message that parses arrives, and yields that packet; otherwise it is modelled as a read timeout (a rejected message throws in `OnData`, not in the read) |
| DfuTransportSerial.TrafficSnoc | src/DfuTransportSerial.cs:98-120 | one more line transfer adds its command and, for a write, its data |
| DfuTransportSerial.TrafficCommandsAppend | src/DfuTransportSerial.cs:98-120 | the commands of two logs joined are the commands of the first, then those of the second |
| DfuTransportSerial.PieceEntryCommands | src/DfuTransportPrn.cs:292-306 | one piece's traffic holds exactly one command, the write of that piece; the notification adds none |
| DfuTransportSerial.PieceTrafficCommands | src/DfuTransportPrn.cs:281-318 | the commands of an object write's traffic are the write commands of its pieces, one per piece, in order |
| DfuTransportSerial.WriteCommandsAt | src/DfuTransportPrn.cs:281-318 | there is one write command per piece, and the k-th is the write of piece k |
| DfuTransportSerial.PieceTrafficThenRest | src/DfuTransportPrn.cs:308-318 | a first piece's traffic followed by the rest's is the traffic of the whole write, at the end of the log, and exactly what was added when the first piece added only its own |
| DfuTransportSerial.WrittenInOne | src/DfuTransportPrn.cs:308-317 | a write whose one piece is all its bytes reaches the offset and the checksum of the whole write |
| DfuTransportSerial.SerialTransport.constructor | src/DfuTransportSerial.cs:73-80 | a new transport has its PRN interval, no traffic, no packet, no waiter, no MTU and is not ready |
| DfuTransportSerial.SerialTransport.WriteCommand | src/DfuTransportSerial.cs:98-108 | sends exactly the command's frame and nothing else |
| DfuTransportSerial.SerialTransport.WriteData | src/DfuTransportSerial.cs:113-120 | sends the bytes behind opcode 8 as one command, adding exactly those bytes to the written data |
| DfuTransportSerial.SerialTransport.OnData | src/DfuTransportPrn.cs:160-172 | a second packet before a read fails with RECEIVE_TWO_MESSAGES; a packet that does not parse fails with the parse error; otherwise it is stored, and the waiter is signalled exactly when there is one |
| DfuTransportSerial.SerialTransport.Read | src/DfuTransportPrn.cs:116-155 | a second waiter fails with READ_CONFLICT and changes nothing; a stored packet is taken; otherwise the outcome is the wait's; the slot and the waiter end empty; nothing is sent |
| DfuTransportSerial.Exchange | src/DfuTransportPrn.cs:344-350 | a command sent on an idle line, then the wait for its answer and the check of opcode and length: the payload or the failure, and the command and the answer logged |
| DfuTransportSerial.ExchangeAnswered | src/DfuTransportPrn.cs:344-350 | when the device answers with a success response of the expected opcode and length, the exchange accepts exactly that payload and logs the command and that response |
| DfuTransportSerial.ArrivedAnswer | src/DfuTransportPrn.cs:321-325 | an answer the check accepts is the device's success response carrying it |
| DfuTransportSerial.SerialTransport.Request | src/DfuTransportPrn.cs:344-350 | sends one command; a second reader fails with READ_CONFLICT; an unread packet is checked at once; on an idle line the outcome and the log are `Exchange` with the device; a success has the expected length and logs the command and the device's success response |
| DfuTransportSerial.SerialTransport.Negotiate | src/DfuTransportSerial.cs:214-241 | sends set-PRN then get-MTU; a success logs both answered exchanges and returns the MTU derived from the 2-byte answer |
| DfuTransportSerial.SerialTransport.Ready | src/DfuTransportSerial.cs:205-247 | a ready transport sends nothing; one getting ready waits forever; a success sends set-PRN and then get-MTU, leaves the transport ready, and its MTU is `MtuFromWire` of the device's answer, the last message logged; a failure leaves it stuck getting ready |
| DfuTransportSerial.SerialTransport.ReadyRequest | src/DfuTransportPrn.cs:344-350 | a request after the ready handshake: on success the transport is ready, the commands are the handshake's then this one, and the log ends with this command and the device's success response carrying exactly the returned payload |
| DfuTransportSerial.SerialTransport.CreateObject | src/DfuTransportPrn.cs:254-270 | sends the handshake if needed and then the create command; a success means the device answered it with an empty success response, which ends the log |
| DfuTransportSerial.SerialTransport.ReadCrc | src/DfuTransportPrn.cs:321-333 | reads a checksum answer without sending a command; on success the offset and checksum returned are the decoding of the 8-byte payload of the device's success response, the last message logged |
| DfuTransportSerial.SerialTransport.CrcObject | src/DfuTransportPrn.cs:335-342 | sends the checksum request and reads its answer; on success the result is the decoding of the 8-byte payload of the device's answer, and the log ends with the request and that answer |
| DfuTransportSerial.SerialTransport.ExecuteObject | src/DfuTransportPrn.cs:344-351 | sends Execute; a success means the device answered it with an empty success response, which ends the log |
| DfuTransportSerial.SerialTransport.SelectObject | src/DfuTransportPrn.cs:353-366 | sends Select with its type; on success the maximum size, offset and checksum are the decoding of the 12-byte payload of the device's answer, and the log ends with the command and that answer |
| DfuTransportSerial.SerialTransport.AbortObject | src/DfuTransportPrn.cs:368-373 | sends Abort, reads nothing, and the log ends with the Abort command |
| DfuTransportSerial.SerialTransport.WriteObject | src/DfuTransportPrn.cs:272-277 | a successful write sends exactly the bytes, cut into the MTU pieces, with a checksum check after every prn-th piece counted from zero, every check's notification agreeing with the offset and checksum reached after its piece, and returns the new offset and the checksum of the bytes seeded with the previous checksum; the log ends with `PieceTraffic` of those pieces and notifications, which on a ready transport is exactly what it added |
| DfuTransportSerial.SerialTransport.SendPiece | src/DfuTransportPrn.cs:292-306 | sends one piece and returns the new count; when the PRN count is reached it reads the device's checksum notification, succeeds exactly when that reports the offset and checksum reached, and otherwise fails with CRC_MISMATCH; an unchecked piece adds exactly its write command to the log, and a success adds exactly the piece's `PieceEntry`: the write, then the device's notification when one was read |
| DfuTransportSerial.SerialTransport.WritePiece | src/DfuTransportPrn.cs:283-306 | sends MTU-many bytes, or all that are left, and advances offset, checksum and PRN count by them; a checked piece succeeds exactly when the notification that ends the log agrees with them, and otherwise fails with CRC_MISMATCH; an MTU of 0 with bytes left stops with `Diverges` before sending, where the source keeps sending empty writes until a PRN read fails or disagrees, and forever when the interval is 0 or below (admitted under Left out); a success ends the log with the piece's `PieceEntry`, and on a ready transport adds exactly that |
| DfuTransportSerial.SerialTransport.WriteObjectPiece | src/DfuTransportPrn.cs:281-318 | the recursion sends exactly the bytes in MTU pieces, checks the PRN schedule from the given count, every notification read agrees with the offset and checksum reached after its piece, and it returns the wrapped offset and continued checksum; a success ends the log with `PieceTraffic` of the pieces and their notifications, which on a ready transport is exactly what it added |
| DfuTransportSerial.SerialTransport.GetProtocolVersion | src/DfuTransportSerial.cs:252-260 | sends the protocol version query; the result and the log are the exchange with the device, the version being the single byte of its answer |
| DfuTransportSerial.SerialTransport.GetHardwareVersion | src/DfuTransportSerial.cs:265-284 | sends the hardware version query; the result and the log are the exchange with the device, the version being the decoding of its 20-byte answer |
| DfuTransportSerial.SerialTransport.GetFirmwareVersion | src/DfuTransportSerial.cs:289-314 | sends the firmware version query for its index; the result and the log are `FirmwareAnswer`, the exchange with the device followed by the decoding of its 13-byte answer; failures are DFU errors |
| DfuTransportSerial.SerialTransport.GetAllFirmwareVersions | src/DfuTransportSerial.cs:318-329 | the result and the log are `accum` followed by `Collect` of the firmware query from the given index; a success found fewer images than the fuel and sent one query per image plus the final one, for consecutive indices wrapping at 256; running out of fuel sent exactly fuel such queries |
| DfuOperation.RunStep | src/DfuOperation.cs:124-135 | a transport call only extends the history |
| DfuOperation.RunSteps | src/DfuOperation.cs:124-135 | a sequence of calls only extends the history |
| DfuOperation.UpdateSteps | src/DfuOperation.cs:124-135 | an update is the init packet then the image, preceded by a restart exactly when forceful |
| DfuOperation.Plan | src/DfuOperation.cs:115-143 | a plan has one step group of the same size per update |
| DfuOperation.PerformUpdate | src/DfuOperation.cs:124-135 | one update only extends the history |
| DfuOperation.PerformSpec | src/DfuOperation.cs:115-143 | the operation's run only extends the history |
| DfuOperation.RunStepsAppend | src/DfuOperation.cs:115-143 | running a + b is running b after a when a succeeds; when a fails, nothing of b is run |
| DfuOperation.PlanAppend | src/DfuOperation.cs:115-143 | the plan of joined updates is the joined plans |
| DfuOperation.PlanLayout | src/DfuOperation.cs:115-143 | the plan is the steps of every update, in index order |
| DfuOperation.PerformIsPlan | src/DfuOperation.cs:115-143 | the recursive run over the update index equals running the flat plan of the remaining updates |
| DfuOperation.UpdateStepsRun | src/DfuOperation.cs:124-135 | running an update's steps is performing the update |
| DfuOperation.PairRun | src/DfuOperation.cs:129-135 | without a restart an update is exactly the init packet then the image |
| DfuOperation.RestartFirst | src/DfuOperation.cs:124-135 | a forceful update awaits the restart first: when it fails the update fails with it and sends nothing more; otherwise the plain update follows |
| DfuOperation.FailedUpdateEndsRun | src/DfuOperation.cs:137-142 | when an update fails, the run fails with its error and sends nothing for later updates |
| DfuOperation.CompletedUpdates | src/DfuOperation.cs:115-143 | once the updates before the last have succeeded, the run's outcome is exactly that of the last update |
| DfuOperation.NoUpdatesNoCalls | src/DfuOperation.cs:117-122 | with no updates the run succeeds without touching the transport |
| DfuOperation.DfuOperation.constructor | src/DfuOperation.cs:72-81 | keeps its updates and transport, and starts the run at once exactly when asked to |
| DfuOperation.DfuOperation.Start | src/DfuOperation.cs:99-108 | the first start runs the updates from index 0 and keeps the outcome; a later start returns that kept outcome and makes no transport call |
| DfuOperation.DfuOperation.PerformNextUpdate | src/DfuOperation.cs:115-143 | the loop leaves the transport and result that the recursive run over the update index gives |

## Left out

- **Concurrency.** The race between `Read` and `OnData`, the thread hand-off through
  `ManualResetEvent`, and the 5000 ms timeout are not modelled. Whether a reply reaches
  a waiting read before the timeout is decided by the `Responder` function of the line
  history; `None` stands for the timeout.
- **The serial port.** Opening it, finding it by name, the `DataReceived` and
  `ErrorReceived` handlers, and the SLIP decoder fed by the port are left out. The
  transport model receives already decoded messages, and the decoder is modelled and
  proved separately.
- **Exceptions in the data handler.** In the code an exception thrown by `OnData`
  propagates through the SLIP decoder into the serial port's `async void` data
  handler, which does not catch it, so it surfaces as an unhandled exception of
  the process. The model leaves that exception out; its only trace is that the
  waiting read times out.
- DfuTransportSerial.WaitOutcome: a message that `OnData` rejects is modelled as a
  read timeout; the unhandled exception it raises in the code is not modelled.
- DfuTransportSerial.ErrorResponseTimesOut: states the timeout the model gives for
  a device error response; the unhandled exception the code raises is not modelled.
- SlipDecoder.HandleEndSpec: the `onMessage` callback is an event that cannot fail.
  In the code an exception from it skips the reset of the index
  (`src/util/SLIPDecoder.cs:142-145`).
- SlipDecoder.SlipDecoder.HandleEnd: the same; the index is always reset.
- SlipDecoder.SlipDecoder.DecodeBytes: the callbacks cannot fail, so every chunk is
  decoded to its end. In the code a throwing callback abandons the rest of the
  chunk.
- DfuTransportSerial.SerialTransport.ReadyRequest: on failure the log is not tied
  to the device's answer; only what was sent is stated. The same holds for
  `CreateObject`, `ReadCrc`, `CrcObject`, `ExecuteObject` and `SelectObject`.
- DfuTransportSerial.SerialTransport.GetFirmwareVersion: like `GetProtocolVersion`,
  `GetHardwareVersion` and `GetAllFirmwareVersions`, it requires the transport's
  invariant `Valid()`, which ties the ghost names `exchange` and `firmwareQuery`
  to `Exchange` and `FirmwareAnswer` for its device.
- **The exception slot of the serial transport.** The serial transport never sets
  the `LastException` that the abstract transport checks. The abstract transport's
  slot is instead set by the abstract device's replies. The PRN and serial layers
  are merged into one class, `SerialTransport`, and nothing formally ties it to the
  abstract device of `DfuAbstractTransport`.
- DfuTransportSerial.SerialTransport.GetAllFirmwareVersions: takes a `fuel` bound on
  the number of queries, because the source's recursion need not terminate. When the
  fuel runs out the result is `Diverges`.
- DfuTransportSerial.SerialTransport.WritePiece: with an MTU of 0 (a wire MTU below
  12) and bytes left, the model sends nothing and returns `Diverges` at once. The
  source instead sends an empty write and recurses on the same bytes, again and
  again (src/DfuTransportPrn.cs:283-316). With a positive PRN interval every
  prn-th empty write reads a checksum notification, and the run ends with that
  read's error (a timeout, a rejected packet) or with CRC_MISMATCH when the
  notification does not report the unchanged offset and checksum. Only with an
  interval of 0 or below, or a device whose every notification agrees, does it
  never end. The empty writes and the errors that end them are not modelled.
- DfuTransportSerial.SerialTransport.WriteObjectPiece: the same MTU-0 case stops
  with `Diverges` through `WritePiece`, as described on the line above.
- DfuTransportSerial.SerialTransport.Ready: a call made while another is getting
  ready blocks forever in the source. The model returns `Diverges`.
- **Chunk sizes.** A maximum object size of 0, or of 2^31 or more (where the
  source's `int` arithmetic changes meaning), is not accepted by `ChunkSize`.
- **DFU packages and manifests.** Reading the zip package and its JSON manifest
  (`DfuUpdates`, `FirmwareManifest`) is not part of this model. An update is given
  directly as its init packet and image.
- **Error texts and logging.** The message texts, the formatted detail strings and
  the `Debug.WriteLine` logging are not modelled. A catalog entry is modelled by its
  code.
- **CRC-32.** The CRC-32 implementation is not part of this model. The standard
  reflected CRC-32 stands in for it.
- **Tasks.** A `Task` is modelled by the outcome of the work it stands for, and
  the calls are made in sequence.
- DfuAbstractTransport.GuardedCall: checks the exception slot, then runs the
  operation, then checks the slot again, and sends nothing when an exception is
  pending. In the code the operation's task is started before the first check:
  `SelectObject(type)` is called at `src/DfuAbstractTransport.cs:92`, and only
  then does `AwaitAndCheckException` look at the slot
  (`src/util/DfuExceptionExtensions.cs:27-30`). So the code can send the command
  even when it then raises the pending exception; the model does not.
- **The wrapping exception.** `DfuException(ex, LastException)` is not part of this
  model. A failure propagates with its code.
- DfuTransferProperties.PayloadSuccessConfirmed: holds only for devices whose
  select answers report offsets below 2^31 (`SelectOffsetsFit`). The code casts the
  offset with `(int)` (`src/DfuAbstractTransport.cs:99`, `:191`), so a larger one
  turns negative. Payload 1 2 3 4 and a select answer of offset 2^31, checksum 0,
  chunk size 3 make the transfer send an empty write and then ask for the
  checksum at offset 4. If the device answers offset 4 and checksum 0, the checksum
  of the empty slice, the transfer succeeds although no byte of the payload was
  written and the checksum it accepted is not the payload's.
- DfuTransferProperties.ResumeConfirmed: the same hypothesis, for the same reason.
- DfuTransferProperties.BoundaryResumeConfirmed: the same hypothesis, for the same
  reason.
- DfuTransferProperties.ResumeWritesFit: the same hypothesis, and a resume offset
  below 2^31. With an offset of 0xFFFFFFFE the code writes the whole payload at
  offset 0xFFFFFFFE, not at the payload's own offsets.
- DfuTransferProperties.PayloadWritesFit: the same hypothesis, for the same reason.
- SlipDecoder.SlipDecoder.constructor: requires a buffer size above 0, because
  with 0 the first stored byte (or the allocation) faults in the source.

## Findings

| source | as written | input that shows it | evidently intended | confidence | as-written member | corrected member |
|---|---|---|---|---|---|---|
| src/util/SLIPDecoder.cs:106-131 | after a message over the size limit only the index and escape flag are reset; the grown buffer is kept, so `_msgBuffer.Length < _maxMessageSize` stays false and every later byte reports an overflow | maximum size 2, buffer size 1: the stream END 1 2 END, then the frame of the one-byte message 3 | reset the buffer to its configured size, so decoding carries on with the next frame | not executed | SlipDecoder.OverflowLosesNextFrame | SlipDecoder.OverflowResynchronises |

The corrected handling is `Overflowed` with `resetBuffer` set. The round-trip and
chunking lemmas hold for both settings. The `SlipDecoder` class follows the code
as written. Nothing else in the model depends on the decoder's overflow path.
