/** The chunked object transfer of the DFU protocol, over an abstract device.

    A payload (an init packet, object type 1, or a firmware image, type 2) is sent
    in chunks no larger than the maximum object size the device reports on select.
    Each chunk is created, written, checked by an explicit checksum request and
    executed. An interrupted transfer is resumed from the offset and checksum the
    device reports, and a chunk whose check fails is re-sent from its chunk
    boundary, at most five times.

    The six primitives are answered by `Device`, an arbitrary function of the
    history of earlier commands and replies; a reply can be a failure, and can
    record an exception in the transport's exception slot. `World` is that history
    together with the slot. The recursions of the transfer are the functions
    `SendPayloadChunkSpec` with `RetrySpec`, `SendAndExecuteSpec` with `AfterChunkSpec` and `NextChunkSpec`, and `SendPayloadSpec`, and the
    `AbstractTransport` class runs them as recursive methods proved equal to them. */
module DfuAbstractTransport {
  import opened Common
  import opened Crc32
  import opened DfuErrors
  import opened DfuExceptionExtensions

  /** A `byte[]` holds at most `int.MaxValue` bytes. */
  const MAX_LENGTH: int := 0x7FFF_FFFF
  const INT32_LIMIT: int := 0x8000_0000

  const OBJECT_COMMAND: byte := 0x01
  const OBJECT_DATA: byte := 0x02

  /** The maximum object size a device may report. Zero is outside the model: the
      transfer divides by it. So are sizes of 2^31 and more: for them the `uint` sum
      `end + chunkSize` can wrap, and the next chunk would end before the current one. */
  type ChunkSize = x: uint32 | 0 < x < 0x8000_0000 witness 1

  datatype Command =
    | Create(objType: byte, size: uint32)
    | Write(data: seq<byte>, seed: Option<bv32>, offset: uint32)
    | CrcRequest(offset: uint32, seed: Option<bv32>)
    | Execute
    | Select(objType: byte)
    | AbortDfu

  /** The values a primitive returns: offset and checksum (`WriteObject`,
      `CrcObject`), and also the maximum object size (`SelectObject`). The other
      primitives' return values are not used. */
  datatype Answer = Answer(offset: uint32, crc: bv32, chunkSize: ChunkSize)

  /** A primitive's outcome, and the exception recorded in the slot while it ran. */
  datatype Reply = Reply(result: Result<Answer, Error>, raised: Option<int>)

  datatype Event = Event(cmd: Command, reply: Reply)

  type Device = (seq<Event>, Command) -> Reply

  datatype World = World(log: seq<Event>, slot: Option<int>)

  /** The outcome of an operation and the world after it. */
  datatype Run<T> = Run(result: Result<T, Error>, world: World)

  // ---------------------------------------------------------------------------
  // The conversions and slices the transfer uses.

  /** `(int)x` for a `uint`: values of 2^31 and above turn negative. */
  function ToInt32(x: uint32): (r: int)
    ensures x as int < INT32_LIMIT ==> r == x as int
    ensures x as int >= INT32_LIMIT ==> r < 0
  {
    if x as int < INT32_LIMIT then x as int else x as int - TWO_32
  }

  /** `bytes.Skip(n)`. */
  function Skip(bytes: seq<byte>, n: int): (r: seq<byte>)
    ensures n <= 0 ==> r == bytes
    ensures 0 < n < |bytes| ==> r == bytes[n..]
    ensures n >= |bytes| ==> r == []
  {
    if n <= 0 then bytes else if n >= |bytes| then [] else bytes[n..]
  }

  /** `bytes.Take((int)n)`. */
  function Prefix(bytes: seq<byte>, n: uint32): seq<byte> {
    Take(bytes, ToInt32(n))
  }

  /** `bytes.Skip((int)start).Take((int)(end - start))`. */
  function Slice(bytes: seq<byte>, start: uint32, end: uint32): seq<byte> {
    Take(Skip(bytes, ToInt32(start)), ToInt32(U32Sub(end, start)))
  }

  /** The checksum the transfer expects for the first n bytes. */
  function PrefixCrc(bytes: seq<byte>, n: uint32): bv32 {
    Crc(Prefix(bytes, n), None)
  }

  lemma PrefixBelowLength(bytes: seq<byte>, n: uint32)
    requires n as int <= |bytes| <= MAX_LENGTH
    ensures Prefix(bytes, n) == bytes[..n]
  {
  }

  /** Within the payload, the slice is the bytes between the two offsets. */
  lemma SliceWithin(bytes: seq<byte>, start: uint32, end: uint32)
    requires start <= end && end as int <= |bytes| <= MAX_LENGTH
    ensures Slice(bytes, start, end) == bytes[start..end]
  {
    var rest := Skip(bytes, ToInt32(start));
    assert rest == bytes[start..];
  }

  /** Past the end of the payload the slice is empty. */
  lemma SliceBeyond(bytes: seq<byte>, start: uint32, end: uint32)
    requires |bytes| <= start as int < INT32_LIMIT
    ensures Slice(bytes, start, end) == []
  {
  }

  /** Continuing the checksum of the bytes before `start` over the slice gives the
      checksum of the bytes before `end`, when the slice lies in the payload or
      starts past its end with `end` at the end. */
  lemma SliceCrc(bytes: seq<byte>, start: uint32, end: uint32, seed: Option<bv32>)
    requires |bytes| <= MAX_LENGTH && start as int < INT32_LIMIT && end as int <= |bytes|
    requires start <= end || end as int == |bytes|
    requires SeedValue(seed) == PrefixCrc(bytes, start)
    ensures Crc(Slice(bytes, start, end), seed) == PrefixCrc(bytes, end)
  {
    if start <= end {
      SliceWithin(bytes, start, end);
      PrefixBelowLength(bytes, start);
      PrefixBelowLength(bytes, end);
      CrcExtend(bytes, start as int, end as int, seed);
    } else {
      SliceBeyond(bytes, start, end);
      CrcEmpty(seed);
      assert Prefix(bytes, start) == bytes;
      PrefixBelowLength(bytes, end);
      assert bytes[..end] == bytes;
    }
  }

  // ---------------------------------------------------------------------------
  // The chunk arithmetic.

  /** `start - (start % chunkSize)`: the retry rewinds to the chunk boundary. */
  function ChunkStart(start: uint32, cs: ChunkSize): (r: uint32)
    ensures r <= start
  {
    start - start % cs
  }

  /** The rewound start is the chunk boundary at or before `start`. */
  lemma ChunkStartAligned(start: uint32, cs: ChunkSize)
    ensures ChunkStart(start, cs) as int % cs as int == 0
    ensures start as int - ChunkStart(start, cs) as int < cs as int
  {
    RoundDownIsMultiple(start as int, cs as int);
  }

  /** `Math.Min(bytes.Length, (offset + chunkSize) - (offset % chunkSize))`, in `uint`
      arithmetic: the end of the chunk holding a resumed offset, which is the next
      chunk boundary after it or the end of the payload. Only for an offset beyond
      the payload and the range of `int` can the sum wrap. */
  function ChunkEnd(offset: uint32, cs: ChunkSize, len: nat): (r: uint32)
    requires len <= MAX_LENGTH
    ensures r as int <= len
    ensures offset as int <= len ==> offset < r || r as int == len
    ensures offset as int < len ==> offset < r && r as int <= offset as int + cs as int
    ensures offset as int > len && offset as int < INT32_LIMIT ==> r as int == len
  {
    RoundDownIsMultiple(offset as int, cs as int);
    Min(len, U32Sub(U32Add(offset, cs), offset % cs) as int) as uint32
  }

  /** Within the range of `int`, the end of a resumed chunk is a chunk boundary or the
      end of the payload. */
  lemma ChunkEndAligned(offset: uint32, cs: ChunkSize, len: nat)
    requires len <= MAX_LENGTH && offset as int < INT32_LIMIT
    ensures ChunkEnd(offset, cs, len) as int == len || ChunkEnd(offset, cs, len) as int % cs as int == 0
  {
    RoundDownIsMultiple(offset as int, cs as int);
  }

  /** An offset at 2^32 - 1 and a chunk size of 2 wrap the sum: the resumed chunk then
      ends at offset 0 of a payload of ten bytes, before where it starts. */
  lemma ChunkEndWraps()
    ensures ChunkEnd(0xFFFF_FFFF, 2, 10) == 0
  {
  }

  /** `Math.Min(bytes.Length, end + chunkSize)`: the end of the chunk after `end`.
      Both terms are below 2^31, so the `uint` sum does not wrap. */
  function NextEnd(end: uint32, cs: ChunkSize, len: nat): (r: uint32)
    requires end as int < len <= MAX_LENGTH
    ensures end < r && r as int <= len && r as int <= end as int + cs as int
    ensures r as int == len || r as int == end as int + cs as int
  {
    Min(len, end as int + cs as int) as uint32
  }

  /** The seed of a chunk re-sent from `newStart`: none from the payload's start,
      otherwise the checksum of the bytes before it. */
  function RewoundSeed(bytes: seq<byte>, newStart: uint32): (r: Option<bv32>)
    ensures r.None? <==> newStart == 0
  {
    if newStart == 0 then None else Some(PrefixCrc(bytes, newStart))
  }

  /** The verification after the checksum request: the offset is checked first,
      then the checksum. */
  function ChunkCheck(end: uint32, expected: bv32, reported: Answer): (r: Option<int>)
    ensures r.None? <==> reported.offset == end && reported.crc == expected
    ensures reported.offset != end ==> r == Some(ERROR_UNEXPECTED_BYTES)
    ensures reported.offset == end && reported.crc != expected ==> r == Some(ERROR_CRC_MISMATCH)
  {
    if reported.offset != end then Some(ERROR_UNEXPECTED_BYTES)
    else if expected != reported.crc then Some(ERROR_CRC_MISMATCH)
    else None
  }

  // ---------------------------------------------------------------------------
  // Primitives and the exception check around them.

  /** One primitive: the device answers, the exchange is logged, and an exception
      the device raised is recorded in the slot. */
  function Call(device: Device, w: World, c: Command): (r: Run<Answer>)
    ensures r.world.log == w.log + [Event(c, device(w.log, c))]
    ensures r.result == device(w.log, c).result
    ensures r.world.slot == if device(w.log, c).raised.Some? then device(w.log, c).raised else w.slot
  {
    var reply := device(w.log, c);
    Run(reply.result, World(w.log + [Event(c, reply)], if reply.raised.Some? then reply.raised else w.slot))
  }

  function Cleared(w: World): World {
    w.(slot := None)
  }

  /** `AwaitAndCheckException` around an operation that ran on the cleared world
      `Cleared(before)`; when an exception was pending the operation does not run. */
  function Guard<T>(before: World, inner: Run<T>): (r: Run<T>)
    ensures before.slot.Some? ==> r == Run(Failure(Dfu(before.slot.value)), Cleared(before))
    ensures before.slot.None? ==> r.world.log == inner.world.log
    ensures r.result.Success? <==> before.slot.None? && inner.result.Success? && inner.world.slot.None?
    ensures r.result.Success? ==> r == inner
  {
    var (result, slot) := AwaitAndCheck(before.slot, inner.result, inner.world.slot);
    Run(result, if before.slot.Some? then Cleared(before) else inner.world.(slot := slot))
  }

  /** A primitive inside `AwaitAndCheckException`: with an exception pending the
      primitive is not sent; it succeeds only when it succeeds and raises nothing. */
  function GuardedCall(device: Device, w: World, c: Command): (r: Run<Answer>)
    ensures w.slot.Some? ==> r == Run(Failure(Dfu(w.slot.value)), Cleared(w))
    ensures w.slot.None? ==> r.world.log == w.log + [Event(c, device(w.log, c))]
    ensures r.result.Success? <==> w.slot.None? && device(w.log, c).result.Success? && device(w.log, c).raised.None?
    ensures r.result.Success? ==> r == Call(device, w, c) && r.world.slot.None?
  {
    Guard(w, Call(device, Cleared(w), c))
  }

  function Unit<T>(r: Run<T>): (u: Run<()>)
    ensures u.world == r.world && (u.result.Success? <==> r.result.Success?)
    ensures r.result.Failure? ==> u.result == Failure(r.result.error)
  {
    if r.result.Success? then Run(Success(()), r.world) else Run(Failure(r.result.error), r.world)
  }

  // ---------------------------------------------------------------------------
  // The transfer, as the source's recursions.

  /** One attempt of `SendPayloadChunk`: write the slice and request the checksum
      at the chunk's end. The result is the transport's failure, or the verdict of
      the check (`None` when offset and checksum agree). */
  function AttemptSpec(device: Device, w: World, bytes: seq<byte>, start: uint32, end: uint32,
                       seed: Option<bv32>): (r: Run<Option<int>>)
    ensures var write := Call(device, w, Write(Slice(bytes, start, end), seed, start));
            var check := Call(device, write.world, CrcRequest(end, Some(Crc(Slice(bytes, start, end), seed))));
            && (write.result.Failure? ==> r == Run(Failure(write.result.error), write.world))
            && (write.result.Success? ==> r.world == check.world)
            && (write.result.Success? && check.result.Failure? ==> r.result == Failure(check.result.error))
            && (write.result.Success? && check.result.Success? ==>
                  r.result == Success(ChunkCheck(end, Crc(Slice(bytes, start, end), seed), check.result.value)))
  {
    var sub := Slice(bytes, start, end);
    var crcAtChunkEnd := Crc(sub, seed);
    var write := Call(device, w, Write(sub, seed, start));
    if write.result.Failure? then Run(Failure(write.result.error), write.world)
    else
      var check := Call(device, write.world, CrcRequest(end, Some(crcAtChunkEnd)));
      if check.result.Failure? then Run(Failure(check.result.error), check.world)
      else Run(Success(ChunkCheck(end, crcAtChunkEnd, check.result.value)), check.world)
  }

  /** `SendPayloadChunk`: an attempt, and on a failed check a re-create and a new
      attempt from the chunk boundary, at most five times. */
  function SendPayloadChunkSpec(device: Device, w: World, objType: byte, bytes: seq<byte>,
                                start: uint32, end: uint32, cs: ChunkSize, seed: Option<bv32>, retries: nat): (r: Run<()>)
    requires retries <= 5
    ensures w.log < r.world.log
    decreases 5 - retries, 1
  {
    var attempt := AttemptSpec(device, w, bytes, start, end, seed);
    if attempt.result.Failure? then Run(Failure(attempt.result.error), attempt.world)
    else if attempt.result.value.None? then Run(Success(()), attempt.world)
    else if retries >= 5 then Run(Failure(Dfu(ERROR_TOO_MANY_WRITE_FAILURES)), attempt.world)
    else RetrySpec(device, attempt.world, objType, bytes, start, end, cs, retries)
  }

  /** The retry of `SendPayloadChunk` after a failed check: re-create the object and
      send again from the chunk boundary at or before `start`, seeded with the
      checksum of everything before that boundary. */
  function RetrySpec(device: Device, w: World, objType: byte, bytes: seq<byte>,
                     start: uint32, end: uint32, cs: ChunkSize, retries: nat): (r: Run<()>)
    requires retries < 5
    ensures w.log < r.world.log
    decreases 5 - retries, 0
  {
    var newStart := ChunkStart(start, cs);
    var rewound := RewoundSeed(bytes, newStart);
    var create := Call(device, w, Create(objType, U32Sub(end, start)));
    if create.result.Failure? then Unit(create)
    else SendPayloadChunkSpec(device, create.world, objType, bytes, newStart, end, cs, rewound, retries + 1)
  }

  /** The steps of `SendPayloadChunkSpec`: the attempt, and what follows each of its
      outcomes. */
  lemma ChunkSteps(device: Device, w: World, objType: byte, bytes: seq<byte>,
                   start: uint32, end: uint32, cs: ChunkSize, seed: Option<bv32>, retries: nat)
    returns (attempt: Run<Option<int>>)
    requires retries <= 5
    ensures attempt == AttemptSpec(device, w, bytes, start, end, seed)
    ensures var r := SendPayloadChunkSpec(device, w, objType, bytes, start, end, cs, seed, retries);
            && r.world.log[..|attempt.world.log|] == attempt.world.log
            && (attempt.result.Failure? ==> r == Run(Failure(attempt.result.error), attempt.world))
            && (attempt.result.Success? && attempt.result.value.None? ==> r == Run(Success(()), attempt.world))
            && (attempt.result.Success? && attempt.result.value.Some? && retries >= 5 ==>
                  r == Run(Failure(Dfu(ERROR_TOO_MANY_WRITE_FAILURES)), attempt.world))
            && (attempt.result.Success? && attempt.result.value.Some? && retries < 5 ==>
                  r == RetrySpec(device, attempt.world, objType, bytes, start, end, cs, retries))
  {
    attempt := AttemptSpec(device, w, bytes, start, end, seed);
  }

  /** The steps of `RetrySpec`: the re-create, and what follows it. */
  lemma RetrySteps(device: Device, w: World, objType: byte, bytes: seq<byte>,
                   start: uint32, end: uint32, cs: ChunkSize, retries: nat)
    returns (create: Run<Answer>)
    requires retries < 5
    ensures create == Call(device, w, Create(objType, U32Sub(end, start)))
    ensures var r := RetrySpec(device, w, objType, bytes, start, end, cs, retries);
            && (create.result.Failure? ==> r == Unit(create))
            && (create.result.Success? ==>
                  r == SendPayloadChunkSpec(device, create.world, objType, bytes, ChunkStart(start, cs), end, cs,
                                            RewoundSeed(bytes, ChunkStart(start, cs)), retries + 1))
  {
    create := Call(device, w, Create(objType, U32Sub(end, start)));
  }

  /** `SendAndExecutePayloadChunk`: send one chunk, then go on with `AfterChunkSpec`. */
  function SendAndExecuteSpec(device: Device, w: World, objType: byte, bytes: seq<byte>,
                              start: uint32, end: uint32, cs: ChunkSize, seed: Option<bv32>): (r: Run<()>)
    requires |bytes| <= MAX_LENGTH && end as int <= |bytes|
    ensures w.log < r.world.log
    decreases |bytes| - end as int, 2
  {
    var chunk := SendPayloadChunkSpec(device, w, objType, bytes, start, end, cs, seed, 0);
    if chunk.result.Failure? then chunk
    else AfterChunkSpec(device, chunk.world, objType, bytes, end, cs)
  }

  /** The rest of `SendAndExecutePayloadChunk` once a chunk has been sent: execute it,
      and unless it was the last, go on with the next chunk. */
  function AfterChunkSpec(device: Device, w: World, objType: byte, bytes: seq<byte>,
                          end: uint32, cs: ChunkSize): (r: Run<()>)
    requires |bytes| <= MAX_LENGTH && end as int <= |bytes|
    ensures w.log < r.world.log
    decreases |bytes| - end as int, 1
  {
    var exec := Call(device, w, Execute);
    if exec.result.Failure? then Unit(exec)
    else if end as int >= |bytes| then Unit(exec)
    else NextChunkSpec(device, exec.world, objType, bytes, end, cs)
  }

  /** The next chunk after the execute of one that was not the last: create it and
      send it, seeded with the checksum of everything before it. */
  function NextChunkSpec(device: Device, w: World, objType: byte, bytes: seq<byte>,
                         end: uint32, cs: ChunkSize): (r: Run<()>)
    requires end as int < |bytes| <= MAX_LENGTH
    ensures w.log < r.world.log
    decreases |bytes| - end as int, 0
  {
    var nextEnd := NextEnd(end, cs, |bytes|);
    var create := Call(device, w, Create(objType, nextEnd - end));
    if create.result.Failure? then Unit(create)
    else SendAndExecuteSpec(device, create.world, objType, bytes, end, nextEnd, cs, Some(PrefixCrc(bytes, end)))
  }

  /** The steps of `SendAndExecuteSpec`: the chunk, and what follows it. */
  lemma SendAndExecuteSteps(device: Device, w: World, objType: byte, bytes: seq<byte>,
                            start: uint32, end: uint32, cs: ChunkSize, seed: Option<bv32>)
    returns (chunk: Run<()>)
    requires |bytes| <= MAX_LENGTH && end as int <= |bytes|
    ensures chunk == SendPayloadChunkSpec(device, w, objType, bytes, start, end, cs, seed, 0)
    ensures var r := SendAndExecuteSpec(device, w, objType, bytes, start, end, cs, seed);
            && (chunk.result.Failure? ==> r == chunk)
            && (chunk.result.Success? ==> r == AfterChunkSpec(device, chunk.world, objType, bytes, end, cs))
  {
    chunk := SendPayloadChunkSpec(device, w, objType, bytes, start, end, cs, seed, 0);
  }

  /** The steps of `AfterChunkSpec`: the execute, and what follows it. */
  lemma AfterChunkSteps(device: Device, w: World, objType: byte, bytes: seq<byte>, end: uint32, cs: ChunkSize)
    returns (exec: Run<Answer>)
    requires |bytes| <= MAX_LENGTH && end as int <= |bytes|
    ensures exec == Call(device, w, Execute)
    ensures var r := AfterChunkSpec(device, w, objType, bytes, end, cs);
            && (exec.result.Failure? || end as int == |bytes| ==> r == Unit(exec))
            && (exec.result.Success? && end as int < |bytes| ==> r == NextChunkSpec(device, exec.world, objType, bytes, end, cs))
  {
    exec := Call(device, w, Execute);
  }

  /** The steps of `NextChunkSpec`: the create, and what follows it. */
  lemma NextChunkSteps(device: Device, w: World, objType: byte, bytes: seq<byte>, end: uint32, cs: ChunkSize)
    returns (create: Run<Answer>)
    requires end as int < |bytes| <= MAX_LENGTH
    ensures create == Call(device, w, Create(objType, NextEnd(end, cs, |bytes|) - end))
    ensures var r := NextChunkSpec(device, w, objType, bytes, end, cs);
            && (create.result.Failure? ==> r == Unit(create))
            && (create.result.Success? ==>
                  r == SendAndExecuteSpec(device, create.world, objType, bytes, end, NextEnd(end, cs, |bytes|), cs,
                                          Some(PrefixCrc(bytes, end))))
  {
    create := Call(device, w, Create(objType, NextEnd(end, cs, |bytes|) - end));
  }

  /** `SendPayload` after a successful select that reported a non-zero offset. */
  function ResumeSpec(device: Device, w: World, objType: byte, bytes: seq<byte>, selected: Answer,
                      resumeAtChunkBoundary: bool): (r: Run<()>)
    requires |bytes| <= MAX_LENGTH
    ensures w.log <= r.world.log
    decreases if resumeAtChunkBoundary then 0 else 1, 0
  {
    var offset := selected.offset;
    var cs := selected.chunkSize;
    var crc := PrefixCrc(bytes, offset);
    if crc != selected.crc then Run(Failure(Dfu(ERROR_PRE_DFU_INTERRUPTED)), w)
    else if offset as int == |bytes| then Unit(GuardedCall(device, w, Execute))
    else if offset % cs == 0 && !resumeAtChunkBoundary then
      var exec := GuardedCall(device, w, Execute);
      if exec.result.Failure? then Unit(exec)
      else Guard(exec.world, SendPayloadSpec(device, Cleared(exec.world), objType, bytes, true))
    else
      var chunkEnd := ChunkEnd(offset, cs, |bytes|);
      Guard(w, SendAndExecuteSpec(device, Cleared(w), objType, bytes, offset, chunkEnd, cs, Some(crc)))
  }

  /** `SendPayload` after a successful select that reported offset zero. */
  function FreshSpec(device: Device, w: World, objType: byte, bytes: seq<byte>, cs: ChunkSize): (r: Run<()>)
    requires |bytes| <= MAX_LENGTH
    ensures w.log <= r.world.log
  {
    var end := Min(|bytes|, cs as int) as uint32;
    var create := GuardedCall(device, w, Create(objType, end));
    if create.result.Failure? then Unit(create)
    else Guard(create.world, SendAndExecuteSpec(device, Cleared(create.world), objType, bytes, 0, end, cs, None))
  }

  /** `SendPayload`: select the object type, then resume or start afresh. */
  function SendPayloadSpec(device: Device, w: World, objType: byte, bytes: seq<byte>,
                           resumeAtChunkBoundary: bool): (r: Run<()>)
    requires |bytes| <= MAX_LENGTH
    ensures w.log <= r.world.log
    decreases if resumeAtChunkBoundary then 0 else 1, 1
  {
    var select := GuardedCall(device, w, Select(objType));
    if select.result.Failure? then Unit(select)
    else if select.result.value.offset != 0 then
      ResumeSpec(device, select.world, objType, bytes, select.result.value, resumeAtChunkBoundary)
    else FreshSpec(device, select.world, objType, bytes, select.result.value.chunkSize)
  }

  // ---------------------------------------------------------------------------
  // The transport object.

  class AbstractTransport {
    const device: Device
    var log: seq<Event>
    /** `LastException`: the code of the recorded exception, if any. */
    var lastException: Option<int>

    function Current(): World
      reads this
    {
      World(log, lastException)
    }

    constructor(device: Device)
      ensures this.device == device && log == [] && lastException.None?
    {
      this.device := device;
      log := [];
      lastException := None;
    }

    /** One of the six primitives, answered by the device. */
    method Primitive(c: Command) returns (r: Result<Answer, Error>)
      modifies this
      ensures Run(r, Current()) == Call(device, old(Current()), c)
    {
      var reply := device(log, c);
      log := log + [Event(c, reply)];
      if reply.raised.Some? {
        lastException := reply.raised;
      }
      r := reply.result;
    }

    method CreateObject(objType: byte, size: uint32) returns (r: Result<Answer, Error>)
      modifies this
      ensures Run(r, Current()) == Call(device, old(Current()), Create(objType, size))
    {
      r := Primitive(Create(objType, size));
    }

    method WriteObject(data: seq<byte>, seed: Option<bv32>, offset: uint32) returns (r: Result<Answer, Error>)
      modifies this
      ensures Run(r, Current()) == Call(device, old(Current()), Write(data, seed, offset))
    {
      r := Primitive(Write(data, seed, offset));
    }

    method CrcObject(offset: uint32, seed: Option<bv32>) returns (r: Result<Answer, Error>)
      modifies this
      ensures Run(r, Current()) == Call(device, old(Current()), CrcRequest(offset, seed))
    {
      r := Primitive(CrcRequest(offset, seed));
    }

    method ExecuteObject() returns (r: Result<Answer, Error>)
      modifies this
      ensures Run(r, Current()) == Call(device, old(Current()), Execute)
    {
      r := Primitive(Execute);
    }

    method SelectObject(objType: byte) returns (r: Result<Answer, Error>)
      modifies this
      ensures Run(r, Current()) == Call(device, old(Current()), Select(objType))
    {
      r := Primitive(Select(objType));
    }

    method AbortObject() returns (r: Result<Answer, Error>)
      modifies this
      ensures Run(r, Current()) == Call(device, old(Current()), AbortDfu)
    {
      r := Primitive(AbortDfu);
    }

    /** `CheckExceptionWithThrow`: reads and clears the slot. */
    method CheckExceptionWithThrow() returns (raised: Option<int>)
      modifies this
      ensures raised == old(lastException) && lastException.None? && log == old(log)
      ensures SlotCheck(raised, lastException) == DfuExceptionExtensions.CheckExceptionWithThrow(old(lastException))
    {
      raised := lastException;
      lastException := None;
    }

    /** The second check of `AwaitAndCheckException`, after the operation. */
    method CheckAfter<T>(result: Result<T, Error>) returns (r: Result<T, Error>)
      modifies this
      ensures log == old(log)
      ensures (r, lastException) == AwaitAndCheck(None, result, old(lastException))
    {
      if result.Failure? {
        return result;
      }
      var raised := CheckExceptionWithThrow();
      if raised.Some? {
        return Failure(Dfu(raised.value));
      }
      r := result;
    }

    /** `AwaitAndCheckException(primitive)`. */
    method GuardedPrimitive(c: Command) returns (r: Result<Answer, Error>)
      modifies this
      ensures Run(r, Current()) == GuardedCall(device, old(Current()), c)
    {
      var raised := CheckExceptionWithThrow();
      if raised.Some? {
        return Failure(Dfu(raised.value));
      }
      r := Primitive(c);
      r := CheckAfter(r);
    }

    /** `Restart`: creates a command object of 16 bytes, which discards any
        interrupted transfer. */
    method Restart() returns (r: Result<Answer, Error>)
      modifies this
      ensures Run(r, Current()) == Call(device, old(Current()), Create(OBJECT_COMMAND, 0x10))
    {
      r := CreateObject(OBJECT_COMMAND, 0x10);
    }

    /** `Abort`: asks the device to leave bootloader mode. */
    method Abort() returns (r: Result<Answer, Error>)
      modifies this
      ensures Run(r, Current()) == Call(device, old(Current()), AbortDfu)
    {
      r := AbortObject();
    }

    method SendInitPacket(bytes: seq<byte>) returns (r: Result<(), Error>)
      requires |bytes| <= MAX_LENGTH
      modifies this
      ensures Run(r, Current()) == SendPayloadSpec(device, old(Current()), OBJECT_COMMAND, bytes, false)
    {
      r := SendPayload(OBJECT_COMMAND, bytes, false);
    }

    method SendFirmwareImage(bytes: seq<byte>) returns (r: Result<(), Error>)
      requires |bytes| <= MAX_LENGTH
      modifies this
      ensures Run(r, Current()) == SendPayloadSpec(device, old(Current()), OBJECT_DATA, bytes, false)
    {
      r := SendPayload(OBJECT_DATA, bytes, false);
    }

    /** The first half of the body of `SendPayloadChunk`: write the slice, request
        the checksum at the chunk's end and check the answer. */
    method Attempt(bytes: seq<byte>, start: uint32, end: uint32, seed: Option<bv32>) returns (r: Result<Option<int>, Error>)
      modifies this
      ensures Run(r, Current()) == AttemptSpec(device, old(Current()), bytes, start, end, seed)
    {
      var subarray := Slice(bytes, start, end);
      var crcAtChunkEnd := Crc(subarray, seed);
      var writeResult := WriteObject(subarray, seed, start);
      if writeResult.Failure? {
        return Failure(writeResult.error);
      }
      var crcResult := CrcObject(end, Some(crcAtChunkEnd));
      if crcResult.Failure? {
        return Failure(crcResult.error);
      }
      r := Success(ChunkCheck(end, crcAtChunkEnd, crcResult.value));
    }

    /** `SendPayloadChunk`, first half: an attempt and the decision on its outcome. */
    method SendPayloadChunk(objType: byte, bytes: seq<byte>, start: uint32, end: uint32, cs: ChunkSize,
                            seed: Option<bv32>, retries: nat) returns (r: Result<(), Error>)
      requires retries <= 5
      modifies this
      ensures Run(r, Current()) == SendPayloadChunkSpec(device, old(Current()), objType, bytes, start, end, cs, seed, retries)
      decreases 5 - retries, 1
    {
      var err := Attempt(bytes, start, end, seed);
      if err.Failure? {
        return Failure(err.error);
      }
      if err.value.None? {
        return Success(());
      }
      if retries >= 5 {
        return Failure(Dfu(ERROR_TOO_MANY_WRITE_FAILURES));
      }
      r := Retry(objType, bytes, start, end, cs, retries);
    }

    /** `SendPayloadChunk`, second half: the re-create and the recursive call from the
        chunk boundary. */
    method Retry(objType: byte, bytes: seq<byte>, start: uint32, end: uint32, cs: ChunkSize,
                 retries: nat) returns (r: Result<(), Error>)
      requires retries < 5
      modifies this
      ensures Run(r, Current()) == RetrySpec(device, old(Current()), objType, bytes, start, end, cs, retries)
      decreases 5 - retries, 0
    {
      var newStart := ChunkStart(start, cs);
      var rewoundCrc := RewoundSeed(bytes, newStart);
      ghost var before := Current();
      var created := CreateObject(objType, U32Sub(end, start));
      assert Run(created, Current()) == Call(device, before, Create(objType, U32Sub(end, start)));
      if created.Failure? {
        return Failure(created.error);
      }
      r := SendPayloadChunk(objType, bytes, newStart, end, cs, rewoundCrc, retries + 1);
    }

    /** `SendAndExecutePayloadChunk`, first half: the chunk. */
    method SendAndExecutePayloadChunk(objType: byte, bytes: seq<byte>, start: uint32, end: uint32,
                                      cs: ChunkSize, seed: Option<bv32>) returns (r: Result<(), Error>)
      requires |bytes| <= MAX_LENGTH && end as int <= |bytes|
      modifies this
      ensures Run(r, Current()) == SendAndExecuteSpec(device, old(Current()), objType, bytes, start, end, cs, seed)
      decreases |bytes| - end as int, 2
    {
      r := SendPayloadChunk(objType, bytes, start, end, cs, seed, 0);
      if r.Failure? {
        return;
      }
      r := AfterChunk(objType, bytes, end, cs);
    }

    /** `SendAndExecutePayloadChunk`, second half: the execute, the create of the next
        chunk and the recursive call for it. */
    method AfterChunk(objType: byte, bytes: seq<byte>, end: uint32, cs: ChunkSize) returns (r: Result<(), Error>)
      requires |bytes| <= MAX_LENGTH && end as int <= |bytes|
      modifies this
      ensures Run(r, Current()) == AfterChunkSpec(device, old(Current()), objType, bytes, end, cs)
      decreases |bytes| - end as int, 1
    {
      var executed := ExecuteObject();
      if executed.Failure? {
        return Failure(executed.error);
      }
      if end as int >= |bytes| {
        return Success(());
      }
      var nextEnd := NextEnd(end, cs, |bytes|);
      ghost var afterExecute := Current();
      var created := CreateObject(objType, nextEnd - end);
      assert Run(created, Current()) == Call(device, afterExecute, Create(objType, nextEnd - end));
      if created.Failure? {
        return Failure(created.error);
      }
      r := SendAndExecutePayloadChunk(objType, bytes, end, nextEnd, cs, Some(PrefixCrc(bytes, end)));
    }

    /** `SendPayload`; the boundary case re-selects once, through a recursive call
        with the flag set. */
    method SendPayload(objType: byte, bytes: seq<byte>, resumeAtChunkBoundary: bool) returns (r: Result<(), Error>)
      requires |bytes| <= MAX_LENGTH
      modifies this
      ensures Run(r, Current()) == SendPayloadSpec(device, old(Current()), objType, bytes, resumeAtChunkBoundary)
      decreases if resumeAtChunkBoundary then 0 else 1
    {
      var selected := GuardedPrimitive(Select(objType));
      if selected.Failure? {
        return Failure(selected.error);
      }
      var offset := selected.value.offset;
      var crcSoFar := selected.value.crc;
      var chunkSize := selected.value.chunkSize;
      if offset != 0 {
        var crc := PrefixCrc(bytes, offset);
        if crc == crcSoFar {
          if offset as int == |bytes| {
            var executed := GuardedPrimitive(Execute);
            return if executed.Success? then Success(()) else Failure(executed.error);
          }
          if offset % chunkSize == 0 && !resumeAtChunkBoundary {
            var executed := GuardedPrimitive(Execute);
            if executed.Failure? {
              return Failure(executed.error);
            }
            var pending := CheckExceptionWithThrow();
            match pending {
              case Some(code) => return Failure(Dfu(code));
              case None =>
            }
            r := SendPayload(objType, bytes, true);
            r := CheckAfter(r);
            return;
          }
          var chunkEnd := ChunkEnd(offset, chunkSize, |bytes|);
          var pending := CheckExceptionWithThrow();
          match pending {
            case Some(code) => return Failure(Dfu(code));
            case None =>
          }
          r := SendAndExecutePayloadChunk(objType, bytes, offset, chunkEnd, chunkSize, Some(crc));
          r := CheckAfter(r);
          return;
        }
        return Failure(Dfu(ERROR_PRE_DFU_INTERRUPTED));
      }
      var end := Min(|bytes|, chunkSize as int) as uint32;
      var created := GuardedPrimitive(Create(objType, end));
      if created.Failure? {
        return Failure(created.error);
      }
      var pending := CheckExceptionWithThrow();
      match pending {
        case Some(code) => return Failure(Dfu(code));
        case None =>
      }
      r := SendAndExecutePayloadChunk(objType, bytes, 0, end, chunkSize, None);
      r := CheckAfter(r);
    }
  }
}
