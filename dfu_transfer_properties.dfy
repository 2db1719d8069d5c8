/** What the chunked transfer guarantees, for every device behaviour.

    - A transfer that succeeds ends with an executed object, right after the device
      confirmed the whole payload: offset equal to its length and the checksum of
      all of it.
    - Every write sends bytes of the payload at their own offset, seeded with the
      checksum of everything before them.
    - A resume whose checksum disagrees aborts after the select alone.
    - A chunk is written at most six times.
    - Against a device that accepts everything, a fresh transfer issues exactly the
      reference command sequence `TransferCommands`. */
module DfuTransferProperties {
  import opened Common
  import opened Crc32
  import opened DfuErrors
  import opened DfuExceptionExtensions
  import opened DfuAbstractTransport

  function Last(log: seq<Event>): Event
    requires |log| > 0
  {
    log[|log| - 1]
  }

  lemma AppendAssociative(a: seq<Event>, b: seq<Event>, c: seq<Event>)
    ensures a + (b + c) == a + b + c
  {
  }

  /** A successful checksum request answered with offset n and the checksum of the
      first n payload bytes. */
  predicate ConfirmsUpTo(e: Event, bytes: seq<byte>, n: uint32) {
    e.cmd.CrcRequest? && e.reply.result.Success?
    && e.reply.result.value.offset == n && e.reply.result.value.crc == PrefixCrc(bytes, n)
  }

  /** A checksum request or a select answered with the whole payload's length and
      checksum. */
  predicate ConfirmsAll(e: Event, bytes: seq<byte>) {
    (e.cmd.CrcRequest? || e.cmd.Select?) && e.reply.result.Success?
    && e.reply.result.value.offset as int == |bytes| && e.reply.result.value.crc == Crc(bytes, None)
  }

  /** The log ends, after position `from`, with a confirmation of the whole payload
      immediately followed by a successful execute. */
  predicate ConfirmedThenExecuted(log: seq<Event>, from: nat, bytes: seq<byte>) {
    |log| >= from + 2 && ConfirmsAll(log[|log| - 2], bytes)
    && Last(log).cmd == Execute && Last(log).reply.result.Success?
  }

  /** The seed the transfer carries for a slice starting at `start`. */
  predicate SeedFits(bytes: seq<byte>, start: uint32, seed: Option<bv32>) {
    SeedValue(seed) == PrefixCrc(bytes, start)
  }

  /** The shape of every slice the transfer sends: inside the payload, or starting
      past its end with the payload's end as its end. */
  predicate SliceShape(bytes: seq<byte>, start: uint32, end: uint32) {
    |bytes| <= MAX_LENGTH && start as int < INT32_LIMIT && end as int <= |bytes|
    && (start <= end || end as int == |bytes|)
  }

  /** Devices whose select replies report offsets that fit in an `int`; the offset
      is cast with `(int)` before the payload is cut at it. */
  ghost predicate SelectOffsetsFit(device: Device) {
    forall h, t :: device(h, Select(t)).result.Success? ==> device(h, Select(t)).result.value.offset as int < INT32_LIMIT
  }

  lemma SeedForStart(bytes: seq<byte>, newStart: uint32)
    ensures SeedFits(bytes, newStart, RewoundSeed(bytes, newStart))
  {
    if newStart == 0 {
      assert Prefix(bytes, 0) == [];
      CrcEmpty(None);
    }
  }

  // ---------------------------------------------------------------------------
  // Success means confirmed.

  /** An attempt whose check passes ends with the device confirming the checksum of
      every payload byte before the chunk's end. */
  lemma AttemptConfirms(device: Device, w: World, bytes: seq<byte>, start: uint32, end: uint32, seed: Option<bv32>)
    requires SliceShape(bytes, start, end) && SeedFits(bytes, start, seed)
    ensures var a := AttemptSpec(device, w, bytes, start, end, seed);
            a.result == Success(None) ==> |a.world.log| > |w.log| && ConfirmsUpTo(Last(a.world.log), bytes, end)
  {
    SliceCrc(bytes, start, end, seed);
  }

  /** A chunk that succeeds ends with the device confirming the checksum of every
      payload byte before the chunk's end. */
  lemma {:induction false} ChunkSuccessConfirmed(device: Device, w: World, objType: byte, bytes: seq<byte>,
                                                 start: uint32, end: uint32, cs: ChunkSize, seed: Option<bv32>, retries: nat)
    requires retries <= 5 && SliceShape(bytes, start, end) && SeedFits(bytes, start, seed)
    ensures var r := SendPayloadChunkSpec(device, w, objType, bytes, start, end, cs, seed, retries);
            r.result.Success? ==> ConfirmsUpTo(Last(r.world.log), bytes, end)
    decreases 5 - retries, 2
  {
    var attempt := ChunkSteps(device, w, objType, bytes, start, end, cs, seed, retries);
    AttemptConfirms(device, w, bytes, start, end, seed);
    if attempt.result.Success? && attempt.result.value.Some? && retries < 5 {
      RetryConfirmed(device, attempt.world, objType, bytes, start, end, cs, retries);
    }
  }

  /** A retry that succeeds ends with the same confirmation. */
  lemma {:induction false} RetryConfirmed(device: Device, w: World, objType: byte, bytes: seq<byte>,
                                          start: uint32, end: uint32, cs: ChunkSize, retries: nat)
    requires retries < 5 && SliceShape(bytes, start, end)
    ensures var r := RetrySpec(device, w, objType, bytes, start, end, cs, retries);
            r.result.Success? ==> ConfirmsUpTo(Last(r.world.log), bytes, end)
    decreases 5 - retries, 1
  {
    var create := RetrySteps(device, w, objType, bytes, start, end, cs, retries);
    if create.result.Success? {
      RetryFromBoundary(device, create.world, objType, bytes, start, end, cs, retries);
    }
  }

  /** The chunk sent again from the boundary after the re-create. */
  lemma {:induction false} RetryFromBoundary(device: Device, w: World, objType: byte, bytes: seq<byte>,
                                             start: uint32, end: uint32, cs: ChunkSize, retries: nat)
    requires retries < 5 && SliceShape(bytes, start, end)
    ensures var newStart := ChunkStart(start, cs);
            var rewound := RewoundSeed(bytes, newStart);
            var r := SendPayloadChunkSpec(device, w, objType, bytes, newStart, end, cs, rewound, retries + 1);
            r.result.Success? ==> ConfirmsUpTo(Last(r.world.log), bytes, end)
    decreases 5 - retries, 0
  {
    var newStart := ChunkStart(start, cs);
    SeedForStart(bytes, newStart);
    ChunkSuccessConfirmed(device, w, objType, bytes, newStart, end, cs,
                          RewoundSeed(bytes, newStart), retries + 1);
  }

  /** A confirmation up to the payload's end, followed by a successful execute. */
  lemma LastChunkConfirmed(bytes: seq<byte>, end: uint32, chunkLog: seq<Event>, reply: Reply, from: nat)
    requires end as int == |bytes| <= MAX_LENGTH && |chunkLog| > from
    requires ConfirmsUpTo(Last(chunkLog), bytes, end) && reply.result.Success?
    ensures ConfirmedThenExecuted(chunkLog + [Event(Execute, reply)], from, bytes)
  {
    PrefixBelowLength(bytes, end);
    assert bytes[..end] == bytes;
    var log := chunkLog + [Event(Execute, reply)];
    assert log[|log| - 2] == Last(chunkLog);
  }

  /** A chunk sequence that succeeds ends with the whole payload confirmed and then
      executed. */
  lemma {:induction false} SendAndExecuteConfirmed(device: Device, w: World, objType: byte, bytes: seq<byte>,
                                                   start: uint32, end: uint32, cs: ChunkSize, seed: Option<bv32>)
    requires SliceShape(bytes, start, end) && SeedFits(bytes, start, seed)
    ensures var r := SendAndExecuteSpec(device, w, objType, bytes, start, end, cs, seed);
            r.result.Success? ==> ConfirmedThenExecuted(r.world.log, |w.log|, bytes)
    decreases |bytes| - end as int, 2
  {
    var chunk := SendAndExecuteSteps(device, w, objType, bytes, start, end, cs, seed);
    if chunk.result.Success? {
      ChunkSuccessConfirmed(device, w, objType, bytes, start, end, cs, seed, 0);
      AfterChunkConfirmed(device, chunk.world, objType, bytes, end, cs, |w.log|);
    }
  }

  /** After a chunk confirmed up to `end`: the execute, and the chunks after it. */
  lemma {:induction false} AfterChunkConfirmed(device: Device, afterChunk: World, objType: byte, bytes: seq<byte>,
                                               end: uint32, cs: ChunkSize, from: nat)
    requires end as int <= |bytes| <= MAX_LENGTH && from < |afterChunk.log|
    requires ConfirmsUpTo(Last(afterChunk.log), bytes, end)
    ensures var r := AfterChunkSpec(device, afterChunk, objType, bytes, end, cs);
            r.result.Success? ==> ConfirmedThenExecuted(r.world.log, from, bytes)
    decreases |bytes| - end as int, 1
  {
    var exec := AfterChunkSteps(device, afterChunk, objType, bytes, end, cs);
    if exec.result.Success? {
      if end as int >= |bytes| {
        LastChunkConfirmed(bytes, end, afterChunk.log, device(afterChunk.log, Execute), from);
      } else {
        assert |exec.world.log| == |afterChunk.log| + 1;
        NextChunkConfirmed(device, exec.world, objType, bytes, end, cs, from);
      }
    }
  }

  /** After the execute of a chunk that is not the last: create the next chunk and
      send the rest. */
  lemma {:induction false} NextChunkConfirmed(device: Device, afterExecute: World, objType: byte, bytes: seq<byte>,
                                              end: uint32, cs: ChunkSize, from: nat)
    requires end as int < |bytes| <= MAX_LENGTH && from < |afterExecute.log|
    ensures var r := NextChunkSpec(device, afterExecute, objType, bytes, end, cs);
            r.result.Success? ==> ConfirmedThenExecuted(r.world.log, from, bytes)
    decreases |bytes| - end as int, 0
  {
    var r := NextChunkSpec(device, afterExecute, objType, bytes, end, cs);
    var nextEnd := NextEnd(end, cs, |bytes|);
    var create := NextChunkSteps(device, afterExecute, objType, bytes, end, cs);
    if create.result.Success? {
      var seed := Some(PrefixCrc(bytes, end));
      assert |create.world.log| == |afterExecute.log| + 1;
      SendAndExecuteConfirmed(device, create.world, objType, bytes, end, nextEnd, cs, seed);
      if r.result.Success? {
        ConfirmedEarlier(r.world.log, from, |create.world.log|, bytes);
      }
    }
  }

  /** A payload transfer that succeeds ends with the device confirming the whole
      payload (by the select of a completed transfer, or by a checksum request)
      followed by a successful execute. */
  lemma {:induction false} PayloadSuccessConfirmed(device: Device, w: World, objType: byte, bytes: seq<byte>,
                                                   resumeAtChunkBoundary: bool)
    requires |bytes| <= MAX_LENGTH && SelectOffsetsFit(device)
    ensures var r := SendPayloadSpec(device, w, objType, bytes, resumeAtChunkBoundary);
            r.result.Success? ==> ConfirmedThenExecuted(r.world.log, |w.log|, bytes)
    decreases if resumeAtChunkBoundary then 0 else 1, 2
  {
    var select := GuardedCall(device, w, Select(objType));
    if select.result.Success? {
      var a := select.result.value;
      if a.offset != 0 {
        ResumeConfirmed(device, w, select, objType, bytes, resumeAtChunkBoundary);
      } else {
        var end := Min(|bytes|, a.chunkSize as int) as uint32;
        var create := GuardedCall(device, select.world, Create(objType, end));
        if create.result.Success? {
          assert |select.world.log| == |w.log| + 1;
          assert |create.world.log| == |w.log| + 2;
          assert Prefix(bytes, 0) == [];
          CrcEmpty(None);
          var inner := SendAndExecuteSpec(device, Cleared(create.world), objType, bytes, 0, end, a.chunkSize, None);
          SendAndExecuteConfirmed(device, Cleared(create.world), objType, bytes, 0, end, a.chunkSize, None);
          if inner.result.Success? {
            ConfirmedEarlier(inner.world.log, |w.log|, |create.world.log|, bytes);
          }
        }
      }
    }
  }

  lemma {:induction false} ResumeConfirmed(device: Device, w: World, select: Run<Answer>, objType: byte,
                                           bytes: seq<byte>, resumeAtChunkBoundary: bool)
    requires |bytes| <= MAX_LENGTH && SelectOffsetsFit(device)
    requires select == GuardedCall(device, w, Select(objType)) && select.result.Success?
    requires select.result.value.offset != 0
    ensures var r := ResumeSpec(device, select.world, objType, bytes, select.result.value, resumeAtChunkBoundary);
            r.result.Success? ==> ConfirmedThenExecuted(r.world.log, |w.log|, bytes)
    decreases if resumeAtChunkBoundary then 0 else 1, 1
  {
    var r := ResumeSpec(device, select.world, objType, bytes, select.result.value, resumeAtChunkBoundary);
    var a := select.result.value;
    var reply := device(w.log, Select(objType));
    assert a.offset as int < INT32_LIMIT;
    assert select.world.log == w.log + [Event(Select(objType), reply)];
    assert select.world.slot.None?;
    if r.result.Success? {
      if a.offset as int == |bytes| {
        var exec := GuardedCall(device, select.world, Execute);
        var execReply := device(select.world.log, Execute);
        assert exec.world.log == select.world.log + [Event(Execute, execReply)];
        CompleteResumeConfirmed(bytes, w.log, Event(Select(objType), reply), execReply);
      } else if a.offset % a.chunkSize == 0 && !resumeAtChunkBoundary {
        BoundaryResumeConfirmed(device, select.world, objType, bytes);
        ConfirmedEarlier(r.world.log, |w.log|, |select.world.log|, bytes);
      } else {
        var chunkEnd := ChunkEnd(a.offset, a.chunkSize, |bytes|);
        var seed := Some(PrefixCrc(bytes, a.offset));
        var inner := SendAndExecuteSpec(device, Cleared(select.world), objType, bytes, a.offset, chunkEnd, a.chunkSize, seed);
        assert r == inner;
        SendAndExecuteConfirmed(device, Cleared(select.world), objType, bytes, a.offset, chunkEnd, a.chunkSize, seed);
        ConfirmedEarlier(r.world.log, |w.log|, |select.world.log|, bytes);
      }
    }
  }

  /** A select that reports the whole payload as received and checked, followed by a
      successful execute. */
  lemma CompleteResumeConfirmed(bytes: seq<byte>, log: seq<Event>, select: Event, reply: Reply)
    requires |bytes| <= MAX_LENGTH && select.cmd.Select? && select.reply.result.Success?
    requires select.reply.result.value.offset as int == |bytes|
    requires select.reply.result.value.crc == PrefixCrc(bytes, select.reply.result.value.offset)
    requires reply.result.Success?
    ensures ConfirmedThenExecuted(log + [select] + [Event(Execute, reply)], |log|, bytes)
  {
    PrefixBelowLength(bytes, select.reply.result.value.offset);
    assert bytes[..|bytes|] == bytes;
  }

  /** The boundary branch of a resume: execute what was received, then select again
      with the flag set. */
  lemma {:induction false} BoundaryResumeConfirmed(device: Device, w: World, objType: byte, bytes: seq<byte>)
    requires |bytes| <= MAX_LENGTH && SelectOffsetsFit(device)
    ensures var exec := GuardedCall(device, w, Execute);
            var r := Guard(exec.world, SendPayloadSpec(device, Cleared(exec.world), objType, bytes, true));
            exec.result.Success? && r.result.Success? ==> ConfirmedThenExecuted(r.world.log, |w.log|, bytes)
    decreases 1, 0
  {
    var exec := GuardedCall(device, w, Execute);
    if exec.result.Success? {
      var inner := SendPayloadSpec(device, Cleared(exec.world), objType, bytes, true);
      PayloadSuccessConfirmed(device, Cleared(exec.world), objType, bytes, true);
      assert |exec.world.log| == |w.log| + 1;
      if inner.result.Success? {
        ConfirmedEarlier(inner.world.log, |w.log|, |exec.world.log|, bytes);
      }
    }
  }

  lemma ConfirmedEarlier(log: seq<Event>, from: nat, from': nat, bytes: seq<byte>)
    requires from <= from' && ConfirmedThenExecuted(log, from', bytes)
    ensures ConfirmedThenExecuted(log, from, bytes)
  {
  }

  // ---------------------------------------------------------------------------
  // What each branch of a transfer sends first.

  /** The write an attempt sends. */
  function FirstWrite(device: Device, w: World, bytes: seq<byte>, start: uint32, end: uint32, seed: Option<bv32>): Event {
    var c := Write(Slice(bytes, start, end), seed, start);
    Event(c, device(w.log, c))
  }

  /** A chunk starts with the write of its slice. */
  lemma ChunkStartsWithWrite(device: Device, w: World, objType: byte, bytes: seq<byte>,
                             start: uint32, end: uint32, cs: ChunkSize, seed: Option<bv32>, retries: nat)
    requires retries <= 5
    ensures var r := SendPayloadChunkSpec(device, w, objType, bytes, start, end, cs, seed, retries);
            |r.world.log| > |w.log| && r.world.log[|w.log|] == FirstWrite(device, w, bytes, start, end, seed)
  {
    var attempt := ChunkSteps(device, w, objType, bytes, start, end, cs, seed, retries);
    var r := SendPayloadChunkSpec(device, w, objType, bytes, start, end, cs, seed, retries);
    assert attempt.world.log[|w.log|] == FirstWrite(device, w, bytes, start, end, seed);
    assert r.world.log[..|attempt.world.log|][|w.log|] == r.world.log[|w.log|];
  }

  /** A chunk sequence starts with the write of its first slice. */
  lemma SendAndExecuteStartsWithWrite(device: Device, w: World, objType: byte, bytes: seq<byte>,
                                      start: uint32, end: uint32, cs: ChunkSize, seed: Option<bv32>)
    requires |bytes| <= MAX_LENGTH && end as int <= |bytes|
    ensures var r := SendAndExecuteSpec(device, w, objType, bytes, start, end, cs, seed);
            |r.world.log| > |w.log| && r.world.log[|w.log|] == FirstWrite(device, w, bytes, start, end, seed)
  {
    var chunk := SendPayloadChunkSpec(device, w, objType, bytes, start, end, cs, seed, 0);
    ChunkStartsWithWrite(device, w, objType, bytes, start, end, cs, seed, 0);
    if chunk.result.Success? {
      var r := AfterChunkSpec(device, chunk.world, objType, bytes, end, cs);
      assert r.world.log[..|chunk.world.log|] == chunk.world.log;
      assert r.world.log[..|chunk.world.log|][|w.log|] == r.world.log[|w.log|];
    }
  }

  /** A resume whose checksum disagrees fails with `ERROR_PRE_DFU_INTERRUPTED` right
      after the select: nothing is created, written or executed. */
  lemma ResumeMismatchAborts(device: Device, w: World, objType: byte, bytes: seq<byte>, resumeAtChunkBoundary: bool, a: Answer)
    requires |bytes| <= MAX_LENGTH
    requires GuardedCall(device, w, Select(objType)).result == Success(a)
    requires a.offset != 0 && PrefixCrc(bytes, a.offset) != a.crc
    ensures var r := SendPayloadSpec(device, w, objType, bytes, resumeAtChunkBoundary);
            r.result == Failure(Dfu(ERROR_PRE_DFU_INTERRUPTED))
            && r.world.log == w.log + [Event(Select(objType), device(w.log, Select(objType)))]
  {
  }

  /** A resume that finds the whole payload received and checked sends one execute
      and nothing else, and succeeds exactly when that execute does. */
  lemma ResumeComplete(device: Device, w: World, objType: byte, bytes: seq<byte>, resumeAtChunkBoundary: bool, a: Answer)
    requires |bytes| <= MAX_LENGTH
    requires GuardedCall(device, w, Select(objType)).result == Success(a)
    requires a.offset != 0 && PrefixCrc(bytes, a.offset) == a.crc && a.offset as int == |bytes|
    ensures var select := GuardedCall(device, w, Select(objType));
            var r := SendPayloadSpec(device, w, objType, bytes, resumeAtChunkBoundary);
            var reply := device(select.world.log, Execute);
            r.world.log == select.world.log + [Event(Execute, reply)]
            && (r.result.Success? <==> reply.result.Success? && reply.raised.None?)
  {
  }

  /** A resume at a chunk boundary, with the flag unset, executes first and then runs
      the whole transfer again with the flag set. */
  lemma ResumeAtBoundary(device: Device, w: World, objType: byte, bytes: seq<byte>, a: Answer)
    requires |bytes| <= MAX_LENGTH
    requires GuardedCall(device, w, Select(objType)).result == Success(a)
    requires a.offset != 0 && PrefixCrc(bytes, a.offset) == a.crc && a.offset as int != |bytes|
    requires a.offset % a.chunkSize == 0
    ensures var select := GuardedCall(device, w, Select(objType));
            var r := SendPayloadSpec(device, w, objType, bytes, false);
            var exec := GuardedCall(device, select.world, Execute);
            && |r.world.log| > |select.world.log| && r.world.log[|select.world.log|].cmd == Execute
            && (exec.result.Success? ==>
                  r == Guard(exec.world, SendPayloadSpec(device, Cleared(exec.world), objType, bytes, true)))
  {
    var select := GuardedCall(device, w, Select(objType));
    var r := SendPayloadSpec(device, w, objType, bytes, false);
    var exec := GuardedCall(device, select.world, Execute);
    assert r == ResumeSpec(device, select.world, objType, bytes, a, false);
    assert exec.world.log == select.world.log + [Event(Execute, device(select.world.log, Execute))];
    if exec.result.Success? {
      var inner := SendPayloadSpec(device, Cleared(exec.world), objType, bytes, true);
      assert r.world.log == inner.world.log;
      assert r.world.log[..|exec.world.log|] == exec.world.log;
      assert r.world.log[..|exec.world.log|][|select.world.log|] == r.world.log[|select.world.log|];
    }
  }

  /** With the flag set the boundary branch is not taken again: a resume that is
      neither mismatched nor complete continues the chunk holding the offset. So a
      transfer re-selects at most once. */
  lemma BoundaryTakenOnce(device: Device, w: World, objType: byte, bytes: seq<byte>, a: Answer)
    requires |bytes| <= MAX_LENGTH
    requires PrefixCrc(bytes, a.offset) == a.crc && a.offset as int != |bytes|
    ensures ResumeSpec(device, w, objType, bytes, a, true)
            == Guard(w, SendAndExecuteSpec(device, Cleared(w), objType, bytes, a.offset,
                                           ChunkEnd(a.offset, a.chunkSize, |bytes|), a.chunkSize, Some(a.crc)))
  {
  }

  /** A resume in the middle of a chunk (or at a boundary with the flag set) sends,
      right after the select and without a create, the rest of that chunk: the bytes
      from the offset to the chunk's end, seeded with the device's checksum. */
  lemma MidChunkResume(device: Device, w: World, objType: byte, bytes: seq<byte>, resumeAtChunkBoundary: bool, a: Answer)
    requires |bytes| <= MAX_LENGTH
    requires GuardedCall(device, w, Select(objType)).result == Success(a)
    requires a.offset != 0 && PrefixCrc(bytes, a.offset) == a.crc && a.offset as int != |bytes|
    requires a.offset % a.chunkSize != 0 || resumeAtChunkBoundary
    ensures var select := GuardedCall(device, w, Select(objType));
            var r := SendPayloadSpec(device, w, objType, bytes, resumeAtChunkBoundary);
            var chunkEnd := ChunkEnd(a.offset, a.chunkSize, |bytes|);
            |r.world.log| > |w.log| + 1
            && r.world.log[|w.log| + 1] == FirstWrite(device, select.world, bytes, a.offset, chunkEnd, Some(a.crc))
  {
    var select := GuardedCall(device, w, Select(objType));
    var chunkEnd := ChunkEnd(a.offset, a.chunkSize, |bytes|);
    assert Cleared(select.world) == select.world;
    assert |select.world.log| == |w.log| + 1;
    var inner := SendAndExecuteSpec(device, select.world, objType, bytes, a.offset, chunkEnd, a.chunkSize, Some(a.crc));
    assert SendPayloadSpec(device, w, objType, bytes, resumeAtChunkBoundary).world.log == inner.world.log;
    SendAndExecuteStartsWithWrite(device, select.world, objType, bytes, a.offset, chunkEnd, a.chunkSize, Some(a.crc));
  }

  /** A fresh transfer (select offset zero) creates an object of `Min(length,
      chunkSize)` bytes right after the select. */
  lemma FreshTransferCreates(device: Device, w: World, objType: byte, bytes: seq<byte>, resumeAtChunkBoundary: bool, a: Answer)
    requires |bytes| <= MAX_LENGTH
    requires GuardedCall(device, w, Select(objType)).result == Success(a) && a.offset == 0
    ensures var select := GuardedCall(device, w, Select(objType));
            var r := SendPayloadSpec(device, w, objType, bytes, resumeAtChunkBoundary);
            var c := Create(objType, Min(|bytes|, a.chunkSize as int) as uint32);
            |r.world.log| > |w.log| + 1 && r.world.log[|w.log| + 1] == Event(c, device(select.world.log, c))
  {
    var select := GuardedCall(device, w, Select(objType));
    var r := SendPayloadSpec(device, w, objType, bytes, resumeAtChunkBoundary);
    var c := Create(objType, Min(|bytes|, a.chunkSize as int) as uint32);
    var create := GuardedCall(device, select.world, c);
    assert r == FreshSpec(device, select.world, objType, bytes, a.chunkSize);
    assert |select.world.log| == |w.log| + 1;
    assert create.world.log == select.world.log + [Event(c, device(select.world.log, c))];
    assert r.world.log[..|create.world.log|] == create.world.log;
    assert r.world.log[..|create.world.log|][|w.log| + 1] == r.world.log[|w.log| + 1];
  }

  /** Once the create of a fresh transfer succeeds, the first chunk is written from
      offset zero, without a seed. */
  lemma FreshTransferWritesFirstChunk(device: Device, w: World, objType: byte, bytes: seq<byte>, resumeAtChunkBoundary: bool, a: Answer)
    requires |bytes| <= MAX_LENGTH
    requires GuardedCall(device, w, Select(objType)).result == Success(a) && a.offset == 0
    requires GuardedCall(device, GuardedCall(device, w, Select(objType)).world,
                         Create(objType, Min(|bytes|, a.chunkSize as int) as uint32)).result.Success?
    ensures var select := GuardedCall(device, w, Select(objType));
            var end := Min(|bytes|, a.chunkSize as int) as uint32;
            var create := GuardedCall(device, select.world, Create(objType, end));
            var r := SendPayloadSpec(device, w, objType, bytes, resumeAtChunkBoundary);
            |r.world.log| > |w.log| + 2 && r.world.log[|w.log| + 2] == FirstWrite(device, create.world, bytes, 0, end, None)
  {
    var select := GuardedCall(device, w, Select(objType));
    var end := Min(|bytes|, a.chunkSize as int) as uint32;
    var create := GuardedCall(device, select.world, Create(objType, end));
    assert Cleared(create.world) == create.world;
    assert |create.world.log| == |w.log| + 2;
    var inner := SendAndExecuteSpec(device, create.world, objType, bytes, 0, end, a.chunkSize, None);
    assert SendPayloadSpec(device, w, objType, bytes, resumeAtChunkBoundary).world.log == inner.world.log;
    SendAndExecuteStartsWithWrite(device, create.world, objType, bytes, 0, end, a.chunkSize, None);
  }

  // ---------------------------------------------------------------------------
  // A chunk is written at most six times.

  /** The number of writes among `events`. */
  function Writes(events: seq<Event>): nat
    decreases |events|
  {
    if events == [] then 0
    else Writes(events[..|events| - 1]) + (if Last(events).cmd.Write? then 1 else 0)
  }

  lemma {:induction false} WritesAppend(a: seq<Event>, b: seq<Event>)
    ensures Writes(a + b) == Writes(a) + Writes(b)
    decreases |b|
  {
    if b == [] {
      assert a + b == a;
    } else {
      assert (a + b)[..|a + b| - 1] == a + b[..|b| - 1];
      WritesAppend(a, b[..|b| - 1]);
    }
  }

  /** An attempt sends one write. */
  lemma AttemptWritesOnce(device: Device, w: World, bytes: seq<byte>, start: uint32, end: uint32, seed: Option<bv32>)
    returns (added: seq<Event>)
    ensures AttemptSpec(device, w, bytes, start, end, seed).world.log == w.log + added
    ensures Writes(added) == 1
  {
    var c := Write(Slice(bytes, start, end), seed, start);
    var write := Call(device, w, c);
    if write.result.Failure? {
      added := [Event(c, device(w.log, c))];
      assert added[..0] == [];
    } else {
      var c' := CrcRequest(end, Some(Crc(Slice(bytes, start, end), seed)));
      added := [Event(c, device(w.log, c)), Event(c', device(write.world.log, c'))];
      assert added[..1] == [Event(c, device(w.log, c))];
      assert added[..1][..0] == [];
      assert Writes(added[..1]) == 1;
      assert !Last(added).cmd.Write?;
    }
  }

  /** A chunk on its `retries`-th retry sends at most `6 - retries` writes. */
  lemma {:induction false} ChunkWritesBounded(device: Device, w: World, objType: byte, bytes: seq<byte>,
                                              start: uint32, end: uint32, cs: ChunkSize, seed: Option<bv32>, retries: nat)
    returns (added: seq<Event>)
    requires retries <= 5
    ensures SendPayloadChunkSpec(device, w, objType, bytes, start, end, cs, seed, retries).world.log == w.log + added
    ensures Writes(added) <= 6 - retries
    decreases 5 - retries, 1
  {
    var attempt := ChunkSteps(device, w, objType, bytes, start, end, cs, seed, retries);
    added := AttemptWritesOnce(device, w, bytes, start, end, seed);
    if attempt.result.Success? && attempt.result.value.Some? && retries < 5 {
      var rest := RetryWritesBounded(device, attempt.world, objType, bytes, start, end, cs, retries);
      AppendAssociative(w.log, added, rest);
      WritesAppend(added, rest);
      added := added + rest;
    }
  }

  lemma {:induction false} RetryWritesBounded(device: Device, w: World, objType: byte, bytes: seq<byte>,
                                              start: uint32, end: uint32, cs: ChunkSize, retries: nat)
    returns (added: seq<Event>)
    requires retries < 5
    ensures RetrySpec(device, w, objType, bytes, start, end, cs, retries).world.log == w.log + added
    ensures Writes(added) <= 5 - retries
    decreases 5 - retries, 0
  {
    var create := RetrySteps(device, w, objType, bytes, start, end, cs, retries);
    var newStart := ChunkStart(start, cs);
    var c := Create(objType, U32Sub(end, start));
    var e := Event(c, device(w.log, c));
    WritesOfOne(e);
    added := [e];
    if create.result.Success? {
      var rest := ChunkWritesBounded(device, create.world, objType, bytes, newStart, end, cs, RewoundSeed(bytes, newStart), retries + 1);
      AppendAssociative(w.log, [e], rest);
      WritesAppend([e], rest);
      added := [e] + rest;
    }
  }

  /** A device that accepts every command and reports a wrong offset for every
      checksum request. */
  ghost predicate RejectsEveryCheck(device: Device) {
    forall h, c :: device(h, c).raised.None? && device(h, c).result.Success?
                   && (c.CrcRequest? ==> device(h, c).result.value.offset != c.offset)
  }

  /** Against such a device every attempt fails its offset check. */
  lemma RejectedAttempt(device: Device, w: World, bytes: seq<byte>, start: uint32, end: uint32, seed: Option<bv32>)
    requires RejectsEveryCheck(device)
    ensures AttemptSpec(device, w, bytes, start, end, seed).result == Success(Some(ERROR_UNEXPECTED_BYTES))
  {
    var sub := Slice(bytes, start, end);
    var write := Call(device, w, Write(sub, seed, start));
    var check := Call(device, write.world, CrcRequest(end, Some(Crc(sub, seed))));
    assert check.result.value.offset != end;
  }

  /** Against such a device a chunk is written exactly `6 - retries` times and then
      fails with `ERROR_TOO_MANY_WRITE_FAILURES`: the bound is reached. */
  lemma {:induction false} RetriesExhausted(device: Device, w: World, objType: byte, bytes: seq<byte>,
                                            start: uint32, end: uint32, cs: ChunkSize, seed: Option<bv32>, retries: nat)
    returns (added: seq<Event>)
    requires retries <= 5 && RejectsEveryCheck(device)
    ensures var r := SendPayloadChunkSpec(device, w, objType, bytes, start, end, cs, seed, retries);
            r.world.log == w.log + added && r.result == Failure(Dfu(ERROR_TOO_MANY_WRITE_FAILURES))
    ensures Writes(added) == 6 - retries
    decreases 5 - retries, 1
  {
    var attempt := ChunkSteps(device, w, objType, bytes, start, end, cs, seed, retries);
    added := AttemptWritesOnce(device, w, bytes, start, end, seed);
    RejectedAttempt(device, w, bytes, start, end, seed);
    if retries < 5 {
      var rest := RetryExhausted(device, attempt.world, objType, bytes, start, end, cs, retries);
      AppendAssociative(w.log, added, rest);
      WritesAppend(added, rest);
      added := added + rest;
    }
  }

  lemma {:induction false} RetryExhausted(device: Device, w: World, objType: byte, bytes: seq<byte>,
                                          start: uint32, end: uint32, cs: ChunkSize, retries: nat)
    returns (added: seq<Event>)
    requires retries < 5 && RejectsEveryCheck(device)
    ensures var r := RetrySpec(device, w, objType, bytes, start, end, cs, retries);
            r.world.log == w.log + added && r.result == Failure(Dfu(ERROR_TOO_MANY_WRITE_FAILURES))
    ensures Writes(added) == 5 - retries
    decreases 5 - retries, 0
  {
    var create := RetrySteps(device, w, objType, bytes, start, end, cs, retries);
    var newStart := ChunkStart(start, cs);
    var c := Create(objType, U32Sub(end, start));
    var e := Event(c, device(w.log, c));
    assert create.result.Success?;
    var rest := RetriesExhausted(device, create.world, objType, bytes, newStart, end, cs, RewoundSeed(bytes, newStart), retries + 1);
    WritesOfOne(e);
    AppendAssociative(w.log, [e], rest);
    WritesAppend([e], rest);
    added := [e] + rest;
  }

  lemma WritesOfOne(e: Event)
    ensures Writes([e]) == if e.cmd.Write? then 1 else 0
  {
    assert [e][..0] == [];
  }

  // ---------------------------------------------------------------------------
  // Every write is a piece of the payload at its own offset.

  /** A write of payload bytes at their offset, seeded with the checksum of all
      payload bytes before it; past the payload's end nothing is written. */
  predicate WriteFits(e: Event, bytes: seq<byte>) {
    e.cmd.Write? ==>
      SeedValue(e.cmd.seed) == PrefixCrc(bytes, e.cmd.offset)
      && (e.cmd.data == []
          || (e.cmd.offset as int + |e.cmd.data| <= |bytes|
              && e.cmd.data == bytes[e.cmd.offset..e.cmd.offset as int + |e.cmd.data|]))
  }

  /** Every write among `events` fits the payload. */
  predicate WritesFit(events: seq<Event>, bytes: seq<byte>) {
    forall e | e in events :: WriteFits(e, bytes)
  }

  lemma WriteOfSlice(bytes: seq<byte>, start: uint32, end: uint32, seed: Option<bv32>, reply: Reply)
    requires SliceShape(bytes, start, end) && SeedFits(bytes, start, seed)
    ensures WriteFits(Event(Write(Slice(bytes, start, end), seed, start), reply), bytes)
  {
    if start <= end {
      SliceWithin(bytes, start, end);
    } else {
      SliceBeyond(bytes, start, end);
    }
  }

  /** The events an attempt adds: its write, which fits, and a checksum request. */
  lemma AttemptWritesFit(device: Device, w: World, bytes: seq<byte>, start: uint32, end: uint32, seed: Option<bv32>)
    returns (added: seq<Event>)
    requires SliceShape(bytes, start, end) && SeedFits(bytes, start, seed)
    ensures AttemptSpec(device, w, bytes, start, end, seed).world.log == w.log + added
    ensures WritesFit(added, bytes)
  {
    var c := Write(Slice(bytes, start, end), seed, start);
    var write := Call(device, w, c);
    WriteOfSlice(bytes, start, end, seed, device(w.log, c));
    if write.result.Failure? {
      added := [Event(c, device(w.log, c))];
    } else {
      var c' := CrcRequest(end, Some(Crc(Slice(bytes, start, end), seed)));
      added := [Event(c, device(w.log, c)), Event(c', device(write.world.log, c'))];
    }
  }

  /** The events a chunk adds to the log, every write among them fitting the payload. */
  lemma {:induction false} ChunkWritesFit(device: Device, w: World, objType: byte, bytes: seq<byte>,
                                          start: uint32, end: uint32, cs: ChunkSize, seed: Option<bv32>, retries: nat)
    returns (added: seq<Event>)
    requires retries <= 5 && SliceShape(bytes, start, end) && SeedFits(bytes, start, seed)
    ensures SendPayloadChunkSpec(device, w, objType, bytes, start, end, cs, seed, retries).world.log == w.log + added
    ensures WritesFit(added, bytes)
    decreases 5 - retries, 2
  {
    var attempt := ChunkSteps(device, w, objType, bytes, start, end, cs, seed, retries);
    added := AttemptWritesFit(device, w, bytes, start, end, seed);
    if attempt.result.Success? && attempt.result.value.Some? && retries < 5 {
      var rest := RetryWritesFit(device, attempt.world, objType, bytes, start, end, cs, retries);
      AppendAssociative(w.log, added, rest);
      added := added + rest;
    }
  }

  /** The events a retry adds: the re-create, and the chunk sent again. */
  lemma {:induction false} RetryWritesFit(device: Device, w: World, objType: byte, bytes: seq<byte>,
                                          start: uint32, end: uint32, cs: ChunkSize, retries: nat)
    returns (added: seq<Event>)
    requires retries < 5 && SliceShape(bytes, start, end)
    ensures RetrySpec(device, w, objType, bytes, start, end, cs, retries).world.log == w.log + added
    ensures WritesFit(added, bytes)
    decreases 5 - retries, 1
  {
    var c := Create(objType, U32Sub(end, start));
    var create := RetrySteps(device, w, objType, bytes, start, end, cs, retries);
    added := [Event(c, device(w.log, c))];
    assert create.world.log == w.log + added;
    if create.result.Success? {
      var rest := RetryFromBoundaryWritesFit(device, create.world, objType, bytes, start, end, cs, retries);
      AppendAssociative(w.log, added, rest);
      added := added + rest;
    }
  }

  /** The events of the chunk sent again from the boundary. */
  lemma {:induction false} RetryFromBoundaryWritesFit(device: Device, w: World, objType: byte, bytes: seq<byte>,
                                                      start: uint32, end: uint32, cs: ChunkSize, retries: nat)
    returns (added: seq<Event>)
    requires retries < 5 && SliceShape(bytes, start, end)
    ensures var newStart := ChunkStart(start, cs);
            var rewound := RewoundSeed(bytes, newStart);
            SendPayloadChunkSpec(device, w, objType, bytes, newStart, end, cs, rewound, retries + 1).world.log == w.log + added
    ensures WritesFit(added, bytes)
    decreases 5 - retries, 0
  {
    var newStart := ChunkStart(start, cs);
    SeedForStart(bytes, newStart);
    added := ChunkWritesFit(device, w, objType, bytes, newStart, end, cs,
                            RewoundSeed(bytes, newStart), retries + 1);
  }

  /** The events a chunk sequence adds to the log, every write among them fitting
      the payload. */
  lemma {:induction false} SendAndExecuteWritesFit(device: Device, w: World, objType: byte, bytes: seq<byte>,
                                                   start: uint32, end: uint32, cs: ChunkSize, seed: Option<bv32>)
    returns (added: seq<Event>)
    requires SliceShape(bytes, start, end) && SeedFits(bytes, start, seed)
    ensures SendAndExecuteSpec(device, w, objType, bytes, start, end, cs, seed).world.log == w.log + added
    ensures WritesFit(added, bytes)
    decreases |bytes| - end as int, 2
  {
    var chunk := SendAndExecuteSteps(device, w, objType, bytes, start, end, cs, seed);
    added := ChunkWritesFit(device, w, objType, bytes, start, end, cs, seed, 0);
    if chunk.result.Success? {
      var rest := AfterChunkWritesFit(device, chunk.world, objType, bytes, end, cs);
      AppendAssociative(w.log, added, rest);
      added := added + rest;
    }
  }

  /** The events after a chunk: its execute and what follows it. */
  lemma {:induction false} AfterChunkWritesFit(device: Device, afterChunk: World, objType: byte, bytes: seq<byte>,
                                               end: uint32, cs: ChunkSize)
    returns (added: seq<Event>)
    requires end as int <= |bytes| <= MAX_LENGTH
    ensures AfterChunkSpec(device, afterChunk, objType, bytes, end, cs).world.log == afterChunk.log + added
    ensures WritesFit(added, bytes)
    decreases |bytes| - end as int, 1
  {
    var exec := AfterChunkSteps(device, afterChunk, objType, bytes, end, cs);
    added := [Event(Execute, device(afterChunk.log, Execute))];
    assert exec.world.log == afterChunk.log + added;
    if exec.result.Success? && end as int < |bytes| {
      var rest := NextChunkWritesFit(device, exec.world, objType, bytes, end, cs);
      AppendAssociative(afterChunk.log, added, rest);
      added := added + rest;
    }
  }

  /** The events after the execute of a chunk that is not the last: the create of
      the next chunk and the rest of the transfer. */
  lemma {:induction false} NextChunkWritesFit(device: Device, afterExecute: World, objType: byte, bytes: seq<byte>,
                                              end: uint32, cs: ChunkSize)
    returns (added: seq<Event>)
    requires end as int < |bytes| <= MAX_LENGTH
    ensures NextChunkSpec(device, afterExecute, objType, bytes, end, cs).world.log == afterExecute.log + added
    ensures WritesFit(added, bytes)
    decreases |bytes| - end as int, 0
  {
    var nextEnd := NextEnd(end, cs, |bytes|);
    var c := Create(objType, nextEnd - end);
    var create := NextChunkSteps(device, afterExecute, objType, bytes, end, cs);
    added := [Event(c, device(afterExecute.log, c))];
    assert create.world.log == afterExecute.log + added;
    if create.result.Success? {
      var seed := Some(PrefixCrc(bytes, end));
      var rest := SendAndExecuteWritesFit(device, create.world, objType, bytes, end, nextEnd, cs, seed);
      AppendAssociative(afterExecute.log, added, rest);
      added := added + rest;
    }
  }

  /** A guarded primitive other than a write adds at most its own event, which has
      nothing to fit. */
  lemma GuardedCallAdds(device: Device, w: World, c: Command, bytes: seq<byte>) returns (added: seq<Event>)
    requires !c.Write?
    ensures GuardedCall(device, w, c).world.log == w.log + added
    ensures WritesFit(added, bytes) && |added| <= 1
  {
    added := if w.slot.Some? then [] else [Event(c, device(w.log, c))];
  }

  /** The events a fresh transfer adds to the log after its select. */
  lemma FreshWritesFit(device: Device, w: World, objType: byte, bytes: seq<byte>, cs: ChunkSize)
    returns (added: seq<Event>)
    requires |bytes| <= MAX_LENGTH
    ensures FreshSpec(device, w, objType, bytes, cs).world.log == w.log + added
    ensures WritesFit(added, bytes)
  {
    var end := Min(|bytes|, cs as int) as uint32;
    var create := GuardedCall(device, w, Create(objType, end));
    added := GuardedCallAdds(device, w, Create(objType, end), bytes);
    if create.result.Success? {
      assert Prefix(bytes, 0) == [];
      CrcEmpty(None);
      var rest := SendAndExecuteWritesFit(device, Cleared(create.world), objType, bytes, 0, end, cs, None);
      AppendAssociative(w.log, added, rest);
      added := added + rest;
    }
  }

  /** The events a resumed transfer adds to the log after its select. */
  lemma {:induction false} ResumeWritesFit(device: Device, w: World, objType: byte, bytes: seq<byte>, a: Answer,
                                           resumeAtChunkBoundary: bool)
    returns (added: seq<Event>)
    requires |bytes| <= MAX_LENGTH && SelectOffsetsFit(device) && a.offset as int < INT32_LIMIT
    ensures ResumeSpec(device, w, objType, bytes, a, resumeAtChunkBoundary).world.log == w.log + added
    ensures WritesFit(added, bytes)
    decreases if resumeAtChunkBoundary then 0 else 1, 1
  {
    added := [];
    if PrefixCrc(bytes, a.offset) == a.crc {
      if a.offset as int == |bytes| {
        added := GuardedCallAdds(device, w, Execute, bytes);
      } else if a.offset % a.chunkSize == 0 && !resumeAtChunkBoundary {
        var exec := GuardedCall(device, w, Execute);
        added := GuardedCallAdds(device, w, Execute, bytes);
        if exec.result.Success? {
          var rest := PayloadWritesFit(device, Cleared(exec.world), objType, bytes, true);
          AppendAssociative(w.log, added, rest);
          added := added + rest;
        }
      } else if w.slot.None? {
        var chunkEnd := ChunkEnd(a.offset, a.chunkSize, |bytes|);
        added := SendAndExecuteWritesFit(device, Cleared(w), objType, bytes, a.offset, chunkEnd, a.chunkSize,
                                         Some(PrefixCrc(bytes, a.offset)));
      }
    }
  }

  /** Every write of a payload transfer sends payload bytes at their own offset,
      seeded with the checksum of the payload before that offset: the transfer
      appends `added` to the log, and every write among those events fits. */
  lemma {:induction false} PayloadWritesFit(device: Device, w: World, objType: byte, bytes: seq<byte>,
                                            resumeAtChunkBoundary: bool)
    returns (added: seq<Event>)
    requires |bytes| <= MAX_LENGTH && SelectOffsetsFit(device)
    ensures SendPayloadSpec(device, w, objType, bytes, resumeAtChunkBoundary).world.log == w.log + added
    ensures WritesFit(added, bytes)
    decreases if resumeAtChunkBoundary then 0 else 1, 2
  {
    var select := GuardedCall(device, w, Select(objType));
    added := GuardedCallAdds(device, w, Select(objType), bytes);
    if select.result.Success? {
      var a := select.result.value;
      var rest;
      if a.offset != 0 {
        rest := ResumeWritesFit(device, select.world, objType, bytes, a, resumeAtChunkBoundary);
      } else {
        rest := FreshWritesFit(device, select.world, objType, bytes, a.chunkSize);
      }
      AppendAssociative(w.log, added, rest);
      added := added + rest;
    }
  }
}
