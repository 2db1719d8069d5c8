/** A reference for the commands of a transfer, and a proof that the transfer
    issues them against a device that accepts everything.

    The reference cuts the payload into chunks of the device's maximum object size
    from offset 0 and, for each chunk, creates an object of its size, writes its
    bytes seeded with the checksum of everything before it, asks for the checksum
    at its end and executes it. It is written with plain sequence arithmetic,
    independently of the transfer's own `uint` computations. */
module DfuTransferReference {
  import opened Common
  import opened Crc32
  import opened DfuErrors
  import opened DfuAbstractTransport

  /** The commands of a log, in order. */
  function Commands(log: seq<Event>): (r: seq<Command>)
    ensures |r| == |log|
    decreases |log|
  {
    if log == [] then [] else Commands(log[..|log| - 1]) + [log[|log| - 1].cmd]
  }

  lemma {:induction false} CommandsAppend(a: seq<Event>, b: seq<Event>)
    ensures Commands(a + b) == Commands(a) + Commands(b)
    decreases |b|
  {
    if b == [] {
      assert a + b == a;
    } else {
      assert (a + b)[..|a + b| - 1] == a + b[..|b| - 1];
      CommandsAppend(a, b[..|b| - 1]);
    }
  }

  /** The seed of a chunk starting at `start`: none at the payload's start. */
  function SeedAt(bytes: seq<byte>, start: nat): Option<bv32>
    requires start <= |bytes|
  {
    if start == 0 then None else Some(Crc(bytes[..start], None))
  }

  /** The end of the chunk starting at `start`. */
  function EndAt(bytes: seq<byte>, cs: ChunkSize, start: nat): (r: nat)
    requires start <= |bytes|
    ensures start <= r <= |bytes| && (start < |bytes| ==> start < r)
  {
    Min(|bytes|, start + cs as int)
  }

  /** The commands of the chunk starting at `start`: create an object of its size,
      write its bytes, ask for the checksum at its end and execute it. */
  function ChunkCycle(objType: byte, bytes: seq<byte>, cs: ChunkSize, start: nat): seq<Command>
    requires start <= |bytes| <= MAX_LENGTH
  {
    [CreateAt(objType, bytes, cs, start), WriteAt(bytes, cs, start), CheckAt(bytes, cs, start), Execute]
  }

  function CreateAt(objType: byte, bytes: seq<byte>, cs: ChunkSize, start: nat): Command
    requires start <= |bytes| <= MAX_LENGTH
  {
    Create(objType, (EndAt(bytes, cs, start) - start) as uint32)
  }

  function WriteAt(bytes: seq<byte>, cs: ChunkSize, start: nat): Command
    requires start <= |bytes| <= MAX_LENGTH
  {
    Write(bytes[start..EndAt(bytes, cs, start)], SeedAt(bytes, start), start as uint32)
  }

  function CheckAt(bytes: seq<byte>, cs: ChunkSize, start: nat): Command
    requires start <= |bytes| <= MAX_LENGTH
  {
    var end := EndAt(bytes, cs, start);
    CrcRequest(end as uint32, Some(Crc(bytes[..end], None)))
  }

  /** The commands of the chunks from `start` on. */
  function ChunkCommands(objType: byte, bytes: seq<byte>, cs: ChunkSize, start: nat): seq<Command>
    requires start <= |bytes| <= MAX_LENGTH
    decreases |bytes| - start
  {
    var end := EndAt(bytes, cs, start);
    ChunkCycle(objType, bytes, cs, start)
    + (if end < |bytes| then ChunkCommands(objType, bytes, cs, end) else [])
  }

  /** A transfer from scratch: the select, then every chunk. */
  function TransferCommands(objType: byte, bytes: seq<byte>, cs: ChunkSize): seq<Command>
    requires |bytes| <= MAX_LENGTH
  {
    [Select(objType)] + ChunkCommands(objType, bytes, cs, 0)
  }

  function CreatedSize(c: Command): seq<int> {
    if c.Create? then [c.size as int] else []
  }

  /** The sizes of the objects created, in order. */
  function CreatedSizes(cmds: seq<Command>): seq<int>
    decreases |cmds|
  {
    if cmds == [] then [] else CreatedSize(cmds[0]) + CreatedSizes(cmds[1..])
  }

  function WrittenBy(c: Command): seq<byte> {
    if c.Write? then c.data else []
  }

  /** The bytes written, in order. */
  function Written(cmds: seq<Command>): seq<byte>
    decreases |cmds|
  {
    if cmds == [] then [] else WrittenBy(cmds[0]) + Written(cmds[1..])
  }

  lemma {:induction false} CreatedSizesAppend(a: seq<Command>, b: seq<Command>)
    ensures CreatedSizes(a + b) == CreatedSizes(a) + CreatedSizes(b)
    decreases |a|
  {
    if a == [] {
      assert a + b == b;
    } else {
      assert (a + b)[1..] == a[1..] + b;
      CreatedSizesAppend(a[1..], b);
    }
  }

  lemma {:induction false} WrittenAppend(a: seq<Command>, b: seq<Command>)
    ensures Written(a + b) == Written(a) + Written(b)
    decreases |a|
  {
    if a == [] {
      assert a + b == b;
    } else {
      assert (a + b)[1..] == a[1..] + b;
      WrittenAppend(a[1..], b);
    }
  }

  /** A chunk's cycle creates one object of the chunk's size and writes its bytes. */
  lemma CycleContents(objType: byte, bytes: seq<byte>, cs: ChunkSize, start: nat)
    requires start <= |bytes| <= MAX_LENGTH
    ensures CreatedSizes(ChunkCycle(objType, bytes, cs, start)) == [EndAt(bytes, cs, start) - start]
    ensures Written(ChunkCycle(objType, bytes, cs, start)) == bytes[start..EndAt(bytes, cs, start)]
  {
    var a, b, c := CreateAt(objType, bytes, cs, start), WriteAt(bytes, cs, start), CheckAt(bytes, cs, start);
    assert ChunkCycle(objType, bytes, cs, start) == [a] + [b] + [c] + [Execute];
    OfFour(a, b, c, Execute);
    var size := EndAt(bytes, cs, start) - start;
    assert size < TWO_32;
    assert CreatedSize(a) == [size];
    assert CreatedSize(b) == CreatedSize(c) == CreatedSize(Execute) == [];
    assert WrittenBy(a) == WrittenBy(c) == WrittenBy(Execute) == [];
    assert CreatedSize(a) + CreatedSize(b) + CreatedSize(c) + CreatedSize(Execute) == [size];
  }

  lemma Single(x: Command)
    ensures CreatedSizes([x]) == CreatedSize(x) && Written([x]) == WrittenBy(x)
  {
    assert [x][1..] == [];
  }

  lemma OfFour(a: Command, b: Command, c: Command, d: Command)
    ensures CreatedSizes([a] + [b] + [c] + [d]) == CreatedSize(a) + CreatedSize(b) + CreatedSize(c) + CreatedSize(d)
    ensures Written([a] + [b] + [c] + [d]) == WrittenBy(a) + WrittenBy(b) + WrittenBy(c) + WrittenBy(d)
  {
    Single(a);
    Single(b);
    Single(c);
    Single(d);
    CreatedSizesAppend([a], [b]);
    CreatedSizesAppend([a] + [b], [c]);
    CreatedSizesAppend([a] + [b] + [c], [d]);
    WrittenAppend([a], [b]);
    WrittenAppend([a] + [b], [c]);
    WrittenAppend([a] + [b] + [c], [d]);
  }

  /** The reference writes the payload from `start` on exactly once, in order. */
  lemma {:induction false} ChunksWritePayload(objType: byte, bytes: seq<byte>, cs: ChunkSize, start: nat)
    requires start <= |bytes| <= MAX_LENGTH
    ensures Written(ChunkCommands(objType, bytes, cs, start)) == bytes[start..]
    decreases |bytes| - start
  {
    var end := EndAt(bytes, cs, start);
    var rest := if end < |bytes| then ChunkCommands(objType, bytes, cs, end) else [];
    CycleContents(objType, bytes, cs, start);
    WrittenAppend(ChunkCycle(objType, bytes, cs, start), rest);
    if end < |bytes| {
      ChunksWritePayload(objType, bytes, cs, end);
    } else {
      assert bytes[end..] == [];
    }
    SplitAt(bytes, start, end);
  }

  lemma SplitAt(bytes: seq<byte>, start: nat, end: nat)
    requires start <= end <= |bytes|
    ensures bytes[start..] == bytes[start..end] + bytes[end..]
  {
  }

  function Sum(s: seq<int>): int
    decreases |s|
  {
    if s == [] then 0 else s[0] + Sum(s[1..])
  }

  lemma SumCons(x: int, s: seq<int>)
    ensures Sum([x] + s) == x + Sum(s)
  {
    assert ([x] + s)[1..] == s;
  }

  /** The sizes created from `start` on: the first chunk's, then the rest's. */
  lemma SizesStep(objType: byte, bytes: seq<byte>, cs: ChunkSize, start: nat)
    requires start <= |bytes| <= MAX_LENGTH
    ensures var end := EndAt(bytes, cs, start);
            CreatedSizes(ChunkCommands(objType, bytes, cs, start))
            == [end - start] + (if end < |bytes| then CreatedSizes(ChunkCommands(objType, bytes, cs, end)) else [])
  {
    var end := EndAt(bytes, cs, start);
    var rest := if end < |bytes| then ChunkCommands(objType, bytes, cs, end) else [];
    CycleContents(objType, bytes, cs, start);
    CreatedSizesAppend(ChunkCycle(objType, bytes, cs, start), rest);
  }

  /** Every chunk but the last has the maximum object size, the last holds the rest
      (nothing only for an empty payload), and the sizes add up to the payload's
      length. */
  lemma {:induction false} ChunkSizes(objType: byte, bytes: seq<byte>, cs: ChunkSize, start: nat)
    requires start <= |bytes| <= MAX_LENGTH
    ensures var sizes := CreatedSizes(ChunkCommands(objType, bytes, cs, start));
            && |sizes| > 0
            && (forall i :: 0 <= i < |sizes| - 1 ==> sizes[i] == cs as int)
            && 0 <= sizes[|sizes| - 1] <= cs as int
            && (start < |bytes| ==> sizes[|sizes| - 1] > 0)
            && Sum(sizes) == |bytes| - start
    decreases |bytes| - start
  {
    var end := EndAt(bytes, cs, start);
    SizesStep(objType, bytes, cs, start);
    if end < |bytes| {
      ChunkSizes(objType, bytes, cs, end);
      SumCons(end - start, CreatedSizes(ChunkCommands(objType, bytes, cs, end)));
    } else {
      SumCons(end - start, []);
    }
  }

  /** Ten bytes in chunks of four: objects of four, four and two bytes. */
  lemma TenBytesInFours(objType: byte, bytes: seq<byte>)
    requires |bytes| == 10
    ensures CreatedSizes(ChunkCommands(objType, bytes, 4, 0)) == [4, 4, 2]
  {
    SixBytesInFours(objType, bytes);
    SizesStep(objType, bytes, 4, 0);
    assert EndAt(bytes, 4, 0) == 4;
  }

  /** The last six of the ten bytes: objects of four and two bytes. */
  lemma SixBytesInFours(objType: byte, bytes: seq<byte>)
    requires |bytes| == 10
    ensures CreatedSizes(ChunkCommands(objType, bytes, 4, 4)) == [4, 2]
  {
    SizesStep(objType, bytes, 4, 8);
    assert EndAt(bytes, 4, 8) == 10;
    SizesStep(objType, bytes, 4, 4);
    assert EndAt(bytes, 4, 4) == 8;
  }

  // ---------------------------------------------------------------------------
  // The transfer against a device that accepts everything.

  /** A device that accepts every command, raises nothing, reports `cs` as its
      maximum object size and offset 0 on select, and answers a checksum request
      with the offset and checksum it was given: every check agrees. */
  function Echo(cs: ChunkSize): Device {
    (h: seq<Event>, c: Command) => EchoReply(cs, c)
  }

  function EchoReply(cs: ChunkSize, c: Command): Reply {
    Reply(Success(Answer(if c.CrcRequest? then c.offset else 0,
                         if c.CrcRequest? then SeedValue(c.seed) else 0, cs)), None)
  }

  /** An attempt against the echo device: the write and the checksum request of
      the reference, and a check that agrees. */
  lemma EchoAttempt(cs: ChunkSize, w: World, bytes: seq<byte>, start: nat)
    requires start <= |bytes| <= MAX_LENGTH
    ensures var a := AttemptSpec(Echo(cs), w, bytes, start as uint32, EndAt(bytes, cs, start) as uint32, SeedAt(bytes, start));
            && a.result == Success(None) && a.world.slot == w.slot
            && Commands(a.world.log) == Commands(w.log) + [WriteAt(bytes, cs, start), CheckAt(bytes, cs, start)]
  {
    var end := EndAt(bytes, cs, start);
    var seed := SeedAt(bytes, start);
    SliceAt(bytes, cs, start);
    var sub := Slice(bytes, start as uint32, end as uint32);
    var c0 := Write(sub, seed, start as uint32);
    var c1 := CrcRequest(end as uint32, Some(Crc(sub, seed)));
    assert c0 == WriteAt(bytes, cs, start) && c1 == CheckAt(bytes, cs, start);
    var write := Call(Echo(cs), w, c0);
    EchoCall(cs, w, c0);
    EchoCall(cs, write.world, c1);
    Prepend(Commands(w.log), c0, [c1]);
  }

  /** A chunk of the echo transfer: one attempt, which agrees. */
  lemma EchoChunk(cs: ChunkSize, w: World, objType: byte, bytes: seq<byte>, start: nat, retries: nat)
    requires start <= |bytes| <= MAX_LENGTH && retries <= 5
    ensures var r := SendPayloadChunkSpec(Echo(cs), w, objType, bytes, start as uint32, EndAt(bytes, cs, start) as uint32,
                                          cs, SeedAt(bytes, start), retries);
            && r.result.Success? && r.world.slot == w.slot
            && Commands(r.world.log) == Commands(w.log) + [WriteAt(bytes, cs, start), CheckAt(bytes, cs, start)]
  {
    var attempt := ChunkSteps(Echo(cs), w, objType, bytes, start as uint32, EndAt(bytes, cs, start) as uint32,
                              cs, SeedAt(bytes, start), retries);
    EchoAttempt(cs, w, bytes, start);
  }

  /** The slice and the checksums the transfer computes for the chunk at `start`
      are the reference's. */
  lemma SliceAt(bytes: seq<byte>, cs: ChunkSize, start: nat)
    requires start <= |bytes| <= MAX_LENGTH
    ensures var end := EndAt(bytes, cs, start);
            && Slice(bytes, start as uint32, end as uint32) == bytes[start..end]
            && Crc(Slice(bytes, start as uint32, end as uint32), SeedAt(bytes, start)) == Crc(bytes[..end], None)
  {
    var end := EndAt(bytes, cs, start);
    SliceWithin(bytes, start as uint32, end as uint32);
    PrefixBelowLength(bytes, start as uint32);
    if start == 0 {
      CrcEmpty(None);
    }
    CrcExtend(bytes, start, end, SeedAt(bytes, start));
  }

  lemma Regroup(a: seq<Command>, x: Command, y: Command, z: Command, rest: seq<Command>)
    ensures a + [x, y] + [z] + rest == a + ([x, y, z] + rest)
  {
  }

  /** A call to the echo device adds its command and keeps the slot. */
  lemma EchoCall(cs: ChunkSize, w: World, c: Command)
    ensures Call(Echo(cs), w, c).result.Success?
    ensures Call(Echo(cs), w, c).world.slot == w.slot
    ensures Commands(Call(Echo(cs), w, c).world.log) == Commands(w.log) + [c]
  {
    var e := Event(c, Echo(cs)(w.log, c));
    CommandsAppend(w.log, [e]);
    assert Commands([e]) == [c];
  }

  /** What follows a chunk's create in the echo transfer: the chunk's body and every
      later chunk. */
  function Following(objType: byte, bytes: seq<byte>, cs: ChunkSize, start: nat): seq<Command>
    requires start <= |bytes| <= MAX_LENGTH
  {
    var end := EndAt(bytes, cs, start);
    [WriteAt(bytes, cs, start), CheckAt(bytes, cs, start), Execute] + (if end < |bytes| then ChunkCommands(objType, bytes, cs, end) else [])
  }

  lemma {:induction false} EchoSendAndExecute(cs: ChunkSize, w: World, objType: byte, bytes: seq<byte>, start: nat)
    requires start <= |bytes| <= MAX_LENGTH
    ensures var r := SendAndExecuteSpec(Echo(cs), w, objType, bytes, start as uint32, EndAt(bytes, cs, start) as uint32,
                                        cs, SeedAt(bytes, start));
            && r.result.Success? && r.world.slot == w.slot
            && Commands(r.world.log) == Commands(w.log) + Following(objType, bytes, cs, start)
    decreases |bytes| - EndAt(bytes, cs, start), 2
  {
    var end := EndAt(bytes, cs, start);
    var chunk := SendAndExecuteSteps(Echo(cs), w, objType, bytes, start as uint32, end as uint32, cs, SeedAt(bytes, start));
    EchoChunk(cs, w, objType, bytes, start, 0);
    EchoAfterChunk(cs, chunk.world, objType, bytes, start);
    var rest := if end < |bytes| then ChunkCommands(objType, bytes, cs, end) else [];
    Regroup(Commands(w.log), WriteAt(bytes, cs, start), CheckAt(bytes, cs, start), Execute, rest);
  }

  lemma {:induction false} EchoAfterChunk(cs: ChunkSize, w: World, objType: byte, bytes: seq<byte>, start: nat)
    requires start <= |bytes| <= MAX_LENGTH
    ensures var end := EndAt(bytes, cs, start);
            var r := AfterChunkSpec(Echo(cs), w, objType, bytes, end as uint32, cs);
            && r.result.Success? && r.world.slot == w.slot
            && Commands(r.world.log) == Commands(w.log) + [Execute]
                 + (if end < |bytes| then ChunkCommands(objType, bytes, cs, end) else [])
    decreases |bytes| - EndAt(bytes, cs, start), 1
  {
    var end := EndAt(bytes, cs, start);
    var exec := AfterChunkSteps(Echo(cs), w, objType, bytes, end as uint32, cs);
    EchoCall(cs, w, Execute);
    if end < |bytes| {
      EchoNextChunk(cs, exec.world, objType, bytes, end);
    }
  }

  lemma {:induction false} EchoNextChunk(cs: ChunkSize, w: World, objType: byte, bytes: seq<byte>, end: nat)
    requires 0 < end < |bytes| <= MAX_LENGTH
    ensures var r := NextChunkSpec(Echo(cs), w, objType, bytes, end as uint32, cs);
            && r.result.Success? && r.world.slot == w.slot
            && Commands(r.world.log) == Commands(w.log) + ChunkCommands(objType, bytes, cs, end)
    decreases |bytes| - end, 0
  {
    var nextEnd := NextEnd(end as uint32, cs, |bytes|);
    assert nextEnd as int == EndAt(bytes, cs, end);
    var c := Create(objType, nextEnd - end as uint32);
    assert c == CreateAt(objType, bytes, cs, end);
    var create := NextChunkSteps(Echo(cs), w, objType, bytes, end as uint32, cs);
    EchoCall(cs, w, c);
    PrefixBelowLength(bytes, end as uint32);
    assert Some(PrefixCrc(bytes, end as uint32)) == SeedAt(bytes, end);
    EchoSendAndExecute(cs, create.world, objType, bytes, end);
    ChunkCommandsSplit(objType, bytes, cs, end);
    Prepend(Commands(w.log), c, Following(objType, bytes, cs, end));
  }

  /** The chunks from `start` on: the create of the first, then what follows it. */
  lemma ChunkCommandsSplit(objType: byte, bytes: seq<byte>, cs: ChunkSize, start: nat)
    requires start <= |bytes| <= MAX_LENGTH
    ensures ChunkCommands(objType, bytes, cs, start) == [CreateAt(objType, bytes, cs, start)] + Following(objType, bytes, cs, start)
  {
  }

  lemma Prepend(a: seq<Command>, x: Command, rest: seq<Command>)
    ensures a + [x] + rest == a + ([x] + rest)
  {
  }

  /** `SendPayload` after a select that reported offset 0, against the echo device. */
  lemma EchoFresh(cs: ChunkSize, w: World, objType: byte, bytes: seq<byte>)
    requires |bytes| <= MAX_LENGTH && w.slot.None?
    ensures var r := FreshSpec(Echo(cs), w, objType, bytes, cs);
            && r.result.Success?
            && Commands(r.world.log) == Commands(w.log) + ChunkCommands(objType, bytes, cs, 0)
  {
    var r := FreshSpec(Echo(cs), w, objType, bytes, cs);
    var end := Min(|bytes|, cs as int) as uint32;
    var c := Create(objType, end);
    assert c == CreateAt(objType, bytes, cs, 0);
    var create := GuardedCall(Echo(cs), w, c);
    EchoCall(cs, w, c);
    assert Cleared(w) == w;
    assert create == Call(Echo(cs), w, c);
    assert Cleared(create.world) == create.world;
    var inner := SendAndExecuteSpec(Echo(cs), create.world, objType, bytes, 0, end, cs, None);
    EchoSendAndExecute(cs, create.world, objType, bytes, 0);
    assert r == Guard(create.world, inner);
    ChunkCommandsSplit(objType, bytes, cs, 0);
    Prepend(Commands(w.log), c, Following(objType, bytes, cs, 0));
  }

  /** Against the echo device a transfer with no pending exception succeeds, and the
      commands it issues are exactly the reference: the select, then every chunk of
      the payload in order. */
  lemma EchoTransfer(cs: ChunkSize, w: World, objType: byte, bytes: seq<byte>, resumeAtChunkBoundary: bool)
    requires |bytes| <= MAX_LENGTH && w.slot.None?
    ensures var r := SendPayloadSpec(Echo(cs), w, objType, bytes, resumeAtChunkBoundary);
            && r.result.Success?
            && Commands(r.world.log) == Commands(w.log) + TransferCommands(objType, bytes, cs)
  {
    var r := SendPayloadSpec(Echo(cs), w, objType, bytes, resumeAtChunkBoundary);
    var select := GuardedCall(Echo(cs), w, Select(objType));
    EchoCall(cs, w, Select(objType));
    assert Cleared(w) == w;
    assert select == Call(Echo(cs), w, Select(objType));
    assert select.result.value == Answer(0, 0, cs);
    assert r == FreshSpec(Echo(cs), select.world, objType, bytes, cs);
    EchoFresh(cs, select.world, objType, bytes);
    Prepend(Commands(w.log), Select(objType), ChunkCommands(objType, bytes, cs, 0));
  }
}
