/** The serial DFU transport: the stateful half of the packet receive
    notification (PRN) layer, and what the serial link adds to it.

    Commands are SLIP-framed without their opening END and written to the line.
    The device's answers come back as decoded messages: each is handed to
    `OnData`, which parses it into the single packet slot that `Read` empties.
    Before any object command the transport makes itself ready once: it sets the
    PRN interval and asks for the transmission unit (MTU). An object write is sent
    in pieces of at most MTU bytes, and every PRN-th piece is followed by a checksum
    notification that must match what was written so far.

    The serial port is a log of `Traffic`; the device is `Responder`, an arbitrary
    function of that log which says what message, if any, reaches a waiting
    `Read` before its timeout. */
module DfuTransportSerial {
  import opened Common
  import opened Crc32
  import opened DfuErrors
  import opened SlipConstants
  import opened SlipEncoder
  import opened DfuTransportPrn
  import DfuAbstractTransport

  const OP_PROTOCOL_VERSION: byte := 0x00
  const OP_SET_PRN: byte := 0x02
  const OP_GET_MTU: byte := 0x07
  const OP_WRITE: byte := 0x08
  const OP_HARDWARE_VERSION: byte := 0x0A
  const OP_FIRMWARE_VERSION: byte := 0x0B

  const DEFAULT_PRN: int := 16
  /** The firmware version type byte that means "no image at this index". */
  const NO_IMAGE: byte := 0xFF

  // ---------------------------------------------------------------------------
  // Command framing.

  /** What `WriteCommand` puts on the line: the SLIP frame of the command with its
      opening END stripped, i.e. the escaped command closed by one END. */
  function SerialFrame(command: seq<byte>): (r: seq<byte>)
    ensures r == Escaped(command) + [END]
  {
    Framed(command)[1..]
  }

  /** The line frame is one octet per command byte, one more per reserved byte,
      and the closing END, the only END in it. */
  lemma SerialFrameShape(command: seq<byte>)
    ensures |SerialFrame(command)| == |command| + 1 + CountReserved(command)
    ensures forall i :: 0 <= i < |SerialFrame(command)| - 1 ==> SerialFrame(command)[i] != END
  {
    FramedDelimited(command);
    FramedLength(command);
  }

  /** `WriteData`'s command: the write opcode followed by the data. */
  function WriteDataCommand(data: seq<byte>): seq<byte> {
    [OP_WRITE] + data
  }

  /** The PRN command: the opcode, `_prn & 0xFF` and `(_prn >> 8) & 0xFF`. */
  function SetPrnCommand(prn: int): (r: seq<byte>)
    ensures |r| == 3 && r[0] == OP_SET_PRN
  {
    [OP_SET_PRN, (prn % 0x100) as byte, (prn / 0x100 % 0x100) as byte]
  }

  /** The PRN command carries the `short` interval in 16-bit two's complement, low
      byte first: the value itself when it is not negative, plus 2^16 when it is. */
  lemma SetPrnCommandLayout(prn: int)
    requires -0x8000 <= prn < 0x8000
    ensures var r := SetPrnCommand(prn);
            r[1] as int + 0x100 * r[2] as int == if prn >= 0 then prn else prn + 0x1_0000
  {
    var lo := prn % 0x100;
    assert prn == 0x100 * (prn / 0x100) + lo;
    if prn < 0 {
      ModUnique(prn / 0x100, -1, prn / 0x100 + 0x100, 0x100);
    }
  }

  /** The commands `Ready` sends when it is not ready yet. */
  function ReadyCommands(prn: int): seq<seq<byte>> {
    [SetPrnCommand(prn), [OP_GET_MTU]]
  }

  /** C#'s `%` on `int`, which truncates toward zero. */
  function CsRem(a: int, b: int): (r: int)
    requires b > 0
    ensures a >= 0 ==> r == a % b
    ensures a < 0 ==> r == -((-a) % b)
  {
    if a >= 0 then a % b else -((-a) % b)
  }

  /** The MTU `Ready` derives from the device's 2-byte answer: the wire size halved
      (SLIP may double every byte) less two (the write opcode and the closing END),
      then `Mtu -= Mtu % 4`. Small answers give an MTU of 0. */
  function MtuFromWire(reply: seq<byte>): (r: int)
    requires |reply| == 2
    ensures r >= 0 && r % 4 == 0
    ensures var raw := reply[1] as int * 0x100 + reply[0] as int;
            (raw < 12 ==> r == 0) && (raw >= 4 ==> r <= raw / 2 - 2 < r + 4)
  {
    var raw := reply[1] as int * 0x100 + reply[0] as int;
    var half := raw / 2 - 2;
    RoundDownToFour(half);
    half - CsRem(half, 4)
  }

  /** `h -= h % 4` for `h >= -2`: a non-negative multiple of four, at most `h` and
      within four of it when `h` is not negative, and 0 below four. */
  lemma RoundDownToFour(h: int)
    requires h >= -2
    ensures var r := h - CsRem(h, 4);
            r >= 0 && r % 4 == 0 && (h < 4 ==> r == 0) && (h >= 0 ==> r <= h < r + 4)
  {
    if h >= 0 {
      var q := h / 4;
      assert h == q * 4 + h % 4;
      ModUnique(q * 4, q, 0, 4);
    }
  }

  // ---------------------------------------------------------------------------
  // Version information.

  datatype ImageType = SoftDevice | Application | Bootloader

  datatype FirmwareVersion = FirmwareVersion(version: uint32, addr: uint32, length: uint32, imageType: ImageType)

  datatype HardwareMemoryConfig = HardwareMemoryConfig(romSize: int, ramSize: int, romPageSize: int)

  datatype HardwareVersion = HardwareVersion(part: int, variant: int, memory: HardwareMemoryConfig)

  function TypeByte(t: ImageType): byte {
    match t
    case SoftDevice => 0
    case Application => 1
    case Bootloader => 2
  }

  /** `GetFirmwareVersion`'s decoding of its 13-byte payload: type 0xFF means no
      image, types 0, 1 and 2 name the image, and every other type is rejected; then
      version, address and length are read little-endian at 1, 5 and 9. */
  function DecodeFirmwareVersion(payload: seq<byte>): (r: Result<Option<FirmwareVersion>, Error>)
    requires |payload| == 13
    ensures r == Success(None) <==> payload[0] == NO_IMAGE
    ensures r.Failure? <==> payload[0] != NO_IMAGE && payload[0] > 2
    ensures r.Failure? ==> r.error == Dfu(ERROR_RSP_UNSUPPORTED_TYPE)
    ensures r.Success? && r.value.Some? ==> TypeByte(r.value.value.imageType) == payload[0]
  {
    if payload[0] == NO_IMAGE then Success(None)
    else if payload[0] > 2 then Failure(Dfu(ERROR_RSP_UNSUPPORTED_TYPE))
    else
      var t := if payload[0] == 0 then SoftDevice else if payload[0] == 1 then Application else Bootloader;
      Success(Some(FirmwareVersion(LE32(payload, 1), LE32(payload, 5), LE32(payload, 9), t)))
  }

  /** The payload a device sends to describe an image. */
  function FirmwareVersionPayload(v: FirmwareVersion): (r: seq<byte>)
    ensures |r| == 13
  {
    [TypeByte(v.imageType)] + ToLE32(v.version) + ToLE32(v.addr) + ToLE32(v.length)
  }

  /** Decoding a firmware version payload recovers the image it describes. */
  lemma DecodeFirmwareVersionPayload(v: FirmwareVersion)
    ensures DecodeFirmwareVersion(FirmwareVersionPayload(v)) == Success(Some(v))
  {
    var t, a, b, c := [TypeByte(v.imageType)], ToLE32(v.version), ToLE32(v.addr), ToLE32(v.length);
    var p := FirmwareVersionPayload(v);
    assert p == t + a + (b + c);
    LE32OfToLE32(v.version, t, b + c);
    assert p == (t + a) + b + c;
    LE32OfToLE32(v.addr, t + a, c);
    assert p == (t + a + b) + c + [];
    LE32OfToLE32(v.length, t + a + b, []);
  }

  /** `GetHardwareVersion`'s decoding of its 20-byte payload: five little-endian
      `int` fields, part, variant, ROM size, RAM size and ROM page size. */
  function DecodeHardwareVersion(payload: seq<byte>): (r: HardwareVersion)
    requires |payload| == 20
    ensures r.part >= 0 <==> payload[3] < 0x80
  {
    HardwareVersion(LE32Signed(payload, 0), LE32Signed(payload, 4),
      HardwareMemoryConfig(LE32Signed(payload, 8), LE32Signed(payload, 12), LE32Signed(payload, 16)))
  }

  predicate IsInt32(x: int) {
    -0x8000_0000 <= x < 0x8000_0000
  }

  /** The four bytes of an `int` in two's complement, low byte first. */
  function ToLE32Signed(x: int): (r: seq<byte>)
    requires IsInt32(x)
    ensures |r| == 4
  {
    ToLE32((x % TWO_32) as uint32)
  }

  lemma LE32SignedOfToLE32Signed(x: int, prefix: seq<byte>, suffix: seq<byte>)
    requires IsInt32(x)
    ensures LE32Signed(prefix + ToLE32Signed(x) + suffix, |prefix|) == x
  {
    if x < 0 {
      ModUnique(x, -1, x + TWO_32, TWO_32);
    } else {
      ModUnique(x, 0, x, TWO_32);
    }
    var u := (x % TWO_32) as uint32;
    LE32OfToLE32(u, prefix, suffix);
  }

  function HardwareVersionPayload(h: HardwareVersion): (r: seq<byte>)
    requires IsInt32(h.part) && IsInt32(h.variant)
    requires IsInt32(h.memory.romSize) && IsInt32(h.memory.ramSize) && IsInt32(h.memory.romPageSize)
    ensures |r| == 20
  {
    ToLE32Signed(h.part) + ToLE32Signed(h.variant) + ToLE32Signed(h.memory.romSize)
      + ToLE32Signed(h.memory.ramSize) + ToLE32Signed(h.memory.romPageSize)
  }

  /** Decoding a hardware version payload recovers the five values laid out. */
  lemma DecodeHardwareVersionPayload(h: HardwareVersion)
    requires IsInt32(h.part) && IsInt32(h.variant)
    requires IsInt32(h.memory.romSize) && IsInt32(h.memory.ramSize) && IsInt32(h.memory.romPageSize)
    ensures DecodeHardwareVersion(HardwareVersionPayload(h)) == h
  {
    var a, b, c := ToLE32Signed(h.part), ToLE32Signed(h.variant), ToLE32Signed(h.memory.romSize);
    var d, e := ToLE32Signed(h.memory.ramSize), ToLE32Signed(h.memory.romPageSize);
    var p := HardwareVersionPayload(h);
    assert p == [] + a + (b + c + d + e);
    LE32SignedOfToLE32Signed(h.part, [], b + c + d + e);
    assert p == a + b + (c + d + e);
    LE32SignedOfToLE32Signed(h.variant, a, c + d + e);
    assert p == (a + b) + c + (d + e);
    LE32SignedOfToLE32Signed(h.memory.romSize, a + b, d + e);
    assert p == (a + b + c) + d + e;
    LE32SignedOfToLE32Signed(h.memory.ramSize, a + b + c, e);
    assert p == (a + b + c + d) + e + [];
    LE32SignedOfToLE32Signed(h.memory.romPageSize, a + b + c + d, []);
  }

  /** `(byte)(index + 1)`: the next image index, which wraps after 255. */
  function NextIndex(index: byte): byte {
    ((index as int + 1) % 0x100) as byte
  }

  /** The image index `k` places after `index`, wrapping after 255. */
  function IndexAt(index: byte, k: nat): byte {
    ((index as int + k) % 0x100) as byte
  }

  lemma IndexAtNext(index: byte, k: nat)
    ensures IndexAt(index, 0) == index
    ensures IndexAt(NextIndex(index), k) == IndexAt(index, k + 1)
  {
    var i := index as int;
    var j := (i + 1) % 0x100;
    var q := if i + 1 < 0x100 then 0 else 1;
    ModUnique(i + 1, q, j, 0x100);
    ModUnique(i + 1 + k, q + (j + k) / 0x100, (j + k) % 0x100, 0x100);
  }

  /** The commands `GetAllFirmwareVersions` sends from `index` on: one query per
      image index. */
  function FirmwareQueries(index: byte, n: nat): (r: seq<seq<byte>>)
    ensures |r| == n
    ensures forall k :: 0 <= k < n ==> r[k] == [OP_FIRMWARE_VERSION, IndexAt(index, k)]
  {
    seq(n, k requires 0 <= k => [OP_FIRMWARE_VERSION, IndexAt(index, k)])
  }

  /** The queries from `index` are the query for `index`, then those from the next
      index. */
  lemma FirmwareQueriesCons(index: byte, n: nat)
    ensures FirmwareQueries(index, n + 1) == [[OP_FIRMWARE_VERSION, index]] + FirmwareQueries(NextIndex(index), n)
  {
    var a := FirmwareQueries(index, n + 1);
    var b := [[OP_FIRMWARE_VERSION, index]] + FirmwareQueries(NextIndex(index), n);
    assert a[0] == b[0];
    forall k | 1 <= k < n + 1
      ensures a[k] == b[k]
    {
      IndexAtNext(index, k - 1);
    }
  }

  lemma QueriesThenRest(sent: seq<seq<byte>>, index: byte, n: nat)
    ensures sent + [[OP_FIRMWARE_VERSION, index]] + FirmwareQueries(NextIndex(index), n) == sent + FirmwareQueries(index, n + 1)
  {
    FirmwareQueriesCons(index, n);
  }

  // ---------------------------------------------------------------------------
  // Flow control.

  /** The PRN counter after one more piece: it counts the piece, and reaching the
      interval resets it to 0. */
  function Bump(prn: int, count: int): int {
    if prn > 0 && count + 1 >= prn then 0 else count + 1
  }

  /** For each of `n` pieces sent from counter value `count` on, whether a checksum
      notification is read after it. */
  function PrnSchedule(prn: int, count: int, n: nat): (r: seq<bool>)
    ensures |r| == n
    decreases n
  {
    if n == 0 then [] else [prn > 0 && count + 1 >= prn] + PrnSchedule(prn, Bump(prn, count), n - 1)
  }

  /** From a counter below the interval, the checksum is read after the pieces that
      bring the count of pieces so far to a multiple of the interval. */
  lemma {:induction false} PrnScheduleFrom(prn: int, count: int, n: nat, k: nat)
    requires prn > 0 && 0 <= count < prn && k < n
    ensures PrnSchedule(prn, count, n)[k] <==> (count + k + 1) % prn == 0
    decreases k
  {
    if k == 0 {
      if count + 1 < prn {
        ModUnique(count + 1, 0, count + 1, prn);
      } else {
        ModUnique(count + 1, 1, 0, prn);
      }
    } else {
      PrnScheduleFrom(prn, Bump(prn, count), n - 1, k - 1);
      if count + 1 == prn {
        var q, r := k / prn, k % prn;
        ModUnique(count + k + 1, q + 1, r, prn);
      }
    }
  }

  /** With the counter starting at 0, the checksum is read after exactly every
      PRN-th piece; with an interval of 0 or less, never. */
  lemma PrnEvery(prn: int, n: nat, k: nat)
    requires k < n
    ensures prn > 0 ==> (PrnSchedule(prn, 0, n)[k] <==> (k + 1) % prn == 0)
    ensures prn <= 0 ==> !PrnSchedule(prn, 0, n)[k]
  {
    if prn > 0 {
      PrnScheduleFrom(prn, 0, n, k);
    } else {
      PrnDisabled(prn, 0, n, k);
    }
  }

  lemma {:induction false} PrnDisabled(prn: int, count: int, n: nat, k: nat)
    requires prn <= 0 && k < n
    ensures !PrnSchedule(prn, count, n)[k]
    decreases k
  {
    if k > 0 {
      PrnDisabled(prn, Bump(prn, count), n - 1, k - 1);
    }
  }

  /** Where one pass of the piece writer leaves the write: the length of the piece
      sent, and the offset, checksum and PRN counter after it. */
  datatype Progress = Progress(length: nat, offset: uint32, crc: bv32, count: int)

  /** A first piece of `Min(mtu, |bytes|)` bytes that leaves bytes over is followed
      by the pieces of the rest, and its PRN decision by the rest's schedule. */
  lemma PieceThenRest(bytes: seq<byte>, mtu: int, n: nat, prn: int, count: int,
                      rest: seq<seq<byte>>, restChecked: seq<bool>)
    requires n == Min(mtu, |bytes|) && 0 < n < |bytes|
    requires mtu > 0 ==> rest == Pieces(bytes[n..], mtu)
    requires restChecked == PrnSchedule(prn, Bump(prn, count), |rest|)
    ensures mtu > 0 && Pieces(bytes, mtu) == [bytes[..n]] + rest
    ensures [prn > 0 && count + 1 >= prn] + restChecked == PrnSchedule(prn, count, |[bytes[..n]] + rest|)
  {
  }

  /** A first piece that takes all the bytes is the only piece. */
  lemma LastPiece(bytes: seq<byte>, mtu: int, n: nat, prn: int, count: int)
    requires n == Min(mtu, |bytes|) && |bytes| <= n && (n > 0 || bytes == [])
    ensures bytes[..n] == bytes
    ensures mtu > 0 ==> Pieces(bytes, mtu) == [bytes]
    ensures mtu <= 0 ==> bytes == [] && [bytes] == [[]]
    ensures [prn > 0 && count + 1 >= prn] == PrnSchedule(prn, count, |[bytes]|)
  {
  }

  /** A write of the first `n` bytes followed by a write of the rest leaves the
      offset, the checksum and the written data a write of all of them leaves. */
  lemma WrittenInTwo(bytes: seq<byte>, n: nat, crcSoFar: Option<bv32>, offsetSoFar: uint32,
                     offset: uint32, crc: bv32, result: (uint32, bv32), before: seq<byte>, after: seq<byte>)
    requires n <= |bytes| < TWO_32
    requires offset == U32Add(offsetSoFar, n as uint32) && crc == Crc(bytes[..n], crcSoFar)
    requires result == (U32Plus(offset, |bytes[n..]|), Crc(bytes[n..], Some(crc)))
    requires after == before + bytes[..n] + bytes[n..]
    ensures result == (U32Plus(offsetSoFar, |bytes|), Crc(bytes, crcSoFar))
    ensures after == before + bytes
  {
    OffsetSplit(offsetSoFar, bytes, n);
    CrcSplit(bytes, n, crcSoFar);
    AppendSplit(before, bytes, n);
  }

  /** A write whose one piece is all of `bytes` leaves the offset and the checksum
      a write of all of them leaves. */
  lemma WrittenInOne(bytes: seq<byte>, n: nat, crcSoFar: Option<bv32>, offsetSoFar: uint32,
                     offset: uint32, crc: bv32)
    requires n == |bytes| < TWO_32
    requires offset == U32Add(offsetSoFar, n as uint32) && crc == Crc(bytes[..n], crcSoFar)
    ensures (offset, crc) == (U32Plus(offsetSoFar, |bytes|), Crc(bytes, crcSoFar))
  {
    assert bytes[..n] == bytes;
    U32PlusAdd(offsetSoFar, n, 0);
    U32PlusZero(offset);
  }

  /** `offsetSoFar + n` in `uint` arithmetic. */
  function U32Plus(a: uint32, n: nat): uint32 {
    ((a as int + n) % TWO_32) as uint32
  }

  lemma U32PlusZero(a: uint32)
    ensures U32Plus(a, 0) == a
  {
    ModUnique(a as int, 0, a as int, TWO_32);
  }

  /** The offset after a write is the offset after its first piece advanced by
      the rest. */
  lemma OffsetSplit(a: uint32, bytes: seq<byte>, n: nat)
    requires n <= |bytes| < TWO_32
    ensures U32Plus(U32Add(a, n as uint32), |bytes[n..]|) == U32Plus(a, |bytes|)
  {
    U32PlusAdd(a, n, |bytes| - n);
  }

  lemma AppendSplit(w: seq<byte>, bytes: seq<byte>, n: nat)
    requires n <= |bytes|
    ensures w + bytes[..n] + bytes[n..] == w + bytes
  {
    assert bytes == bytes[..n] + bytes[n..];
  }

  /** The checksum of a write is the checksum of its rest seeded with the checksum
      of its first piece. */
  lemma CrcSplit(bytes: seq<byte>, n: nat, seed: Option<bv32>)
    requires n <= |bytes|
    ensures Crc(bytes, seed) == Crc(bytes[n..], Some(Crc(bytes[..n], seed)))
  {
    assert bytes == bytes[..n] + bytes[n..];
    CrcAppend(bytes[..n], bytes[n..], seed);
  }

  /** Advancing the offset by a piece and then by the rest is advancing it by both. */
  lemma U32PlusAdd(a: uint32, s: nat, n: nat)
    requires s < TWO_32
    ensures U32Plus(U32Add(a, s as uint32), n) == U32Plus(a, s + n)
  {
    var b := U32Add(a, s as uint32) as int;
    var x := a as int + s + n;
    var q := (b + n) / TWO_32;
    assert b + n == q * TWO_32 + (b + n) % TWO_32;
    if a as int + s < TWO_32 {
      ModUnique(x, q, (b + n) % TWO_32, TWO_32);
    } else {
      ModUnique(x, q + 1, (b + n) % TWO_32, TWO_32);
    }
  }

  // ---------------------------------------------------------------------------
  // The line.

  /** An entry of the serial line's log: a command written, with the bytes put on
      the wire for it; a decoded message that the device's answer delivered while a
      `Read` waited; or a wait that timed out with nothing delivered. */
  datatype Traffic = Sent(command: seq<byte>, wire: seq<byte>) | Arrived(message: seq<byte>) | Silence

  /** The device: given the line's log, the decoded message that reaches the next
      waiting `Read` within its 5000 ms timeout, if any. */
  type Responder = seq<Traffic> -> Option<seq<byte>>

  function Heard(arrival: Option<seq<byte>>): Traffic {
    if arrival.Some? then Arrived(arrival.value) else Silence
  }

  /** What a `Read` that had to wait returns, as modelled. Only a delivery that parses
      signals the waiter. For a delivery that `OnData` rejects, the code throws from
      `OnData` through the SLIP decoder into the serial port's `async void` data
      handler, which does not catch it; the model leaves that unhandled exception
      out and lets the waiting `Read` time out, as it does after an empty wait. */
  function WaitOutcome(arrival: Option<seq<byte>>): (r: Result<Option<Packet>, Error>)
    ensures r.Success? <==> arrival.Some? && Parse(arrival.value).Success?
    ensures r.Failure? ==> r.error == Dfu(ERROR_TIMEOUT_READING_SERIAL)
    ensures r.Success? ==> r.value == Some(Parse(arrival.value).value)
  {
    if arrival.None? || Parse(arrival.value).Failure? then Failure(Dfu(ERROR_TIMEOUT_READING_SERIAL))
    else Success(Some(Parse(arrival.value).value))
  }

  /** In the model, a device that reports an error, even a catalogued one, makes the
      waiting `Read` fail with a read timeout: the error code itself never reaches
      the caller of `Read`. (In the code the parse exception goes unhandled in the
      serial port's data handler and `Read` is never signalled.) */
  lemma ErrorResponseTimesOut(opcode: byte, code: int)
    requires code in ResponseCatalog || code in ExtendedCatalog
    ensures WaitOutcome(Some(ErrorResponse(opcode, code))) == Failure(Dfu(ERROR_TIMEOUT_READING_SERIAL))
  {
    ParseErrorResponse(opcode, code);
  }

  /** The commands written, in order. */
  function TrafficCommands(t: seq<Traffic>): seq<seq<byte>>
    decreases |t|, 1
  {
    if t == [] then [] else TrafficCommandsStep(t)
  }

  /** `TrafficCommands` of a log that is not empty: the commands before its last
      entry, then that entry's command if it is a sent one. Kept apart so that a
      proof unfolding `TrafficCommands` goes one entry deep only. */
  function TrafficCommandsStep(t: seq<Traffic>): seq<seq<byte>>
    requires t != []
    decreases |t|, 0
  {
    TrafficCommands(t[..|t| - 1]) + (if t[|t| - 1].Sent? then [t[|t| - 1].command] else [])
  }

  /** The data a command carries: what follows the write opcode of a write. */
  function DataOf(command: seq<byte>): seq<byte> {
    if |command| > 0 && command[0] == OP_WRITE then command[1..] else []
  }

  function DataOfAll(commands: seq<seq<byte>>): seq<byte>
    decreases |commands|, 1
  {
    if commands == [] then [] else DataOfAllStep(commands)
  }

  /** `DataOfAll` of commands that are not empty: the data of all but the last,
      then the last one's. Kept apart as `TrafficCommandsStep` is. */
  function DataOfAllStep(commands: seq<seq<byte>>): seq<byte>
    requires commands != []
    decreases |commands|, 0
  {
    DataOfAll(commands[..|commands| - 1]) + DataOf(commands[|commands| - 1])
  }

  /** The object data written to the line, in order. */
  function WrittenData(t: seq<Traffic>): seq<byte> {
    DataOfAll(TrafficCommands(t))
  }

  lemma TrafficSnoc(t: seq<Traffic>, x: Traffic)
    ensures TrafficCommands(t + [x]) == TrafficCommands(t) + (if x.Sent? then [x.command] else [])
    ensures WrittenData(t + [x]) == WrittenData(t) + (if x.Sent? then DataOf(x.command) else [])
  {
    assert (t + [x])[..|t|] == t;
    var cs := TrafficCommands(t);
    if x.Sent? {
      assert (cs + [x.command])[..|cs|] == cs;
      assert DataOfAll(cs + [x.command]) == DataOfAllStep(cs + [x.command]);
    } else {
      assert cs + [] == cs;
    }
  }

  /** The log of an exchange that succeeded: the command, then the device's success
      response for `opcode` carrying `payload`. */
  function Answered(command: seq<byte>, opcode: byte, payload: seq<byte>): seq<Traffic> {
    [Sent(command, SerialFrame(command)), Arrived(SuccessResponse(opcode, payload))]
  }

  /** Whether the log `t` ends with `tail`. */
  predicate EndsWith(t: seq<Traffic>, tail: seq<Traffic>) {
    |tail| <= |t| && t[|t| - |tail|..] == tail
  }

  /** What one piece of an object write puts on the line: its write command and,
      when a checksum notification was read after it, the device's success
      response carrying that notification. */
  function PieceEntry(piece: seq<byte>, reply: Option<seq<byte>>): seq<Traffic> {
    if reply.Some? then Answered(WriteDataCommand(piece), OP_CRC, reply.value)
    else [Sent(WriteDataCommand(piece), SerialFrame(WriteDataCommand(piece)))]
  }

  /** What an object write on a ready transport puts on the line: the entry of
      every piece, in order. */
  function PieceTraffic(pieces: seq<seq<byte>>, replies: seq<Option<seq<byte>>>): seq<Traffic>
    requires |pieces| == |replies|
    decreases |pieces|, 1
  {
    if pieces == [] then [] else PieceTrafficStep(pieces, replies)
  }

  /** `PieceTraffic` of a non-empty write: the first piece's entry, then the rest.
      Kept apart so that a proof unfolding `PieceTraffic` meets the entries only
      where it asks for them. */
  function PieceTrafficStep(pieces: seq<seq<byte>>, replies: seq<Option<seq<byte>>>): seq<Traffic>
    requires |pieces| == |replies| > 0
    decreases |pieces|, 0
  {
    PieceEntry(pieces[0], replies[0]) + PieceTraffic(pieces[1..], replies[1..])
  }

  /** One write command per piece, carrying that piece, in order. */
  function WriteCommands(pieces: seq<seq<byte>>): seq<seq<byte>>
    decreases |pieces|
  {
    if pieces == [] then [] else [WriteDataCommand(pieces[0])] + WriteCommands(pieces[1..])
  }

  /** Command `k` of `WriteCommands` writes piece `k`. */
  lemma {:induction false} WriteCommandsAt(pieces: seq<seq<byte>>, k: nat)
    requires k < |pieces|
    ensures |WriteCommands(pieces)| == |pieces|
    ensures WriteCommands(pieces)[k] == WriteDataCommand(pieces[k])
    decreases k
  {
    WriteCommandsLength(pieces);
    if k > 0 {
      WriteCommandsAt(pieces[1..], k - 1);
    }
  }

  lemma {:induction false} WriteCommandsLength(pieces: seq<seq<byte>>)
    ensures |WriteCommands(pieces)| == |pieces|
    decreases |pieces|
  {
    if pieces != [] {
      WriteCommandsLength(pieces[1..]);
    }
  }

  /** A log of one entry holds that entry's command when it is a sent one. */
  lemma OneCommand(x: Traffic)
    ensures TrafficCommands([x]) == if x.Sent? then [x.command] else []
  {
    assert [x][..0] == [];
    assert TrafficCommands([x]) == TrafficCommandsStep([x]);
  }

  /** A command sent and an answer that arrived hold the one command. */
  lemma SentThenArrived(x: Traffic, y: Traffic)
    requires x.Sent? && y.Arrived?
    ensures TrafficCommands([x, y]) == [x.command]
  {
    assert [x, y][..1] == [x];
    OneCommand(x);
  }

  /** A piece's entry holds one command, the write of the piece. */
  lemma PieceEntryCommands(piece: seq<byte>, reply: Option<seq<byte>>)
    ensures TrafficCommands(PieceEntry(piece, reply)) == [WriteDataCommand(piece)]
  {
    var command := WriteDataCommand(piece);
    var sent := Sent(command, SerialFrame(command));
    if reply.Some? {
      SentThenArrived(sent, Arrived(SuccessResponse(OP_CRC, reply.value)));
    } else {
      OneCommand(sent);
    }
  }

  /** The commands of a log are those of its parts, in order. */
  lemma {:induction false} TrafficCommandsAppend(a: seq<Traffic>, b: seq<Traffic>)
    ensures TrafficCommands(a + b) == TrafficCommands(a) + TrafficCommands(b)
    decreases |b|
  {
    if b == [] {
      assert a + b == a;
      assert TrafficCommands(a) + [] == TrafficCommands(a);
    } else {
      var front, x := b[..|b| - 1], b[|b| - 1];
      TrafficCommandsAppend(a, front);
      assert b == front + [x];
      assert a + b == (a + front) + [x];
      TrafficSnoc(a + front, x);
      TrafficSnoc(front, x);
    }
  }

  lemma PieceTrafficCons(piece: seq<byte>, reply: Option<seq<byte>>, rest: seq<seq<byte>>, restReplies: seq<Option<seq<byte>>>)
    requires |rest| == |restReplies|
    ensures PieceTraffic([piece] + rest, [reply] + restReplies) == PieceEntry(piece, reply) + PieceTraffic(rest, restReplies)
  {
    assert ([piece] + rest)[1..] == rest && ([reply] + restReplies)[1..] == restReplies;
  }

  lemma EndsWithExtend(mid: seq<Traffic>, e: seq<Traffic>, tail: seq<Traffic>)
    requires EndsWith(mid, e)
    ensures EndsWith(mid + tail, e + tail)
  {
    assert (mid + tail)[|mid + tail| - |e + tail|..] == mid[|mid| - |e|..] + tail;
  }

  /** The commands of an object write's traffic are its pieces' write commands, one
      per piece and in order; the notifications add no command. */
  lemma {:induction false} PieceTrafficCommands(pieces: seq<seq<byte>>, replies: seq<Option<seq<byte>>>)
    requires |pieces| == |replies|
    ensures TrafficCommands(PieceTraffic(pieces, replies)) == WriteCommands(pieces)
    decreases |pieces|
  {
    if pieces != [] {
      var e, tail := PieceEntry(pieces[0], replies[0]), PieceTraffic(pieces[1..], replies[1..]);
      PieceEntryCommands(pieces[0], replies[0]);
      PieceTrafficCommands(pieces[1..], replies[1..]);
      TrafficCommandsAppend(e, tail);
    }
  }

  /** The traffic of a first piece followed by the traffic of the rest is the
      traffic of the whole write, both at the end of the log and, when the first
      piece's entry was all that was added, from the log before it. */
  lemma PieceTrafficThenRest(before: seq<Traffic>, mid: seq<Traffic>, after: seq<Traffic>, exact: bool,
                             piece: seq<byte>, reply: Option<seq<byte>>,
                             rest: seq<seq<byte>>, restReplies: seq<Option<seq<byte>>>,
                             pieces: seq<seq<byte>>, replies: seq<Option<seq<byte>>>)
    requires |rest| == |restReplies| && pieces == [piece] + rest && replies == [reply] + restReplies
    requires EndsWith(mid, PieceEntry(piece, reply))
    requires exact ==> mid == before + PieceEntry(piece, reply)
    requires after == mid + PieceTraffic(rest, restReplies)
    ensures |pieces| == |replies|
    ensures EndsWith(after, PieceTraffic(pieces, replies))
    ensures exact ==> after == before + PieceTraffic(pieces, replies)
  {
    PieceTrafficCons(piece, reply, rest, restReplies);
    EndsWithExtend(mid, PieceEntry(piece, reply), PieceTraffic(rest, restReplies));
  }

  lemma AppendTwo(s: seq<seq<byte>>, x: seq<byte>, y: seq<byte>)
    ensures s + [x] + [y] == s + [x, y]
  {
  }

  /** Images found before a query outcome, put in front of what it found. */
  function Prefixed(found: seq<FirmwareVersion>, rest: (Result<seq<FirmwareVersion>, Error>, seq<Traffic>))
    : (Result<seq<FirmwareVersion>, Error>, seq<Traffic>)
  {
    (if rest.0.Failure? then Failure(rest.0.error) else Success(found + rest.0.value), rest.1)
  }

  lemma PrefixedNone(rest: (Result<seq<FirmwareVersion>, Error>, seq<Traffic>))
    ensures Prefixed([], rest) == rest
  {
    if rest.0.Success? {
      assert [] + rest.0.value == rest.0.value;
    }
  }

  lemma PrefixedTwice(a: seq<FirmwareVersion>, b: seq<FirmwareVersion>, rest: (Result<seq<FirmwareVersion>, Error>, seq<Traffic>))
    ensures Prefixed(a, Prefixed(b, rest)) == Prefixed(a + b, rest)
  {
    if rest.0.Success? {
      assert a + (b + rest.0.value) == a + b + rest.0.value;
    }
  }

  /** A firmware image query on a line: what it found for an image index, and the
      log after. */
  type Query = (seq<Traffic>, byte) -> (Result<Option<FirmwareVersion>, Error>, seq<Traffic>)

  /** The recursion of `GetAllFirmwareVersions` with at most `fuel` queries: the
      images from `index` on, in index order, up to the first index that has none. */
  function Collect(query: Query, t: seq<Traffic>, index: byte, fuel: nat): (Result<seq<FirmwareVersion>, Error>, seq<Traffic>)
    decreases fuel
  {
    if fuel == 0 then (Failure(Diverges), t)
    else
      var (version, t') := query(t, index);
      if version.Failure? then (Failure(version.error), t')
      else if version.value.None? then (Success([]), t')
      else Prefixed([version.value.value], Collect(query, t', NextIndex(index), fuel - 1))
  }

  /** The log after the first `k` queries from `index`. */
  function QueriedLog(query: Query, t: seq<Traffic>, index: byte, k: nat): seq<Traffic>
    decreases k
  {
    if k == 0 then t else QueriedLog(query, query(t, index).1, NextIndex(index), k - 1)
  }

  /** A successful collection starts with the image the query for `index` found,
      and goes on with those from the next index; it is empty exactly when that
      query found none. */
  lemma CollectFirst(query: Query, t: seq<Traffic>, index: byte, fuel: nat)
    requires Collect(query, t, index, fuel).0.Success?
    ensures var found := Collect(query, t, index, fuel).0.value;
            var (version, t') := query(t, index);
            && version == Success(if |found| > 0 then Some(found[0]) else None)
            && (|found| > 0 ==> fuel > 0 && Collect(query, t', NextIndex(index), fuel - 1).0 == Success(found[1..]))
  {
    var (version, t') := query(t, index);
    if version.value.Some? {
      var rest := Collect(query, t', NextIndex(index), fuel - 1);
      assert Collect(query, t, index, fuel).0.value == [version.value.value] + rest.0.value;
    }
  }

  /** A successful collection holds, at position `k`, the image the query for index
      `index + k` found, and the query after the last image found none. */
  lemma CollectFound(query: Query, t: seq<Traffic>, index: byte, fuel: nat, k: nat)
    requires Collect(query, t, index, fuel).0.Success?
    requires k <= |Collect(query, t, index, fuel).0.value|
    ensures var found := Collect(query, t, index, fuel).0.value;
            query(QueriedLog(query, t, index, k), IndexAt(index, k)).0
              == Success(if k < |found| then Some(found[k]) else None)
    decreases fuel
  {
    CollectFirst(query, t, index, fuel);
    IndexAtNext(index, if k == 0 then 0 else k - 1);
    if k > 0 {
      CollectFound(query, query(t, index).1, NextIndex(index), fuel - 1, k - 1);
    }
  }

  /** Whether a checksum notification reports the offset and the checksum the
      transport computed for what it wrote. */
  predicate Agrees(reported: (uint32, uint32), computed: (uint32, bv32)) {
    reported.0 == computed.0 && reported.1 as int == computed.1 as int
  }

  /** The offset and checksum an object write of `bytes` has reached after its
      piece `k`, pieces being `m` bytes long. */
  function Reached(bytes: seq<byte>, m: int, k: nat, crcSoFar: Option<bv32>, offsetSoFar: uint32): (uint32, bv32) {
    var e := if m <= 0 then 0 else Min((k + 1) * m, |bytes|);
    (U32Plus(offsetSoFar, e), Crc(bytes[..e], crcSoFar))
  }

  /** The notifications read during an object write of `bytes` in pieces of `m`
      bytes, one entry per piece: present exactly when the piece was checked, and
      then reporting the offset and checksum the write had reached after that
      piece. Stated piece by piece, as the write recurses; `NotifiedAt` gives the
      entry of any piece `k`. */
  predicate Notified(bytes: seq<byte>, m: int, crcSoFar: Option<bv32>, offsetSoFar: uint32,
                     checked: seq<bool>, replies: seq<Option<seq<byte>>>)
    decreases |replies|
  {
    && |replies| == |checked|
    && (|replies| > 0 ==>
          && (replies[0].Some? <==> checked[0])
          && (replies[0].Some? ==>
                |replies[0].value| == 8 && Agrees(DecodeCrc(replies[0].value), Reached(bytes, m, 0, crcSoFar, offsetSoFar)))
          && (|replies| > 1 ==>
                && 0 < m < |bytes| < TWO_32
                && Notified(bytes[m..], m, Some(Crc(bytes[..m], crcSoFar)), U32Add(offsetSoFar, m as uint32),
                            checked[1..], replies[1..])))
  }

  /** Past a first piece of `m` bytes, the rest of the write reaches after its piece
      `k` what the whole write reaches after its piece `k + 1`. */
  lemma ReachedShift(bytes: seq<byte>, m: int, k: nat, crcSoFar: Option<bv32>, offsetSoFar: uint32)
    requires 0 < m < |bytes| < TWO_32
    ensures Reached(bytes[m..], m, k, Some(Crc(bytes[..m], crcSoFar)), U32Add(offsetSoFar, m as uint32))
         == Reached(bytes, m, k + 1, crcSoFar, offsetSoFar)
  {
    var e' := Min((k + 1) * m, |bytes| - m);
    var e := Min((k + 2) * m, |bytes|);
    assert e == m + e';
    U32PlusAdd(offsetSoFar, m, e');
    CrcSplit(bytes[..e], m, crcSoFar);
    assert bytes[..e][m..] == bytes[m..][..e'];
    assert bytes[..e][..m] == bytes[..m];
  }

  /** The notification read after piece `k`, if any, is there because piece `k` was
      checked, and reports the offset and checksum the write had reached after
      piece `k`. */
  lemma {:induction false} NotifiedAt(bytes: seq<byte>, m: int, crcSoFar: Option<bv32>, offsetSoFar: uint32,
                                      checked: seq<bool>, replies: seq<Option<seq<byte>>>, k: nat)
    requires Notified(bytes, m, crcSoFar, offsetSoFar, checked, replies)
    requires k < |replies|
    ensures replies[k].Some? <==> checked[k]
    ensures replies[k].Some? ==>
              |replies[k].value| == 8 && Agrees(DecodeCrc(replies[k].value), Reached(bytes, m, k, crcSoFar, offsetSoFar))
    decreases k
  {
    if k > 0 {
      NotifiedAt(bytes[m..], m, Some(Crc(bytes[..m], crcSoFar)), U32Add(offsetSoFar, m as uint32),
                 checked[1..], replies[1..], k - 1);
      ReachedShift(bytes, m, k - 1, crcSoFar, offsetSoFar);
    }
  }

  lemma NotifiedThenRest(bytes: seq<byte>, m: int, crcSoFar: Option<bv32>, offsetSoFar: uint32,
                         check: bool, reply: Option<seq<byte>>, restChecked: seq<bool>, restReplies: seq<Option<seq<byte>>>)
    requires 0 < m < |bytes| < TWO_32
    requires check <==> reply.Some?
    requires reply.Some? ==>
               |reply.value| == 8 && Agrees(DecodeCrc(reply.value), (U32Add(offsetSoFar, m as uint32), Crc(bytes[..m], crcSoFar)))
    requires Notified(bytes[m..], m, Some(Crc(bytes[..m], crcSoFar)), U32Add(offsetSoFar, m as uint32), restChecked, restReplies)
    ensures Notified(bytes, m, crcSoFar, offsetSoFar, [check] + restChecked, [reply] + restReplies)
  {
    ReachedFirst(bytes, m, crcSoFar, offsetSoFar);
    assert ([check] + restChecked)[1..] == restChecked;
    assert ([reply] + restReplies)[1..] == restReplies;
  }

  /** The first piece of `m` bytes reaches the offset and the checksum of that piece. */
  lemma ReachedFirst(bytes: seq<byte>, m: int, crcSoFar: Option<bv32>, offsetSoFar: uint32)
    requires 0 < m < |bytes| < TWO_32
    ensures Reached(bytes, m, 0, crcSoFar, offsetSoFar) == (U32Add(offsetSoFar, m as uint32), Crc(bytes[..m], crcSoFar))
  {
  }

  lemma NotifiedLast(bytes: seq<byte>, m: int, crcSoFar: Option<bv32>, offsetSoFar: uint32, check: bool, reply: Option<seq<byte>>)
    requires m >= 0 && |bytes| <= m && |bytes| < TWO_32
    requires check <==> reply.Some?
    requires reply.Some? ==>
               |reply.value| == 8 && Agrees(DecodeCrc(reply.value), (U32Add(offsetSoFar, |bytes| as uint32), Crc(bytes, crcSoFar)))
    ensures Notified(bytes, m, crcSoFar, offsetSoFar, [check], [reply])
  {
    assert bytes[..|bytes|] == bytes;
  }

  /** A reply accepted by the check delivered exactly the device's success response. */
  lemma ArrivedAnswer(arrival: Option<seq<byte>>, opcode: byte, length: int, answer: seq<byte>)
    requires Expect(opcode, length, WaitOutcome(arrival)) == Success(answer)
    ensures Heard(arrival) == Arrived(SuccessResponse(opcode, answer))
  {
  }

  lemma EndsWithAppend(t: seq<Traffic>, tail: seq<Traffic>)
    ensures EndsWith(t + tail, tail)
  {
    assert (t + tail)[|t|..] == tail;
  }

  /** A command sent on an idle line, then a read of its answer checked for the
      expected opcode and payload length: the accepted payload or the failure,
      and the log after. */
  function Exchange(device: Responder, t: seq<Traffic>, command: seq<byte>, expectedOpcode: byte, expectedLength: int)
    : (Result<seq<byte>, Error>, seq<Traffic>)
  {
    var sent := t + [Sent(command, SerialFrame(command))];
    (Expect(expectedOpcode, expectedLength, WaitOutcome(device(sent))), sent + [Heard(device(sent))])
  }

  /** The exchange whose answer is the device's success response of the expected
      opcode and length accepts that payload and logs the command and the answer. */
  lemma ExchangeAnswered(device: Responder, t: seq<Traffic>, command: seq<byte>, opcode: byte, payload: seq<byte>)
    requires device(t + [Sent(command, SerialFrame(command))]) == Some(SuccessResponse(opcode, payload))
    ensures Exchange(device, t, command, opcode, |payload|) == (Success(payload), t + Answered(command, opcode, payload))
  {
    var sent := t + [Sent(command, SerialFrame(command))];
    ParseSuccessResponse(opcode, payload);
    assert WaitOutcome(device(sent)) == Success(Some(Packet(opcode, payload)));
    assert sent + [Heard(device(sent))] == t + Answered(command, opcode, payload);
  }

  /** The answer to `GetFirmwareVersion(index)` on an idle line to `device` with log `t`. */
  function FirmwareAnswer(device: Responder, t: seq<Traffic>, index: byte): (Result<Option<FirmwareVersion>, Error>, seq<Traffic>) {
    var (payload, t') := Exchange(device, t, [OP_FIRMWARE_VERSION, index], OP_FIRMWARE_VERSION, 13);
    (if payload.Failure? then Failure(payload.error) else DecodeFirmwareVersion(payload.value), t')
  }
  // ---------------------------------------------------------------------------
  // The transport object.

  class SerialTransport {
    /** `_prn`: the PRN interval, a `short`; 0 or less disables the notifications. */
    const prn: int
    const device: Responder
    /** `Exchange` with this device. */
    ghost const exchange: (seq<Traffic>, seq<byte>, byte, int) -> (Result<seq<byte>, Error>, seq<Traffic>)
    /** `GetFirmwareVersion` as a query over the log, for `Collect`. */
    ghost const firmwareQuery: Query
    /** What went over the serial line, in order. */
    var traffic: seq<Traffic>
    /** `_lastReceivedPacket`: the one parsed packet no `Read` has taken yet. */
    var lastReceivedPacket: Option<Packet>
    /** Whether a `Read` is waiting (`_waitingForPacket != null`). */
    var waitingForPacket: bool
    /** `Mtu`: null until `Ready` has asked the device. */
    var mtu: Option<int>
    var isReady: bool
    var isGettingReady: bool

    ghost predicate Valid()
      reads this
    {
      && -0x8000 <= prn < 0x8000
      && lastReceivedPacket.None? && !waitingForPacket
      && (isReady ==> mtu.Some? && !isGettingReady)
      && (mtu.Some? ==> mtu.value >= 0 && mtu.value % 4 == 0)
      && Linked()
    }

    /** `exchange` and `firmwareQuery` are `Exchange` and `FirmwareAnswer` for this
        device; the two names let the proofs about a caller leave the parse of the
        answer folded. This depends on constants only. */
    ghost predicate Linked() {
      && (forall t, command, opcode, length {:trigger Exchange(device, t, command, opcode, length)} ::
            exchange(t, command, opcode, length) == Exchange(device, t, command, opcode, length))
      && (forall t, i {:trigger FirmwareAnswer(device, t, i)} :: firmwareQuery(t, i) == FirmwareAnswer(device, t, i))
    }

    /** The commands `Ready` sends when called in state `wasReady`. */
    function Prelude(wasReady: bool): seq<seq<byte>> {
      if wasReady then [] else ReadyCommands(prn)
    }


    constructor(device: Responder, packetReceiveNotification: int := DEFAULT_PRN)
      requires -0x8000 <= packetReceiveNotification < 0x8000
      ensures Valid() && this.device == device && prn == packetReceiveNotification
      ensures traffic == [] && lastReceivedPacket.None? && !waitingForPacket
      ensures mtu.None? && !isReady && !isGettingReady
    {
      this.device := device;
      exchange := (t, command, opcode, length) => Exchange(device, t, command, opcode, length);
      firmwareQuery := (t, i) => FirmwareAnswer(device, t, i);
      prn := packetReceiveNotification;
      traffic := [];
      lastReceivedPacket := None;
      waitingForPacket := false;
      mtu := None;
      isReady := false;
      isGettingReady := false;
    }

    /** `WriteCommand`: SLIP-encodes the command, strips the opening END and writes
        the rest to the line. */
    method WriteCommand(command: seq<byte>)
      modifies this`traffic
      ensures traffic == old(traffic) + [Sent(command, SerialFrame(command))]
      ensures TrafficCommands(traffic) == TrafficCommands(old(traffic)) + [command]
      ensures WrittenData(traffic) == WrittenData(old(traffic)) + DataOf(command)
    {
      var encoded := Encode(command);
      encoded := encoded[1..];
      TrafficSnoc(traffic, Sent(command, encoded));
      traffic := traffic + [Sent(command, encoded)];
    }

    /** `WriteData`: the data packed into a write command. */
    method WriteData(data: seq<byte>)
      modifies this`traffic
      ensures traffic == old(traffic) + [Sent(WriteDataCommand(data), SerialFrame(WriteDataCommand(data)))]
      ensures TrafficCommands(traffic) == TrafficCommands(old(traffic)) + [WriteDataCommand(data)]
      ensures WrittenData(traffic) == WrittenData(old(traffic)) + data
    {
      WriteCommand(WriteDataCommand(data));
    }

    /** `OnData`: a second packet while one is still unread is rejected; otherwise
        the parsed packet is stored, and a waiting `Read` is signalled. A packet
        that does not parse is rejected and leaves the slot empty. */
    method OnData(bytes: seq<byte>) returns (r: Result<(), Error>, signalled: bool)
      modifies this`lastReceivedPacket
      ensures old(lastReceivedPacket).Some? ==>
                r == Failure(Dfu(ERROR_RECEIVE_TWO_MESSAGES)) && lastReceivedPacket == old(lastReceivedPacket)
      ensures old(lastReceivedPacket).None? && Parse(bytes).Failure? ==>
                r == Failure(Parse(bytes).error) && lastReceivedPacket.None?
      ensures old(lastReceivedPacket).None? && Parse(bytes).Success? ==>
                r.Success? && lastReceivedPacket == Some(Parse(bytes).value)
      ensures signalled <==> r.Success? && waitingForPacket
    {
      if lastReceivedPacket.Some? {
        return Failure(Dfu(ERROR_RECEIVE_TWO_MESSAGES)), false;
      }
      var parsed := Parse(bytes);
      if parsed.Failure? {
        return Failure(parsed.error), false;
      }
      lastReceivedPacket := Some(parsed.value);
      r := Success(());
      signalled := waitingForPacket;
    }

    /** `Read`: a second reader is rejected and disturbs nothing; a buffered packet
        is taken at once; otherwise the reader waits for the device's answer, and
        the waiter is cleared however the wait ends. */
    method Read() returns (r: Result<Option<Packet>, Error>)
      modifies this`traffic, this`lastReceivedPacket, this`waitingForPacket
      ensures old(waitingForPacket) ==> r == Failure(Dfu(ERROR_READ_CONFLICT)) && unchanged(this)
      ensures !old(waitingForPacket) ==> !waitingForPacket && lastReceivedPacket.None?
      ensures !old(waitingForPacket) && old(lastReceivedPacket).Some? ==>
                r == Success(old(lastReceivedPacket)) && traffic == old(traffic)
      ensures !old(waitingForPacket) && old(lastReceivedPacket).None? ==>
                traffic == old(traffic) + [Heard(device(old(traffic)))] && r == WaitOutcome(device(old(traffic)))
      ensures TrafficCommands(traffic) == TrafficCommands(old(traffic))
      ensures WrittenData(traffic) == WrittenData(old(traffic))
    {
      if waitingForPacket {
        return Failure(Dfu(ERROR_READ_CONFLICT));
      }
      if lastReceivedPacket.Some? {
        var packet := lastReceivedPacket;
        lastReceivedPacket := None;
        return Success(packet);
      }
      waitingForPacket := true;
      var arrival := device(traffic);
      TrafficSnoc(traffic, Heard(arrival));
      traffic := traffic + [Heard(arrival)];
      var signalled := false;
      if arrival.Some? {
        var delivered;
        delivered, signalled := OnData(arrival.value);
      }
      waitingForPacket := false;
      if !signalled {
        return Failure(Dfu(ERROR_TIMEOUT_READING_SERIAL));
      }
      var packet := lastReceivedPacket;
      lastReceivedPacket := None;
      r := Success(packet);
    }

    /** A command and the check of its answer. */
    method Request(command: seq<byte>, expectedOpcode: byte, expectedLength: int) returns (r: Result<seq<byte>, Error>)
      requires Linked()
      modifies this`traffic, this`lastReceivedPacket, this`waitingForPacket
      ensures TrafficCommands(traffic) == TrafficCommands(old(traffic)) + [command]
      ensures WrittenData(traffic) == WrittenData(old(traffic)) + DataOf(command)
      ensures old(waitingForPacket) ==>
                r == Failure(Dfu(ERROR_READ_CONFLICT)) && traffic == old(traffic) + [Sent(command, SerialFrame(command))] &&
                waitingForPacket && lastReceivedPacket == old(lastReceivedPacket)
      ensures !old(waitingForPacket) && old(lastReceivedPacket).Some? ==>
                r == Expect(expectedOpcode, expectedLength, Success(old(lastReceivedPacket))) &&
                traffic == old(traffic) + [Sent(command, SerialFrame(command))]
      ensures !old(waitingForPacket) && old(lastReceivedPacket).None? ==>
                (r, traffic) == exchange(old(traffic), command, expectedOpcode, expectedLength)
      ensures r.Success? ==> |r.value| == expectedLength
      ensures r.Failure? ==> r.error.Dfu?
      ensures !old(waitingForPacket) ==> !waitingForPacket && lastReceivedPacket.None?
      ensures !old(waitingForPacket) && old(lastReceivedPacket).None? && r.Success? ==>
                traffic == old(traffic) + Answered(command, expectedOpcode, r.value)
    {
      ghost var before := traffic;
      ghost var idle := !waitingForPacket && lastReceivedPacket.None?;
      WriteCommand(command);
      var read := Read();
      r := Expect(expectedOpcode, expectedLength, read);
      if idle {
        assert (r, traffic) == Exchange(device, before, command, expectedOpcode, expectedLength);
      }
    }

    /** The two requests of `Ready`: the PRN interval, then the MTU, which the
        device's 2-byte answer gives. */
    method Negotiate() returns (r: Result<int, Error>, ghost answer: seq<byte>)
      requires Linked()
      modifies this`traffic, this`lastReceivedPacket, this`waitingForPacket
      ensures r.Success? ==> TrafficCommands(traffic) == TrafficCommands(old(traffic)) + ReadyCommands(prn)
      ensures WrittenData(traffic) == WrittenData(old(traffic))
      ensures !old(waitingForPacket) ==> !waitingForPacket && lastReceivedPacket.None?
      ensures r.Success? ==> |answer| == 2 && r.value == MtuFromWire(answer)
      ensures !old(waitingForPacket) && old(lastReceivedPacket).None? && r.Success? ==>
                traffic == old(traffic) + Answered(SetPrnCommand(prn), OP_SET_PRN, []) + Answered([OP_GET_MTU], OP_GET_MTU, answer)
    {
      answer := [];
      ghost var sent := TrafficCommands(traffic);
      assert DataOf(SetPrnCommand(prn)) == [] && DataOf([OP_GET_MTU]) == [];
      var prnReply := Request(SetPrnCommand(prn), OP_SET_PRN, 0);
      if prnReply.Failure? {
        return Failure(prnReply.error), answer;
      }
      assert prnReply.value == [];
      var mtuReply := Request([OP_GET_MTU], OP_GET_MTU, 2);
      if mtuReply.Failure? {
        return Failure(mtuReply.error), answer;
      }
      AppendTwo(sent, SetPrnCommand(prn), [OP_GET_MTU]);
      answer := mtuReply.value;
      r := Success(MtuFromWire(mtuReply.value));
    }

    /** `Ready`: once ready, nothing is sent. Otherwise the PRN interval is set and
        the MTU requested; a failure leaves the transport "getting ready", and a later
        `Ready` then waits for a flag that nothing will set. The ghost `answer` is
        the device's reply to the MTU request. */
    method Ready() returns (r: Result<(), Error>, ghost answer: seq<byte>)
      requires Valid()
      modifies this`traffic, this`lastReceivedPacket, this`waitingForPacket, this`mtu, this`isReady, this`isGettingReady
      ensures Valid()
      ensures old(isReady) ==> r.Success? && unchanged(this)
      ensures !old(isReady) && old(isGettingReady) ==> r == Failure(Diverges) && unchanged(this)
      ensures r.Success? ==> isReady && !isGettingReady
      ensures r.Success? ==> TrafficCommands(traffic) == TrafficCommands(old(traffic)) + Prelude(old(isReady))
      ensures !old(isReady) && r.Failure? ==> isGettingReady && !isReady && mtu == old(mtu)
      ensures WrittenData(traffic) == WrittenData(old(traffic))
      ensures !old(isReady) && r.Success? ==>
                |answer| == 2 && mtu == Some(MtuFromWire(answer)) &&
                |traffic| > 0 && traffic[|traffic| - 1] == Arrived(SuccessResponse(OP_GET_MTU, answer))
    {
      answer := [];
      if isReady {
        return Success(()), answer;
      }
      if isGettingReady {
        return Failure(Diverges), answer;
      }
      isGettingReady := true;
      var got;
      got, answer := Negotiate();
      if got.Failure? {
        return Failure(got.error), answer;
      }
      mtu := Some(got.value);
      isGettingReady := false;
      isReady := true;
      r := Success(());
    }

    /** `Ready` followed by `Request`, the opening of every object command that
        awaits an answer. */
    method ReadyRequest(command: seq<byte>, expectedOpcode: byte, expectedLength: int) returns (r: Result<seq<byte>, Error>)
      requires Valid() && DataOf(command) == []
      modifies this
      ensures Valid() && (old(isReady) ==> isReady && mtu == old(mtu))
      ensures r.Success? ==> isReady && |r.value| == expectedLength
      ensures r.Success? ==> TrafficCommands(traffic) == TrafficCommands(old(traffic)) + Prelude(old(isReady)) + [command]
      ensures r.Success? ==> EndsWith(traffic, Answered(command, expectedOpcode, r.value))
      ensures WrittenData(traffic) == WrittenData(old(traffic))
    {
      var ready, mtuAnswer := Ready();
      if ready.Failure? {
        return Failure(ready.error);
      }
      ghost var before := traffic;
      r := Request(command, expectedOpcode, expectedLength);
      if r.Success? {
        EndsWithAppend(before, Answered(command, expectedOpcode, r.value));
      }
    }

    /** `CreateObject`: opcode 0x01 with the type and the little-endian size; the
        answer must be empty. */
    method CreateObject(objType: byte, size: uint32) returns (r: Result<seq<byte>, Error>)
      requires Valid()
      modifies this
      ensures Valid() && (old(isReady) ==> isReady && mtu == old(mtu))
      ensures r.Success? ==> isReady && r.value == []
      ensures r.Success? ==> TrafficCommands(traffic) == TrafficCommands(old(traffic)) + Prelude(old(isReady)) + [CreateCommand(objType, size)]
      ensures r.Success? ==> EndsWith(traffic, Answered(CreateCommand(objType, size), OP_CREATE, []))
      ensures WrittenData(traffic) == WrittenData(old(traffic))
    {
      r := ReadyRequest(CreateCommand(objType, size), OP_CREATE, 0);
    }

    /** `ReadCrc`: the checksum answer, 8 bytes holding the offset and the checksum.
        The ghost `answer` is the payload of the device's reply. */
    method ReadCrc() returns (r: Result<(uint32, uint32), Error>, ghost answer: seq<byte>)
      requires Valid()
      modifies this
      ensures Valid() && (old(isReady) ==> isReady && mtu == old(mtu))
      ensures r.Success? ==> isReady
      ensures r.Success? ==> TrafficCommands(traffic) == TrafficCommands(old(traffic)) + Prelude(old(isReady))
      ensures WrittenData(traffic) == WrittenData(old(traffic))
      ensures r.Success? ==> |answer| == 8 && r.value == DecodeCrc(answer)
      ensures r.Success? ==> |traffic| > 0 && traffic[|traffic| - 1] == Arrived(SuccessResponse(OP_CRC, answer))
      ensures old(isReady) && r.Success? ==> traffic == old(traffic) + [Arrived(SuccessResponse(OP_CRC, answer))]
    {
      answer := [];
      var ready, mtuAnswer := Ready();
      if ready.Failure? {
        return Failure(ready.error), answer;
      }
      ghost var before := traffic;
      var read := Read();
      var bytes := Expect(OP_CRC, 8, read);
      if bytes.Failure? {
        return Failure(bytes.error), answer;
      }
      answer := bytes.value;
      ArrivedAnswer(device(before), OP_CRC, 8, answer);
      r := Success(DecodeCrc(bytes.value));
    }

    /** `CrcObject`: requests the checksum explicitly and reads it. */
    method CrcObject(offset: uint32, crcSoFar: Option<bv32>) returns (r: Result<(uint32, uint32), Error>, ghost answer: seq<byte>)
      requires Valid()
      modifies this
      ensures Valid() && (old(isReady) ==> isReady && mtu == old(mtu))
      ensures r.Success? ==> isReady
      ensures r.Success? ==> TrafficCommands(traffic) == TrafficCommands(old(traffic)) + Prelude(old(isReady)) + [[OP_CRC]]
      ensures WrittenData(traffic) == WrittenData(old(traffic))
      ensures r.Success? ==> |answer| == 8 && r.value == DecodeCrc(answer)
      ensures r.Success? ==> EndsWith(traffic, Answered([OP_CRC], OP_CRC, answer))
    {
      answer := [];
      var ready, mtuAnswer := Ready();
      if ready.Failure? {
        return Failure(ready.error), answer;
      }
      ghost var before := traffic;
      WriteCommand([OP_CRC]);
      r, answer := ReadCrc();
      if r.Success? {
        EndsWithAppend(before, Answered([OP_CRC], OP_CRC, answer));
      }
    }

    /** `ExecuteObject`: opcode 0x04; the answer must be empty. */
    method ExecuteObject() returns (r: Result<seq<byte>, Error>)
      requires Valid()
      modifies this
      ensures Valid() && (old(isReady) ==> isReady && mtu == old(mtu))
      ensures r.Success? ==> isReady && r.value == []
      ensures r.Success? ==> TrafficCommands(traffic) == TrafficCommands(old(traffic)) + Prelude(old(isReady)) + [[OP_EXECUTE]]
      ensures r.Success? ==> EndsWith(traffic, Answered([OP_EXECUTE], OP_EXECUTE, []))
      ensures WrittenData(traffic) == WrittenData(old(traffic))
    {
      r := ReadyRequest([OP_EXECUTE], OP_EXECUTE, 0);
    }

    /** `SelectObject`: opcode 0x06 with the type; the 12-byte answer holds the
        maximum object size, the offset and the checksum. */
    method SelectObject(objType: byte) returns (r: Result<Selected, Error>, ghost answer: seq<byte>)
      requires Valid()
      modifies this
      ensures Valid() && (old(isReady) ==> isReady && mtu == old(mtu))
      ensures r.Success? ==> isReady
      ensures r.Success? ==> TrafficCommands(traffic) == TrafficCommands(old(traffic)) + Prelude(old(isReady)) + [SelectCommand(objType)]
      ensures WrittenData(traffic) == WrittenData(old(traffic))
      ensures r.Success? ==> |answer| == 12 && r.value == DecodeSelect(answer)
      ensures r.Success? ==> EndsWith(traffic, Answered(SelectCommand(objType), OP_SELECT, answer))
    {
      var bytes := ReadyRequest(SelectCommand(objType), OP_SELECT, 12);
      if bytes.Failure? {
        return Failure(bytes.error), [];
      }
      answer := bytes.value;
      r := Success(DecodeSelect(bytes.value));
    }

    /** `AbortObject`: opcode 0x0C; no answer is awaited. */
    method AbortObject() returns (r: Result<(), Error>)
      requires Valid()
      modifies this
      ensures Valid() && (old(isReady) ==> isReady && mtu == old(mtu))
      ensures r.Success? ==> TrafficCommands(traffic) == TrafficCommands(old(traffic)) + Prelude(old(isReady)) + [[OP_ABORT]]
      ensures r.Success? ==> EndsWith(traffic, [Sent([OP_ABORT], SerialFrame([OP_ABORT]))])
      ensures WrittenData(traffic) == WrittenData(old(traffic))
    {
      ghost var mtuAnswer;
      r, mtuAnswer := Ready();
      if r.Failure? {
        return;
      }
      ghost var before := traffic;
      WriteCommand([OP_ABORT]);
      EndsWithAppend(before, [Sent([OP_ABORT], SerialFrame([OP_ABORT]))]);
    }

    /** `WriteObject`: after `Ready`, the pieces start with a PRN counter of 0. */
    method WriteObject(bytes: seq<byte>, crcSoFar: Option<bv32>, offsetSoFar: uint32)
      returns (r: Result<(uint32, bv32), Error>, ghost pieces: seq<seq<byte>>, ghost checked: seq<bool>,
               ghost replies: seq<Option<seq<byte>>>)
      requires Valid() && |bytes| <= DfuAbstractTransport.MAX_LENGTH
      modifies this
      ensures Valid() && (old(isReady) ==> isReady && mtu == old(mtu))
      ensures r.Success? ==> r.value == (U32Plus(offsetSoFar, |bytes|), Crc(bytes, crcSoFar))
      ensures r.Success? ==> WrittenData(traffic) == WrittenData(old(traffic)) + bytes
      ensures r.Success? ==> isReady && (mtu.value > 0 ==> pieces == Pieces(bytes, mtu.value))
      ensures r.Success? ==> mtu.value == 0 ==> bytes == [] && pieces == [[]]
      ensures r.Success? ==> checked == PrnSchedule(prn, 0, |pieces|)
      ensures r.Success? ==> Notified(bytes, mtu.value, crcSoFar, offsetSoFar, checked, replies)
      ensures r.Success? ==> |replies| == |pieces| && EndsWith(traffic, PieceTraffic(pieces, replies))
      ensures old(isReady) && r.Success? ==> traffic == old(traffic) + PieceTraffic(pieces, replies)
    {
      var ready, mtuAnswer := Ready();
      if ready.Failure? {
        return Failure(ready.error), [], [], [];
      }
      r, pieces, checked, replies := WriteObjectPiece(bytes, crcSoFar, offsetSoFar, 0);
    }

    /** One pass of `WriteObjectPiece` once the piece and the offset and checksum it
        brings the object to are known: the piece is written, the counter counts
        it, and when the counter reaches the PRN interval it is reset and the
        device's checksum notification must report that offset and checksum. The
        ghost `reply` is the payload of that notification, when one was read. */
    method SendPiece(piece: seq<byte>, newOffset: uint32, newCrc: bv32, count: int)
      returns (r: Result<int, Error>, check: bool, ghost reply: Option<seq<byte>>)
      requires Valid() && isReady
      modifies this
      ensures Valid() && isReady && mtu == old(mtu)
      ensures check == (prn > 0 && count + 1 >= prn)
      ensures r.Success? ==> r.value == if check then 0 else count + 1
      ensures WrittenData(traffic) == WrittenData(old(traffic)) + piece
      ensures !check ==> r.Success? && reply.None?
      ensures check && reply.None? ==> r.Failure?
      ensures reply.Some? ==> check && |reply.value| == 8
      ensures reply.Some? ==> traffic == old(traffic) + Answered(WriteDataCommand(piece), OP_CRC, reply.value)
      ensures reply.Some? ==> (r.Success? <==> Agrees(DecodeCrc(reply.value), (newOffset, newCrc)))
      ensures reply.Some? && r.Failure? ==> r.error == Dfu(ERROR_CRC_MISMATCH)
      ensures !check ==> traffic == old(traffic) + [Sent(WriteDataCommand(piece), SerialFrame(WriteDataCommand(piece)))]
      ensures r.Success? ==> traffic == old(traffic) + PieceEntry(piece, reply)
    {
      var newCount := count + 1;
      WriteData(piece);
      check := prn > 0 && newCount >= prn;
      reply := None;
      if check {
        newCount := 0;
        var notified, answer := ReadCrc();
        if notified.Failure? {
          return Failure(notified.error), check, reply;
        }
        reply := Some(answer);
        if newOffset != notified.value.0 || newCrc as int != notified.value.1 as int {
          return Failure(Dfu(ERROR_CRC_MISMATCH)), check, reply;
        }
      }
      r := Success(newCount);
    }

    /** One pass of `WriteObjectPiece` up to its recursion: `Ready`, then a piece
        of `Min(Mtu ?? 1, remaining)` bytes from the front of `bytes`, sent by
        `SendPiece`. A zero length while bytes remain stops with `Diverges` before
        sending: the source sends an empty write and recurses on the same bytes,
        ending only when a PRN checksum read fails or disagrees, and never when
        the interval is 0 or below; those empty writes are not modelled. */
    method WritePiece(bytes: seq<byte>, crcSoFar: Option<bv32>, offsetSoFar: uint32, prnCount: int)
      returns (r: Result<Progress, Error>, check: bool, ghost reply: Option<seq<byte>>)
      requires Valid() && |bytes| <= DfuAbstractTransport.MAX_LENGTH
      modifies this
      ensures Valid() && (old(isReady) ==> isReady && mtu == old(mtu))
      ensures r.Success? ==> isReady && r.value.length == Min(mtu.value, |bytes|) && (r.value.length > 0 || bytes == [])
      ensures r.Success? ==> r.value.offset == U32Add(offsetSoFar, r.value.length as uint32)
      ensures r.Success? ==> r.value.crc == Crc(bytes[..r.value.length], crcSoFar)
      ensures r.Success? ==> check == (prn > 0 && prnCount + 1 >= prn) && r.value.count == Bump(prn, prnCount)
      ensures r.Success? ==> WrittenData(traffic) == WrittenData(old(traffic)) + bytes[..r.value.length]
      ensures isReady && mtu == Some(0) && bytes != [] ==> r == Failure(Diverges)
      ensures r.Success? ==> (check <==> reply.Some?)
      ensures reply.Some? ==>
                && isReady && |reply.value| == 8
                && var n := Min(mtu.value, |bytes|);
                   && EndsWith(traffic, Answered(WriteDataCommand(bytes[..n]), OP_CRC, reply.value))
                   && (r.Success? <==> Agrees(DecodeCrc(reply.value), (U32Add(offsetSoFar, n as uint32), Crc(bytes[..n], crcSoFar))))
      ensures reply.Some? && r.Failure? ==> r.error == Dfu(ERROR_CRC_MISMATCH)
      ensures old(isReady) && r.Success? ==> traffic == old(traffic) + PieceEntry(bytes[..r.value.length], reply)
      ensures r.Success? ==> EndsWith(traffic, PieceEntry(bytes[..r.value.length], reply))
    {
      reply := None;
      var ready, mtuAnswer := Ready();
      if ready.Failure? {
        return Failure(ready.error), false, reply;
      }
      var sendLength := Min(mtu.GetOr(1), |bytes|);
      if sendLength == 0 && |bytes| > 0 {
        return Failure(Diverges), false, reply;
      }
      var piece := bytes[..sendLength];
      var newOffset := U32Add(offsetSoFar, sendLength as uint32);
      var newCrc := Crc(piece, crcSoFar);
      ghost var before := traffic;
      var sent;
      sent, check, reply := SendPiece(piece, newOffset, newCrc, prnCount);
      if reply.Some? {
        EndsWithAppend(before, Answered(WriteDataCommand(piece), OP_CRC, reply.value));
      }
      if sent.Failure? {
        return Failure(sent.error), check, reply;
      }
      EndsWithAppend(before, PieceEntry(piece, reply));
      r := Success(Progress(sendLength, newOffset, newCrc, sent.value));
    }

    /** `WriteObjectPiece`: a piece is written (see `WritePiece`) and the rest
        follows by recursion. An MTU of 0 on a non-empty write stops with
        `Diverges` (see `WritePiece`). The ghost results are the pieces sent, for each whether a
        checksum notification was read after it, and the notifications' payloads. */
    method WriteObjectPiece(bytes: seq<byte>, crcSoFar: Option<bv32>, offsetSoFar: uint32, prnCount: int)
      returns (r: Result<(uint32, bv32), Error>, ghost pieces: seq<seq<byte>>, ghost checked: seq<bool>,
               ghost replies: seq<Option<seq<byte>>>)
      requires Valid() && |bytes| <= DfuAbstractTransport.MAX_LENGTH
      modifies this
      ensures Valid() && (old(isReady) ==> isReady && mtu == old(mtu))
      ensures r.Success? ==> r.value == (U32Plus(offsetSoFar, |bytes|), Crc(bytes, crcSoFar))
      ensures r.Success? ==> WrittenData(traffic) == WrittenData(old(traffic)) + bytes
      ensures r.Success? ==> isReady && (mtu.value > 0 ==> pieces == Pieces(bytes, mtu.value))
      ensures r.Success? ==> mtu.value == 0 ==> bytes == [] && pieces == [[]]
      ensures r.Success? ==> checked == PrnSchedule(prn, prnCount, |pieces|)
      ensures r.Success? ==> Notified(bytes, mtu.value, crcSoFar, offsetSoFar, checked, replies)
      ensures r.Success? ==> |replies| == |pieces|
      ensures old(isReady) && r.Success? ==> traffic == old(traffic) + PieceTraffic(pieces, replies)
      ensures r.Success? ==> EndsWith(traffic, PieceTraffic(pieces, replies))
      ensures isReady && mtu == Some(0) && bytes != [] ==> r == Failure(Diverges)
      decreases |bytes|
    {
      var first, check, reply := WritePiece(bytes, crcSoFar, offsetSoFar, prnCount);
      if first.Failure? {
        return Failure(first.error), [], [], [];
      }
      var n := first.value.length;
      ghost var mid := traffic;
      if n < |bytes| {
        var more, restPieces, restChecked, restReplies :=
          WriteObjectPiece(bytes[n..], Some(first.value.crc), first.value.offset, first.value.count);
        pieces, checked, replies := [bytes[..n]] + restPieces, [check] + restChecked, [reply] + restReplies;
        if more.Failure? {
          return Failure(more.error), pieces, checked, replies;
        }
        PieceThenRest(bytes, mtu.value, n, prn, prnCount, restPieces, restChecked);
        WrittenInTwo(bytes, n, crcSoFar, offsetSoFar, first.value.offset, first.value.crc, more.value,
                     WrittenData(old(traffic)), WrittenData(traffic));
        NotifiedThenRest(bytes, mtu.value, crcSoFar, offsetSoFar, check, reply, restChecked, restReplies);
        PieceTrafficThenRest(old(traffic), mid, traffic, old(isReady), bytes[..n], reply, restPieces, restReplies,
                             pieces, replies);
        r := more;
      } else {
        LastPiece(bytes, mtu.value, n, prn, prnCount);
        WrittenInOne(bytes, n, crcSoFar, offsetSoFar, first.value.offset, first.value.crc);
        r, pieces, checked, replies := Success((first.value.offset, first.value.crc)), [bytes[..n]], [check], [reply];
        NotifiedLast(bytes, mtu.value, crcSoFar, offsetSoFar, check, reply);
        PieceTrafficThenRest(old(traffic), mid, traffic, old(isReady), bytes[..n], reply, [], [], pieces, replies);
      }
    }

    /** `GetProtocolVersion`: opcode 0x00; the 1-byte answer is the version. */
    method GetProtocolVersion() returns (r: Result<byte, Error>)
      requires Valid()
      modifies this`traffic, this`lastReceivedPacket, this`waitingForPacket
      ensures Valid()
      ensures TrafficCommands(traffic) == TrafficCommands(old(traffic)) + [[OP_PROTOCOL_VERSION]]
      ensures var (payload, t) := Exchange(device, old(traffic), [OP_PROTOCOL_VERSION], OP_PROTOCOL_VERSION, 1);
              traffic == t && r == if payload.Failure? then Failure(payload.error) else Success(payload.value[0])
    {
      var bytes := Request([OP_PROTOCOL_VERSION], OP_PROTOCOL_VERSION, 1);
      if bytes.Failure? {
        return Failure(bytes.error);
      }
      r := Success(bytes.value[0]);
    }

    /** `GetHardwareVersion`: opcode 0x0A; the 20-byte answer holds five `int`s. */
    method GetHardwareVersion() returns (r: Result<HardwareVersion, Error>)
      requires Valid()
      modifies this`traffic, this`lastReceivedPacket, this`waitingForPacket
      ensures Valid()
      ensures TrafficCommands(traffic) == TrafficCommands(old(traffic)) + [[OP_HARDWARE_VERSION]]
      ensures var (payload, t) := Exchange(device, old(traffic), [OP_HARDWARE_VERSION], OP_HARDWARE_VERSION, 20);
              traffic == t && r == if payload.Failure? then Failure(payload.error) else Success(DecodeHardwareVersion(payload.value))
    {
      var bytes := Request([OP_HARDWARE_VERSION], OP_HARDWARE_VERSION, 20);
      if bytes.Failure? {
        return Failure(bytes.error);
      }
      r := Success(DecodeHardwareVersion(bytes.value));
    }

    /** `GetFirmwareVersion(index)`: opcode 0x0B with the image index; the 13-byte
        answer describes the image, or says there is none. The result and the log
        are `FirmwareAnswer` for this device, named through `firmwareQuery`
        (see `Linked`). */
    method GetFirmwareVersion(index: byte) returns (r: Result<Option<FirmwareVersion>, Error>)
      requires Valid()
      modifies this`traffic, this`lastReceivedPacket, this`waitingForPacket
      ensures Valid()
      ensures TrafficCommands(traffic) == TrafficCommands(old(traffic)) + [[OP_FIRMWARE_VERSION, index]]
      ensures r.Failure? ==> r.error.Dfu?
      ensures (r, traffic) == firmwareQuery(old(traffic), index)
    {
      ghost var before := traffic;
      var bytes := Request([OP_FIRMWARE_VERSION, index], OP_FIRMWARE_VERSION, 13);
      if bytes.Failure? {
        r := Failure(bytes.error);
      } else {
        r := DecodeFirmwareVersion(bytes.value);
      }
      assert (r, traffic) == FirmwareAnswer(device, before, index);
    }

    /** `GetAllFirmwareVersions(index, accum)`: the images from `index` on, in index
        order, up to the first index without one, added to `accum`. `fuel` bounds
        the number of queries; the source has no bound. */
    method GetAllFirmwareVersions(index: byte, accum: seq<FirmwareVersion>, fuel: nat) returns (r: Result<seq<FirmwareVersion>, Error>)
      requires Valid()
      modifies this`traffic, this`lastReceivedPacket, this`waitingForPacket
      ensures Valid()
      ensures r.Success? ==> |accum| <= |r.value| < |accum| + fuel && r.value[..|accum|] == accum
      ensures r.Success? ==>
                TrafficCommands(traffic) == TrafficCommands(old(traffic)) + FirmwareQueries(index, |r.value| - |accum| + 1)
      ensures r == Failure(Diverges) ==>
                TrafficCommands(traffic) == TrafficCommands(old(traffic)) + FirmwareQueries(index, fuel)
      ensures (r, traffic) == Prefixed(accum, Collect(firmwareQuery, old(traffic), index, fuel))
      decreases fuel
    {
      if fuel == 0 {
        assert TrafficCommands(traffic) + FirmwareQueries(index, 0) == TrafficCommands(traffic);
        return Failure(Diverges);
      }
      ghost var before := traffic;
      var version := GetFirmwareVersion(index);
      if version.Failure? {
        assert version.error != Diverges;
        return Failure(version.error);
      }
      if version.value.None? {
        assert accum + [] == accum;
        FirmwareQueriesCons(index, 0);
        return Success(accum);
      }
      ghost var middle := traffic;
      r := GetAllFirmwareVersions(NextIndex(index), accum + [version.value.value], fuel - 1);
      PrefixedTwice(accum, [version.value.value], Collect(firmwareQuery, middle, NextIndex(index), fuel - 1));
      if r.Success? {
        QueriesThenRest(TrafficCommands(before), index, |r.value| - |accum|);
        assert r.value[..|accum|] == (accum + [version.value.value])[..|accum|];
      } else if r.error == Diverges {
        QueriesThenRest(TrafficCommands(before), index, fuel - 1);
      }
    }
  }
}
