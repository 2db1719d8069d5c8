/** The packet layer of the DFU transports that use packet receive notifications
    (PRN): parsing of the device's response packets, the check of a response
    against the expected opcode and length, the byte layouts of the object
    commands and their replies, and the splitting of an object write into pieces
    no longer than the transmission unit.

    A response packet is `0x60, opcode, result` followed by a payload; result
    `0x01` is success, any other result is raised as the DFU exception its code
    names. The stateful half of the layer (the single packet slot filled by
    `OnData` and emptied by `Read`, and the write loop with its checksum
    notifications) lives with the serial transport, the one concrete transport,
    in `DfuTransportSerial`. */
module DfuTransportPrn {
  import opened Common
  import opened DfuErrors

  const RESPONSE_MARKER: byte := 0x60
  const RESULT_SUCCESS: byte := 0x01
  /** The result code that announces an extended error byte after it. */
  const RESULT_EXT_ERROR: byte := 0x0B

  const OP_CREATE: byte := 0x01
  const OP_CRC: byte := 0x03
  const OP_EXECUTE: byte := 0x04
  const OP_SELECT: byte := 0x06
  const OP_ABORT: byte := 0x0C

  /** A parsed response: the opcode it answers and its payload. */
  datatype Packet = Packet(opcode: byte, payload: seq<byte>)

  // ---------------------------------------------------------------------------
  // Parsing responses.

  /** The response packet a device sends for a successful command. */
  function SuccessResponse(opcode: byte, payload: seq<byte>): seq<byte> {
    [RESPONSE_MARKER, opcode, RESULT_SUCCESS] + payload
  }

  /** `Parse`: a packet without the 0x60 marker is rejected; a success result
      yields the opcode and the payload after the three header bytes; any other
      result is raised with the code found first in the response catalog (0x100 +
      result), then, for result 0x0B, in the extended catalog (0x200 + the next
      byte, or code 0 when that is not a key), and otherwise as an unsupported
      opcode. Reading a header byte past the end of a short packet is a runtime
      fault. */
  function Parse(bytes: seq<byte>): (r: Result<Packet, Error>)
    ensures r.Success? <==> |bytes| >= 3 && bytes[0] == RESPONSE_MARKER && bytes[2] == RESULT_SUCCESS
    ensures r.Success? ==> bytes == SuccessResponse(r.value.opcode, r.value.payload)
    ensures |bytes| == 0 || bytes[0] != RESPONSE_MARKER ==>
              r == Failure(Dfu(ERROR_RESPONSE_NOT_START_WITH_0x60))
  {
    if |bytes| == 0 || bytes[0] != RESPONSE_MARKER then
      Failure(Dfu(ERROR_RESPONSE_NOT_START_WITH_0x60))
    else if |bytes| < 3 then
      Failure(OutOfRange)
    else if bytes[2] == RESULT_SUCCESS then
      assert bytes == SuccessResponse(bytes[1], bytes[3..]);
      Success(Packet(bytes[1], bytes[3..]))
    else
      var rsp := ERROR_MESSAGE_RSP * 0x100 + bytes[2] as int;
      if Lookup(Response, rsp).Some? then
        Failure(Dfu(rsp))
      else if bytes[2] == RESULT_EXT_ERROR then
        if |bytes| < 4 then
          Failure(OutOfRange)
        else
          var ext := ERROR_MESSAGE_EXT * 0x100 + bytes[3] as int;
          if Lookup(Extended, ext).Some? then Failure(Dfu(ext)) else Failure(Dfu(ERROR_MESSAGE))
      else
        Failure(Dfu(ERROR_RSP_OP_CODE_NOT_SUPPORTED))
  }

  /** Every code `Parse` raises is one the error catalog declares; a packet of one
      or two bytes that starts with the marker faults on the missing result code. */
  lemma ParseDeclared(bytes: seq<byte>)
    ensures Parse(bytes).Failure? && Parse(bytes).error.Dfu? ==> Parse(bytes).error.code in DeclaredCodes
    ensures 0 < |bytes| < 3 && bytes[0] == RESPONSE_MARKER ==> Parse(bytes) == Failure(OutOfRange)
  {
  }

  /** A successful response parses back to its opcode and payload. */
  lemma ParseSuccessResponse(opcode: byte, payload: seq<byte>)
    ensures Parse(SuccessResponse(opcode, payload)) == Success(Packet(opcode, payload))
  {
    var bytes := SuccessResponse(opcode, payload);
    assert bytes[0] == RESPONSE_MARKER && bytes[1] == opcode && bytes[2] == RESULT_SUCCESS;
    assert bytes[3..] == payload;
  }

  /** The response packet a device sends to report a catalogued error: a response
      code as its result byte, an extended code after result 0x0B. */
  function ErrorResponse(opcode: byte, code: int): seq<byte>
    requires code in ResponseCatalog || code in ExtendedCatalog
  {
    if code in ResponseCatalog then [RESPONSE_MARKER, opcode, (code - 0x100) as byte]
    else [RESPONSE_MARKER, opcode, RESULT_EXT_ERROR, (code - 0x200) as byte]
  }

  /** Every catalogued response or extended error code a device reports is raised
      as exactly that code. */
  lemma ParseErrorResponse(opcode: byte, code: int)
    requires code in ResponseCatalog || code in ExtendedCatalog
    ensures Parse(ErrorResponse(opcode, code)) == Failure(Dfu(code))
  {
    var bytes := ErrorResponse(opcode, code);
    if code in ResponseCatalog {
      assert bytes[2] as int == code - 0x100;
    } else {
      assert bytes[2] == RESULT_EXT_ERROR && bytes[3] as int == code - 0x200;
      assert ERROR_RSP_EXT_ERROR !in ResponseCatalog;
    }
  }

  /** A result byte that is neither success, nor a response code, nor the extended
      marker is raised as an unsupported opcode, whatever follows it. */
  lemma ParseUnknownResult(opcode: byte, result: byte, rest: seq<byte>)
    requires result != RESULT_SUCCESS && result != RESULT_EXT_ERROR
    requires 0x100 + result as int !in ResponseCatalog
    ensures Parse([RESPONSE_MARKER, opcode, result] + rest) == Failure(Dfu(ERROR_RSP_OP_CODE_NOT_SUPPORTED))
  {
    var bytes := [RESPONSE_MARKER, opcode, result] + rest;
    assert bytes[0] == RESPONSE_MARKER && bytes[2] == result;
  }

  /** An extended error byte past the catalog's last entry (0x0E) is raised as code 0. */
  lemma ParseUnknownExtended(opcode: byte, ext: byte, rest: seq<byte>)
    requires ext > 0x0E
    ensures Parse([RESPONSE_MARKER, opcode, RESULT_EXT_ERROR, ext] + rest) == Failure(Dfu(ERROR_MESSAGE))
  {
    var bytes := [RESPONSE_MARKER, opcode, RESULT_EXT_ERROR, ext] + rest;
    assert |bytes| >= 4 && bytes[0] == RESPONSE_MARKER && bytes[2] == RESULT_EXT_ERROR && bytes[3] == ext;
    assert Lookup(Response, ERROR_RSP_EXT_ERROR).None? by {
      assert ERROR_RSP_EXT_ERROR !in ResponseCatalog;
    }
    assert Lookup(Extended, 0x200 + ext as int).None? by {
      ExtendedCatalogKeys(0x200 + ext as int);
    }
  }

  // ---------------------------------------------------------------------------
  // Checking a response.

  /** `AssertPacket(expectedOpcode, expectedLength)` applied to a response (null
      when `Read` delivered nothing): an absent response, or an empty payload
      where bytes are expected, is rejected first, then a different opcode, then a
      different payload length; an accepted response yields its payload. */
  function AssertPacket(expectedOpcode: byte, expectedLength: int, response: Option<Packet>): (r: Result<seq<byte>, Error>)
    ensures r.Success? <==> response.Some? && response.value.opcode == expectedOpcode &&
                            |response.value.payload| == expectedLength
    ensures r.Success? ==> r.value == response.value.payload
    ensures response.None? ==> r == Failure(Dfu(ERROR_ASSERT_EMPTY_RESPONSE))
    ensures response.Some? && |response.value.payload| == 0 && expectedLength > 0 ==>
              r == Failure(Dfu(ERROR_ASSERT_EMPTY_RESPONSE))
    ensures r.Failure? ==> r.error in {Dfu(ERROR_ASSERT_EMPTY_RESPONSE), Dfu(ERROR_UNEXPECTED_RESPONSE_OPCODE),
                                       Dfu(ERROR_UNEXPECTED_RESPONSE_BYTES)}
  {
    if response.None? || (|response.value.payload| <= 0 && expectedLength > 0) then
      Failure(Dfu(ERROR_ASSERT_EMPTY_RESPONSE))
    else if response.value.opcode != expectedOpcode then
      Failure(Dfu(ERROR_UNEXPECTED_RESPONSE_OPCODE))
    else if |response.value.payload| != expectedLength then
      Failure(Dfu(ERROR_UNEXPECTED_RESPONSE_BYTES))
    else
      Success(response.value.payload)
  }

  /** The opcode is checked before the length: a response to another command is
      reported as such even when its length is also wrong. */
  lemma AssertPacketOpcodeFirst(expectedOpcode: byte, expectedLength: int, p: Packet)
    requires p.opcode != expectedOpcode && (|p.payload| > 0 || expectedLength <= 0)
    ensures AssertPacket(expectedOpcode, expectedLength, Some(p)) == Failure(Dfu(ERROR_UNEXPECTED_RESPONSE_OPCODE))
  {
  }

  /** The outcome of a read checked by `AssertPacket`: a failed read propagates. */
  function Expect(expectedOpcode: byte, expectedLength: int, read: Result<Option<Packet>, Error>): (r: Result<seq<byte>, Error>)
    ensures read.Failure? ==> r == Failure(read.error)
    ensures read.Success? ==> r == AssertPacket(expectedOpcode, expectedLength, read.value)
  {
    if read.Failure? then Failure(read.error) else AssertPacket(expectedOpcode, expectedLength, read.value)
  }

  /** A well-formed success response of the expected length passes both the parse
      and the check, and yields exactly the payload the device sent. */
  lemma ExpectSuccessResponse(opcode: byte, payload: seq<byte>)
    ensures Expect(opcode, |payload|, Success(Some(Parse(SuccessResponse(opcode, payload)).value))) == Success(payload)
  {
    ParseSuccessResponse(opcode, payload);
  }

  // ---------------------------------------------------------------------------
  // Command and reply layouts.

  /** `CreateObject`'s command: opcode 0x01, the object type, then the size in
      little-endian order. */
  function CreateCommand(objType: byte, size: uint32): (r: seq<byte>)
    ensures |r| == 6 && r[0] == OP_CREATE && r[1] == objType
    ensures LE32(r, 2) == size
  {
    LE32OfToLE32(size, [OP_CREATE, objType], []);
    assert [OP_CREATE, objType] + ToLE32(size) + [] == [OP_CREATE, objType] + ToLE32(size);
    [OP_CREATE, objType] + ToLE32(size)
  }

  function SelectCommand(objType: byte): seq<byte> {
    [OP_SELECT, objType]
  }

  /** What `SelectObject` returns: the offset and checksum of the object data the
      device holds, and the maximum object size. */
  datatype Selected = Selected(offset: uint32, crc: uint32, chunkSize: uint32)

  /** The select reply's 12 payload bytes: maximum size, offset and checksum, each
      little-endian. */
  function DecodeSelect(bytes: seq<byte>): Selected
    requires |bytes| == 12
  {
    Selected(LE32(bytes, 4), LE32(bytes, 8), LE32(bytes, 0))
  }

  /** The select reply payload a device sends. */
  function SelectPayload(s: Selected): (r: seq<byte>)
    ensures |r| == 12
  {
    ToLE32(s.chunkSize) + ToLE32(s.offset) + ToLE32(s.crc)
  }

  /** Decoding a select reply recovers the three values the device laid out. */
  lemma DecodeSelectPayload(s: Selected)
    ensures DecodeSelect(SelectPayload(s)) == s
  {
    var a, b, c := ToLE32(s.chunkSize), ToLE32(s.offset), ToLE32(s.crc);
    assert SelectPayload(s) == [] + a + (b + c);
    LE32OfToLE32(s.chunkSize, [], b + c);
    assert SelectPayload(s) == a + b + c;
    LE32OfToLE32(s.offset, a, c);
    assert SelectPayload(s) == (a + b) + c + [];
    LE32OfToLE32(s.crc, a + b, []);
  }

  /** `ReadCrc`'s 8 payload bytes: the offset, then the checksum, little-endian. */
  function DecodeCrc(bytes: seq<byte>): (uint32, uint32)
    requires |bytes| == 8
  {
    (LE32(bytes, 0), LE32(bytes, 4))
  }

  function CrcPayload(offset: uint32, crc: uint32): (r: seq<byte>)
    ensures |r| == 8
  {
    ToLE32(offset) + ToLE32(crc)
  }

  /** Decoding a checksum reply recovers the offset and checksum the device laid out. */
  lemma DecodeCrcPayload(offset: uint32, crc: uint32)
    ensures DecodeCrc(CrcPayload(offset, crc)) == (offset, crc)
  {
    LE32OfToLE32(offset, [], ToLE32(crc));
    assert CrcPayload(offset, crc) == [] + ToLE32(offset) + ToLE32(crc);
    LE32OfToLE32(crc, ToLE32(offset), []);
    assert CrcPayload(offset, crc) == ToLE32(offset) + ToLE32(crc) + [];
  }

  // ---------------------------------------------------------------------------
  // Splitting an object write.

  /** The pieces `WriteObjectPiece` sends for a write of `bytes` when the
      transmission unit is `mtu`: `Min(mtu, remaining)` bytes at a time, ending with
      the piece that reaches the end. An empty write is one empty piece. */
  function Pieces(bytes: seq<byte>, mtu: int): (r: seq<seq<byte>>)
    requires mtu > 0
    ensures |r| > 0
    decreases |bytes|
  {
    if |bytes| <= mtu then [bytes] else [bytes[..mtu]] + Pieces(bytes[mtu..], mtu)
  }

  function Concat(pieces: seq<seq<byte>>): seq<byte> {
    if pieces == [] then [] else pieces[0] + Concat(pieces[1..])
  }

  /** The pieces concatenate to the written bytes; each is at most `mtu` long,
      every piece but the last is exactly `mtu` long, and only the piece of an
      empty write is empty. */
  lemma {:induction false} PiecesCover(bytes: seq<byte>, mtu: int)
    requires mtu > 0
    ensures Concat(Pieces(bytes, mtu)) == bytes
    ensures forall k :: 0 <= k < |Pieces(bytes, mtu)| ==> |Pieces(bytes, mtu)[k]| <= mtu
    ensures forall k :: 0 <= k < |Pieces(bytes, mtu)| - 1 ==> |Pieces(bytes, mtu)[k]| == mtu
    ensures forall k :: 0 <= k < |Pieces(bytes, mtu)| ==> (Pieces(bytes, mtu)[k] == [] <==> bytes == [])
    decreases |bytes|
  {
    var ps := Pieces(bytes, mtu);
    if |bytes| <= mtu {
      assert ps == [bytes];
      assert Concat(ps[1..]) == [];
    } else {
      var rest := Pieces(bytes[mtu..], mtu);
      PiecesCover(bytes[mtu..], mtu);
      assert ps == [bytes[..mtu]] + rest;
      assert ps[1..] == rest;
      assert bytes == bytes[..mtu] + bytes[mtu..];
      forall k | 0 < k < |ps|
        ensures ps[k] == rest[k - 1]
      {
      }
    }
  }
}
