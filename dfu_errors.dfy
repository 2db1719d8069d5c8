/** The DFU error taxonomy: the numeric codes, which codes each message catalog
    knows, the category dispatch `code >> 8`, and the exception value a failure
    carries. The human-readable catalog texts are not modelled; only which keys
    each catalog holds. */
module DfuErrors {
  import opened Common

  // Error message types (the category of a code is `code >> 8`).
  const ERROR_MESSAGE: int := 0x00
  const ERROR_MESSAGE_RSP: int := 0x01
  const ERROR_MESSAGE_EXT: int := 0x02

  // Codes raised by the chunked transfer state machine.
  const ERROR_CAN_NOT_INIT_ABSTRACT_TRANSPORT: int := 0x0000
  const ERROR_PRE_DFU_INTERRUPTED: int := 0x0001
  const ERROR_UNEXPECTED_BYTES: int := 0x0002
  const ERROR_CRC_MISMATCH: int := 0x0003
  const ERROR_TOO_MANY_WRITE_FAILURES: int := 0x0004

  // Codes raised by the acknowledged exchange layer.
  const ERROR_CAN_NOT_INIT_PRN_TRANSPORT: int := 0x0010
  const ERROR_CAN_NOT_USE_HIGHER_PRN: int := 0x0011
  const ERROR_READ_CONFLICT: int := 0x0012
  const ERROR_TIMEOUT_READING_SERIAL: int := 0x0013
  const ERROR_RECEIVE_TWO_MESSAGES: int := 0x0014
  const ERROR_RESPONSE_NOT_START_WITH_0x60: int := 0x0015
  const ERROR_ASSERT_EMPTY_RESPONSE: int := 0x0016
  const ERROR_UNEXPECTED_RESPONSE_OPCODE: int := 0x0017
  const ERROR_UNEXPECTED_RESPONSE_BYTES: int := 0x0018

  // Codes of transports that are not part of this model.
  const ERROR_MUST_HAVE_PAYLOAD: int := 0x0031
  const ERROR_INVOKED_MISMATCHED_CRC32: int := 0x0032
  const ERROR_MORE_BYTES_THAN_CHUNK_SIZE: int := 0x0033
  const ERROR_INVALID_PAYLOAD_TYPE: int := 0x0034
  const ERROR_CAN_NOT_DISCOVER_DFU_CONTROL: int := 0x0051
  const ERROR_TIMEOUT_FETCHING_CHARACTERISTICS: int := 0x0052
  const ERROR_CAN_NOT_SUBSCRIBE_CHANGES: int := 0x0053
  const ERROR_UNKNOWN_FIRMWARE_TYPE: int := 0x0071
  const ERROR_UNABLE_FIND_PORT: int := 0x0072
  const ERROR_NO_PORT_SPECIFIED: int := 0x0073

  // Response error codes: 0x0100 + the result byte of a response.
  const ERROR_RSP_INVALID: int := 0x0100
  const ERROR_RSP_SUCCESS: int := 0x0101
  const ERROR_RSP_OP_CODE_NOT_SUPPORTED: int := 0x0102
  const ERROR_RSP_INVALID_PARAMETER: int := 0x0103
  const ERROR_RSP_INSUFFICIENT_RESOURCES: int := 0x0104
  const ERROR_RSP_INVALID_OBJECT: int := 0x0105
  const ERROR_RSP_UNSUPPORTED_TYPE: int := 0x0107
  const ERROR_RSP_OPERATION_NOT_PERMITTED: int := 0x0108
  const ERROR_RSP_OPERATION_FAILED: int := 0x010A
  const ERROR_RSP_EXT_ERROR: int := 0x010B

  // Extended error codes: 0x0200 + the extended error byte.
  const ERROR_EXT_NO_ERROR: int := 0x0200
  const ERROR_EXT_FW_ALREADY_PRESENT: int := 0x020E

  /** The keys of the general catalog (category 0). */
  const GeneralCatalog: set<int> :=
    {0x0000, 0x0001, 0x0002, 0x0003, 0x0004,
     0x0010, 0x0011, 0x0012, 0x0013, 0x0014, 0x0015, 0x0016, 0x0017, 0x0018,
     0x0031, 0x0032, 0x0033, 0x0034, 0x0051, 0x0052, 0x0053, 0x0071, 0x0072, 0x0073}

  /** The keys of the response catalog (category 1); 0x01 is success, 0x06 and 0x09
      are absent from the protocol, 0x0B selects the extended catalog. */
  const ResponseCatalog: set<int> :=
    {0x0100, 0x0102, 0x0103, 0x0104, 0x0105, 0x0107, 0x0108, 0x010A}

  /** The keys of the extended catalog (category 2). */
  const ExtendedCatalog: set<int> :=
    {0x0200, 0x0201, 0x0202, 0x0203, 0x0204, 0x0205, 0x0206, 0x0207,
     0x0208, 0x0209, 0x020A, 0x020B, 0x020C, 0x020D, 0x020E}

  /** Every member of the `ErrorCode` enumeration that is a code (not a category). */
  const DeclaredCodes: set<int> :=
    GeneralCatalog + ResponseCatalog + {ERROR_RSP_SUCCESS, ERROR_RSP_EXT_ERROR} + ExtendedCatalog

  datatype Catalog = General | Response | Extended

  /** A failure as the model propagates it: a DFU exception with its code, an index
      past the end of a received packet (a runtime fault, not a DFU exception), or a
      point where the source would wait or recurse forever. */
  datatype Error = Dfu(code: int) | OutOfRange | Diverges

  /** `(int)code >> 8`; Dafny's division by a positive divisor rounds down, as the
      arithmetic shift does on negative values too. */
  function Category(code: int): int {
    code / 0x100
  }

  /** `ErrorTypes.Messages[category]`: which catalog a category names, if any. */
  function CatalogOf(category: int): (r: Option<Catalog>)
    ensures r.Some? <==> category in {ERROR_MESSAGE, ERROR_MESSAGE_RSP, ERROR_MESSAGE_EXT}
  {
    if category == ERROR_MESSAGE then Some(General)
    else if category == ERROR_MESSAGE_RSP then Some(Response)
    else if category == ERROR_MESSAGE_EXT then Some(Extended)
    else None
  }

  function Keys(c: Catalog): set<int> {
    match c
    case General => GeneralCatalog
    case Response => ResponseCatalog
    case Extended => ExtendedCatalog
  }

  /** A catalog indexer: the entry for a present key, null for a missing one. */
  function Lookup(c: Catalog, code: int): (r: Option<int>)
    ensures r.Some? <==> code in Keys(c)
    ensures r.Some? ==> r.value == code
  {
    if code in Keys(c) then Some(code) else None
  }

  /** The text `GetErrorMessage` builds: the category's text, " = ", then the
      entry of the code in that category's catalog (empty when absent). */
  datatype ErrorMessage = ErrorMessage(category: Catalog, entry: Option<int>)

  /** `GetErrorMessage` fails ("Error type is unknown.") when the category has no
      `ErrorTypes` entry. */
  datatype UnknownErrorType = UnknownErrorType

  function GetErrorMessage(code: int): (r: Result<ErrorMessage, UnknownErrorType>)
    ensures r.Success? <==> 0 <= code < 0x300
    ensures r.Success? && code < 0x100 ==> r.value.category == General
    ensures r.Success? && 0x100 <= code < 0x200 ==> r.value.category == Response
    ensures r.Success? && 0x200 <= code ==> r.value.category == Extended
    ensures r.Success? ==> (r.value.entry.Some? <==> code in Keys(r.value.category))
  {
    var catalog := CatalogOf(Category(code));
    if catalog.None? then Failure(UnknownErrorType)
    else Success(ErrorMessage(catalog.value, Lookup(catalog.value, code)))
  }

  /** `char.IsWhiteSpace`: the characters of the Unicode space, line and paragraph
      separator categories, the controls U+0009 to U+000D, and U+0085. */
  predicate IsWhiteSpace(c: char) {
    || c == ' ' || '\t' <= c <= '\r' || c == '\U{0085}' || c == '\U{00A0}' || c == '\U{1680}'
    || '\U{2000}' <= c <= '\U{200A}' || c == '\U{2028}' || c == '\U{2029}' || c == '\U{202F}'
    || c == '\U{205F}' || c == '\U{3000}'
  }

  /** `String.IsNullOrWhiteSpace`. */
  predicate IsBlank(s: Option<string>) {
    s.None? || forall i :: 0 <= i < |s.value| ==> IsWhiteSpace(s.value[i])
  }

  /** A constructed `DfuException`: its `Code`, the catalog message and the
      detail that is appended (after a space) only when it is not blank. */
  datatype DfuException = DfuException(code: int, message: ErrorMessage, detail: Option<string>)

  /** `new DfuException(code, message)`; the base constructor's call to
      `GetErrorMessage` throws for an unknown category. */
  function NewDfuException(code: int, detail: Option<string>): (r: Result<DfuException, UnknownErrorType>)
    ensures r.Success? <==> 0 <= code < 0x300
    ensures r.Success? ==> r.value.code == code
    ensures r.Success? ==> (r.value.detail.Some? <==> !IsBlank(detail))
    ensures r.Success? ==> r.value.detail.Some? ==> r.value.detail == detail
  {
    var m := GetErrorMessage(code);
    if m.Failure? then Failure(UnknownErrorType)
    else Success(DfuException(code, m.value, if IsBlank(detail) then None else detail))
  }

  /** Every declared code can be raised: its category is known. */
  lemma DeclaredCodesConstruct(code: int, detail: Option<string>)
    requires code in DeclaredCodes
    ensures NewDfuException(code, detail).Success?
    ensures NewDfuException(code, detail).value.message.entry.Some? <==>
            code != ERROR_RSP_SUCCESS && code != ERROR_RSP_EXT_ERROR
  {
    if code in GeneralCatalog {
      GeneralCatalogRange(code);
    } else if code in ResponseCatalog {
      ResponseCatalogRange(code);
    } else if code in ExtendedCatalog {
      ExtendedCatalogKeys(code);
    }
  }

  /** The general catalog's keys lie in category 0. */
  lemma GeneralCatalogRange(code: int)
    requires code in GeneralCatalog
    ensures 0 <= code < 0x100
  {
  }

  /** The response catalog's keys lie in category 1 and are neither the success
      code nor the extended error code. */
  lemma ResponseCatalogRange(code: int)
    requires code in ResponseCatalog
    ensures 0x100 <= code < 0x200 && code != ERROR_RSP_SUCCESS && code != ERROR_RSP_EXT_ERROR
  {
  }

  /** The response catalog's keys within its category: all of 0x0100..0x010A but
      0x0101 (success), 0x0106 and 0x0109; 0x010B (extended error) is not a key. */
  lemma ResponseCatalogKeys(code: int)
    requires Category(code) == ERROR_MESSAGE_RSP
    ensures code in ResponseCatalog <==> code <= 0x010A && code !in {0x0101, 0x0106, 0x0109}
  {
  }

  /** The extended catalog holds exactly the fifteen codes 0x0200..0x020E. */
  lemma ExtendedCatalogKeys(code: int)
    ensures code in ExtendedCatalog <==> ERROR_EXT_NO_ERROR <= code <= ERROR_EXT_FW_ALREADY_PRESENT
  {
  }
}
