/** The 64-byte service-cell message envelope. */
module VfAbi {
  import opened Wrappers
  import opened Bytes

  const VF_MSG_MAGIC: u32 := 0x314D_4656
  const VF_ABI_MAJOR: u16 := 1
  const VF_MSG_BYTES: u32 := 64
  const VF_PAYLOAD_MAX: u32 := 16_777_216

  const VF_FAMILY_ROOT: u16 := 1
  const VF_FAMILY_BLOCK: u16 := 2
  const VF_FAMILY_SGPU: u16 := 3

  const VF_SGPU_QUERY_CAPS: u16 := 1
  const VF_SGPU_CREATE_RESOURCE: u16 := 2
  const VF_SGPU_DESTROY_RESOURCE: u16 := 3
  const VF_SGPU_SUBMIT_COMMAND_LIST: u16 := 5
  const VF_SGPU_PRESENT: u16 := 7

  datatype VfError = Einval | Eabi(reason: string) | Enotsup | Eperm | Erange | Ebusy | Enoent

  datatype MsgHeader = MsgHeader(
    magic: u32,
    abiMajor: u16,
    headerBytes: u16,
    messageBytes: u32,
    family: u16,
    opcode: u16,
    requestId: u64,
    objectHandle: u64,
    payloadGrant: u64,
    payloadOffset: u64,
    payloadBytes: u32,
    flags: u32,
    reserved0: u64)

  const DEFAULT_HEADER :=
    MsgHeader(VF_MSG_MAGIC, VF_ABI_MAJOR, VF_MSG_BYTES, VF_MSG_BYTES, 0, 0, 0, 0, 0, 0, 0, 0, 0)

  function NewHeader(family: u16, opcode: u16): MsgHeader {
    DEFAULT_HEADER.(family := family, opcode := opcode)
  }

  /** The wire form, field after field with no gap. */
  function HeaderBytes(h: MsgHeader): (s: seq<byte>)
    ensures |s| == 64
  {
    HeaderPrefix(h) + HeaderSuffix(h)
  }

  // The first 16 bytes: identification, sizes and routing.
  function HeaderPrefix(h: MsgHeader): (s: seq<byte>)
    ensures |s| == 16
  {
    U32Le(h.magic) + U16Le(h.abiMajor) + U16Le(h.headerBytes) + U32Le(h.messageBytes) + U16Le(h.family) +
    U16Le(h.opcode)
  }

  // The remaining 48 bytes: request, capability and payload description.
  function HeaderSuffix(h: MsgHeader): (s: seq<byte>)
    ensures |s| == 48
  {
    U64Le(h.requestId) + U64Le(h.objectHandle) + U64Le(h.payloadGrant) + U64Le(h.payloadOffset) +
    U32Le(h.payloadBytes) + U32Le(h.flags) + U64Le(h.reserved0)
  }

  /** Reads every field at its fixed offset. */
  function HeaderAt(b: seq<byte>): MsgHeader
    requires |b| == 64
  {
    MsgHeader(
      LeU32(b[0..4]), LeU16(b[4..6]), LeU16(b[6..8]), LeU32(b[8..12]), LeU16(b[12..14]), LeU16(b[14..16]),
      LeU64(b[16..24]), LeU64(b[24..32]), LeU64(b[32..40]), LeU64(b[40..48]),
      LeU32(b[48..52]), LeU32(b[52..56]), LeU64(b[56..64]))
  }

  function DecodeHeader(b: seq<byte>): Result<MsgHeader, VfError> {
    if |b| != 64 then Failure(Erange) else Success(HeaderAt(b))
  }

  lemma HeaderFieldSlices(h: MsgHeader)
    ensures var b := HeaderBytes(h);
            && b[0..4] == U32Le(h.magic) && b[4..6] == U16Le(h.abiMajor) && b[6..8] == U16Le(h.headerBytes)
            && b[8..12] == U32Le(h.messageBytes) && b[12..14] == U16Le(h.family) && b[14..16] == U16Le(h.opcode)
            && b[16..24] == U64Le(h.requestId) && b[24..32] == U64Le(h.objectHandle)
            && b[32..40] == U64Le(h.payloadGrant) && b[40..48] == U64Le(h.payloadOffset)
            && b[48..52] == U32Le(h.payloadBytes) && b[52..56] == U32Le(h.flags) && b[56..64] == U64Le(h.reserved0)
  {
  }

  /** Decoding undoes encoding: no header field is lost or moved. */
  lemma HeaderRoundTrip(h: MsgHeader)
    ensures DecodeHeader(HeaderBytes(h)) == Success(h)
  {
    HeaderFieldSlices(h);
  }

  /** Encoding undoes decoding: every 64-byte string is the wire form of exactly one header. */
  lemma HeaderBytesRoundTrip(b: seq<byte>)
    requires |b| == 64
    ensures HeaderBytes(HeaderAt(b)) == b
  {
    var h := HeaderAt(b);
    assert b[0..16] == b[0..4] + b[4..6] + b[6..8] + b[8..12] + b[12..14] + b[14..16];
    assert b[16..64] == b[16..24] + b[24..32] + b[32..40] + b[40..48] + b[48..52] + b[52..56] + b[56..64];
    assert b == b[0..16] + b[16..64];
  }

  // The fields in the order they are written, associated the way the writes accumulate them.
  lemma HeaderInOrder(h: MsgHeader)
    ensures [] + U32Le(h.magic) + U16Le(h.abiMajor) + U16Le(h.headerBytes) + U32Le(h.messageBytes)
            + U16Le(h.family) + U16Le(h.opcode) + U64Le(h.requestId) + U64Le(h.objectHandle)
            + U64Le(h.payloadGrant) + U64Le(h.payloadOffset) + U32Le(h.payloadBytes) + U32Le(h.flags)
            + U64Le(h.reserved0) == HeaderBytes(h)
  {
  }

  /** Writes the header into a fresh 64-byte array, one field slice at a time. */
  method Encode(h: MsgHeader) returns (out: array<byte>)
    ensures fresh(out)
    ensures out[..] == HeaderBytes(h)
  {
    out := new byte[64](_ => 0);
    ghost var blank, done := out[..], [];
    WriteField(out, 0, U32Le(h.magic), blank, done);
    done := done + U32Le(h.magic);
    WriteField(out, 4, U16Le(h.abiMajor), blank, done);
    done := done + U16Le(h.abiMajor);
    WriteField(out, 6, U16Le(h.headerBytes), blank, done);
    done := done + U16Le(h.headerBytes);
    WriteField(out, 8, U32Le(h.messageBytes), blank, done);
    done := done + U32Le(h.messageBytes);
    WriteField(out, 12, U16Le(h.family), blank, done);
    done := done + U16Le(h.family);
    WriteField(out, 14, U16Le(h.opcode), blank, done);
    done := done + U16Le(h.opcode);
    WriteField(out, 16, U64Le(h.requestId), blank, done);
    done := done + U64Le(h.requestId);
    WriteField(out, 24, U64Le(h.objectHandle), blank, done);
    done := done + U64Le(h.objectHandle);
    WriteField(out, 32, U64Le(h.payloadGrant), blank, done);
    done := done + U64Le(h.payloadGrant);
    WriteField(out, 40, U64Le(h.payloadOffset), blank, done);
    done := done + U64Le(h.payloadOffset);
    WriteField(out, 48, U32Le(h.payloadBytes), blank, done);
    done := done + U32Le(h.payloadBytes);
    WriteField(out, 52, U32Le(h.flags), blank, done);
    done := done + U32Le(h.flags);
    WriteField(out, 56, U64Le(h.reserved0), blank, done);
    done := done + U64Le(h.reserved0);
    HeaderInOrder(h);
  }

  /** Assigns the fields of a default header one by one from the wire. */
  method Decode(b: seq<byte>) returns (r: Result<MsgHeader, VfError>)
    ensures r == DecodeHeader(b)
    ensures |b| != 64 ==> r == Failure(Erange)
    ensures |b| == 64 ==> r.Success? && HeaderBytes(r.value) == b
  {
    if |b| == 64 {
      HeaderBytesRoundTrip(b);
    }
    if |b| != 64 {
      return Failure(Erange);
    }
    var h := DEFAULT_HEADER;
    h := h.(magic := LeU32(b[0..4]));
    h := h.(abiMajor := LeU16(b[4..6]));
    h := h.(headerBytes := LeU16(b[6..8]));
    h := h.(messageBytes := LeU32(b[8..12]));
    h := h.(family := LeU16(b[12..14]));
    h := h.(opcode := LeU16(b[14..16]));
    h := h.(requestId := LeU64(b[16..24]));
    h := h.(objectHandle := LeU64(b[24..32]));
    h := h.(payloadGrant := LeU64(b[32..40]));
    h := h.(payloadOffset := LeU64(b[40..48]));
    h := h.(payloadBytes := LeU32(b[48..52]));
    h := h.(flags := LeU32(b[52..56]));
    h := h.(reserved0 := LeU64(b[56..64]));
    r := Success(h);
  }

  /** Shape of the inline profile. */
  function ValidateShape(h: MsgHeader): Outcome<VfError> {
    if h.magic != VF_MSG_MAGIC then Fail(Eabi("bad magic"))
    else if h.abiMajor != VF_ABI_MAJOR then Fail(Eabi("unsupported abi major"))
    else if h.headerBytes != VF_MSG_BYTES then Fail(Eabi("bad header size"))
    else if h.messageBytes < VF_MSG_BYTES then Fail(Eabi("message smaller than header"))
    else if h.payloadBytes > VF_PAYLOAD_MAX then Fail(Erange)
    else if h.family == VF_FAMILY_ROOT || h.family == VF_FAMILY_BLOCK || h.family == VF_FAMILY_SGPU then Pass
    else Fail(Eabi("unknown family"))
  }

  /** Where the payload ends relative to the header's end, with checked u64 arithmetic. */
  function PayloadEnd(h: MsgHeader): Result<u64, VfError> {
    if h.payloadOffset + h.payloadBytes > U64_MAX then Failure(Erange)
    else if h.messageBytes < VF_MSG_BYTES then Failure(Eabi("bad message size"))
    else if h.payloadOffset + h.payloadBytes > h.messageBytes - VF_MSG_BYTES then Failure(Erange)
    else Success(h.payloadOffset + h.payloadBytes)
  }
}
