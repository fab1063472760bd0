/** Inline SGPU frames: a 64-byte header followed by a bounded body that holds the payload and its padding. */
module Frame {
  import opened Wrappers
  import opened Bytes
  import opened VfAbi

  datatype SgpuError =
    | ResourceNotFound(handle: u64)
    | Gpu(reason: string)
    | Vf(vf: VfError)
    | Payload
    | ResourceLimit

  datatype SgpuFrame = SgpuFrame(header: MsgHeader, payload: seq<byte>)

  /** The frame's total size and the range of its payload. */
  datatype Layout = Layout(total: nat, start: nat, end: nat)

  function FrameLayout(h: MsgHeader): Result<Layout, SgpuError> {
    match ValidateShape(h)
    case Fail(e) => Failure(Vf(e))
    case Pass =>
      if h.family != VF_FAMILY_SGPU then Failure(Vf(Eabi("not an SGPU family frame")))
      else if h.messageBytes > VF_MSG_BYTES + VF_PAYLOAD_MAX then Failure(Vf(Erange))
      else
        match PayloadEnd(h)
        case Failure(e) => Failure(Vf(e))
        case Success(payloadEnd) =>
          if VF_MSG_BYTES + h.payloadOffset > U64_MAX || VF_MSG_BYTES + payloadEnd > U64_MAX then Failure(Vf(Erange))
          else if VF_MSG_BYTES + payloadEnd > h.messageBytes then Failure(Payload)
          else Success(Layout(h.messageBytes, VF_MSG_BYTES + h.payloadOffset, VF_MSG_BYTES + payloadEnd))
  }

  function Validate(f: SgpuFrame): Outcome<SgpuError> {
    match FrameLayout(f.header)
    case Failure(e) => Fail(e)
    case Success(layout) => if |f.payload| != layout.end - layout.start then Fail(Payload) else Pass
  }

  function FromWire(b: seq<byte>): Result<SgpuFrame, SgpuError> {
    if |b| < 64 then Failure(Payload)
    else
      match DecodeHeader(b[..64])
      case Failure(e) => Failure(Vf(e))
      case Success(header) =>
        match FrameLayout(header)
        case Failure(e) => Failure(e)
        case Success(layout) =>
          if |b| != layout.total then Failure(Payload)
          else if layout.start > layout.end || layout.end > |b| then Failure(Payload)
          else Success(SgpuFrame(header, b[layout.start..layout.end]))
  }

  // What the checks amount to.

  /** The headers an inline frame may carry. */
  predicate InlineHeader(h: MsgHeader) {
    && h.magic == VF_MSG_MAGIC && h.abiMajor == VF_ABI_MAJOR && h.headerBytes == 64
    && h.family == VF_FAMILY_SGPU
    && h.payloadBytes <= VF_PAYLOAD_MAX
    && 64 + h.payloadOffset + h.payloadBytes <= h.messageBytes <= 64 + VF_PAYLOAD_MAX
  }

  predicate ValidFrame(f: SgpuFrame) {
    InlineHeader(f.header) && |f.payload| == f.header.payloadBytes
  }

  /** The layered checks accept exactly the inline headers; the payload-range check behind them never fires. */
  lemma FrameLayoutExact(h: MsgHeader)
    ensures FrameLayout(h).Success? <==> InlineHeader(h)
    ensures FrameLayout(h).Success? ==>
              FrameLayout(h).value ==
                Layout(h.messageBytes, 64 + h.payloadOffset, 64 + h.payloadOffset + h.payloadBytes)
    ensures FrameLayout(h).Failure? ==> FrameLayout(h).error.Vf?
  {
  }

  /** The same in numbers: which headers are accepted, and otherwise the first thing that is wrong. */
  lemma FrameLayoutInFull(h: MsgHeader)
    ensures FrameLayout(h) ==
            if h.magic != 0x314D_4656 then Failure(Vf(Eabi("bad magic")))
            else if h.abiMajor != 1 then Failure(Vf(Eabi("unsupported abi major")))
            else if h.headerBytes != 64 then Failure(Vf(Eabi("bad header size")))
            else if h.messageBytes < 64 then Failure(Vf(Eabi("message smaller than header")))
            else if h.payloadBytes > 16_777_216 then Failure(Vf(Erange))
            else if h.family == 1 || h.family == 2 then Failure(Vf(Eabi("not an SGPU family frame")))
            else if h.family != 3 then Failure(Vf(Eabi("unknown family")))
            else if || h.messageBytes > 16_777_280
                    || 64 + h.payloadOffset + h.payloadBytes > h.messageBytes then Failure(Vf(Erange))
            else Success(Layout(h.messageBytes, 64 + h.payloadOffset, 64 + h.payloadOffset + h.payloadBytes))
    ensures InlineHeader(h) <==>
              && h.magic == 0x314D_4656 && h.abiMajor == 1 && h.headerBytes == 64 && h.family == 3
              && h.payloadBytes <= 16_777_216 && h.messageBytes <= 16_777_280
              && 64 + h.payloadOffset + h.payloadBytes <= h.messageBytes
  {
  }

  lemma ValidateExact(f: SgpuFrame)
    ensures Validate(f).Pass? <==> ValidFrame(f)
    ensures Validate(f) == Fail(Payload) <==> InlineHeader(f.header) && |f.payload| != f.header.payloadBytes
  {
    FrameLayoutExact(f.header);
  }

  /** The wire form of a valid frame: header, zero padding, payload, zero padding up to the declared size. */
  function WireBytes(f: SgpuFrame): (b: seq<byte>)
    requires ValidFrame(f)
    ensures |b| == f.header.messageBytes
  {
    var h := f.header;
    HeaderBytes(h) + Zeros(h.payloadOffset) + f.payload +
    Zeros(h.messageBytes - 64 - h.payloadOffset - h.payloadBytes)
  }

  // The two copies into a zeroed buffer leave the wire form.
  lemma FilledBuffer(f: SgpuFrame)
    requires ValidFrame(f)
    ensures Patched(
              Patched(Zeros(f.header.messageBytes), 0, HeaderBytes(f.header)), 64 + f.header.payloadOffset, f.payload)
            == WireBytes(f)
  {
    hide HeaderBytes;
    var h := f.header;
    var once := Patched(Zeros(h.messageBytes), 0, HeaderBytes(h));
    assert once == HeaderBytes(h) + Zeros(h.messageBytes - 64);
    assert once[..64 + h.payloadOffset] == HeaderBytes(h) + Zeros(h.payloadOffset);
    assert once[64 + h.payloadOffset + |f.payload|..] == Zeros(h.messageBytes - 64 - h.payloadOffset - h.payloadBytes);
  }

  /** `try_to_wire`: fills one zeroed buffer in place, and only after every check. */
  method TryToWire(f: SgpuFrame) returns (r: Result<seq<byte>, SgpuError>)
    ensures ValidFrame(f) ==> r == Success(WireBytes(f))
    ensures !ValidFrame(f) ==> r.Failure? && Fail(r.error) == Validate(f)
    ensures r.Success? ==>
              var start, end := 64 + f.header.payloadOffset, 64 + f.header.payloadOffset + |f.payload|;
              && |r.value| == f.header.messageBytes && 64 <= start <= end <= |r.value|
              && HeaderAt(r.value[..64]) == f.header && r.value[start..end] == f.payload
              && forall i :: 64 <= i < start || end <= i < |r.value| ==> r.value[i] == 0
  {
    ValidateExact(f);
    if ValidFrame(f) {
      WireRoundTrip(f);
      FromWireExact(WireBytes(f));
      Reencode(WireBytes(f));
    }
    FrameLayoutExact(f.header);
    var checked := Validate(f);
    if checked.Fail? {
      return Failure(checked.error);
    }
    // The layout was computed once by the check above, so it cannot fail here.
    var layout := FrameLayout(f.header).value;
    var out := new byte[layout.total](_ => 0);
    assert out[..] == Zeros(layout.total);
    var header := Encode(f.header);
    CopyInto(out, 0, header[..]);
    CopyInto(out, layout.start, f.payload);
    FilledBuffer(f);
    r := Success(out[..]);
  }

  /** Every valid frame survives the wire unchanged. */
  lemma WireRoundTrip(f: SgpuFrame)
    requires ValidFrame(f)
    ensures FromWire(WireBytes(f)) == Success(f)
  {
    var b := WireBytes(f);
    var h := f.header;
    assert b[..64] == HeaderBytes(h);
    HeaderRoundTrip(h);
    FrameLayoutExact(h);
    assert b[64 + h.payloadOffset..64 + h.payloadOffset + h.payloadBytes] == f.payload;
  }

  /** Exactly the byte strings that are accepted, and what they decode to. */
  lemma FromWireExact(b: seq<byte>)
    ensures FromWire(b).Success? <==>
              |b| >= 64 && InlineHeader(HeaderAt(b[..64])) && |b| == HeaderAt(b[..64]).messageBytes
    ensures FromWire(b).Success? ==>
              var f := FromWire(b).value;
              && ValidFrame(f)
              && f.header == HeaderAt(b[..64])
              && f.payload == b[64 + f.header.payloadOffset..64 + f.header.payloadOffset + f.header.payloadBytes]
  {
    if |b| >= 64 {
      FrameLayoutExact(HeaderAt(b[..64]));
    }
  }

  /** Every error of the two checks: the header's own, or a payload of the wrong size. */
  lemma FrameErrorsInFull(f: SgpuFrame, b: seq<byte>)
    ensures FrameLayout(f.header).Failure? ==> Validate(f) == Fail(FrameLayout(f.header).error)
    ensures FrameLayout(f.header).Success? ==>
              Validate(f) == if |f.payload| != f.header.payloadBytes then Fail(Payload) else Pass
    ensures |b| < 64 ==> FromWire(b) == Failure(Payload)
    ensures |b| >= 64 ==>
              var h := HeaderAt(b[..64]);
              if FrameLayout(h).Failure? then FromWire(b) == Failure(FrameLayout(h).error)
              else |b| != h.messageBytes ==> FromWire(b) == Failure(Payload)
  {
    hide HeaderAt;
  }

  /** Re-encoding accepted bytes reproduces them with the padding, and only the padding, cleared. */
  lemma Reencode(b: seq<byte>)
    requires FromWire(b).Success?
    ensures var f := FromWire(b).value;
            var start := 64 + f.header.payloadOffset;
            var end := start + f.header.payloadBytes;
            && ValidFrame(f)
            && 64 <= start <= end <= |b|
            && WireBytes(f) == b[..64] + Zeros(start - 64) + b[start..end] + Zeros(|b| - end)
            && (WireBytes(f) == b <==> forall i :: 64 <= i < start || end <= i < |b| ==> b[i] == 0)
  {
    FromWireExact(b);
    var f := FromWire(b).value;
    HeaderBytesRoundTrip(b[..64]);
    var start := 64 + f.header.payloadOffset;
    var end := start + f.header.payloadBytes;
    var w := WireBytes(f);
    if forall i :: 64 <= i < start || end <= i < |b| ==> b[i] == 0 {
      forall i | 0 <= i < |b| ensures w[i] == b[i] {
        if i < 64 {
          assert b[..64][i] == b[i];
        }
      }
    }
    forall i | 64 <= i < start || end <= i < |b| ensures w[i] == 0 {
    }
  }

  /** The accepted set is prefix-free: cutting or extending an accepted frame is always a payload error. */
  lemma FramesArePrefixFree(b: seq<byte>, c: seq<byte>)
    requires FromWire(b).Success?
    requires b < c || c < b
    ensures FromWire(c) == Failure(Payload)
  {
    FromWireExact(b);
    if |c| >= 64 {
      assert c[..64] == b[..64];
    }
  }
}
