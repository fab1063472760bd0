/** What a request frame asks of the session, and the frame that answers it. */
module SessionFrames {
  import opened Wrappers
  import opened Bytes
  import opened VfAbi
  import opened Frame
  import opened SessionModel
  import opened SessionSteps

  /** The shared command-list decoder, which belongs to the GPU crate. */
  type CommandCodec = seq<byte> -> Option<seq<SgpuCommand>>

  /** What a frame asks for, or why it asks for nothing. */
  function Request(frame: SgpuFrame, codec: CommandCodec): Op {
    match Validate(frame)
    case Fail(e) => Malformed(e)
    case Pass =>
      var op, p := frame.header.opcode, frame.payload;
      if op == VF_SGPU_QUERY_CAPS then
        if p != [] then Malformed(Payload) else QueryCaps
      else if op == VF_SGPU_CREATE_RESOURCE then
        if |p| != 8 then Malformed(Payload) else Create(LeU64(p))
      else if op == VF_SGPU_DESTROY_RESOURCE then
        if |p| != 8 then Malformed(Payload) else Destroy(LeU64(p))
      else if op == VF_SGPU_SUBMIT_COMMAND_LIST then
        match codec(p) { case None => Malformed(Payload) case Some(cmds) => Submit(cmds) }
      else if op == VF_SGPU_PRESENT then
        if |p| != 8 then Malformed(Payload) else Submit([Present(LeU64(p))])
      else Malformed(Vf(Eabi("unknown SGPU opcode")))
  }

  /** Only a valid frame with the right opcode and the operand's own eight bytes asks for a resource operation. */
  lemma RequestExact(frame: SgpuFrame, codec: CommandCodec)
    ensures forall n: u64 :: Request(frame, codec) == Create(n) <==>
              ValidFrame(frame) && frame.header.opcode == VF_SGPU_CREATE_RESOURCE && frame.payload == U64Le(n)
    ensures forall n: u64 :: Request(frame, codec) == Destroy(n) <==>
              ValidFrame(frame) && frame.header.opcode == VF_SGPU_DESTROY_RESOURCE && frame.payload == U64Le(n)
    ensures frame.header.opcode == VF_SGPU_PRESENT ==>
              forall n: u64 :: Request(frame, codec) == Submit([Present(n)]) <==>
                ValidFrame(frame) && frame.payload == U64Le(n)
  {
    hide U64Le, LeU64;
    ValidateExact(frame);
    if |frame.payload| == 8 {
      forall n: u64 ensures frame.payload == U64Le(n) <==> LeU64(frame.payload) == n {
        assert LeValue(U64Le(n)) == n && U64Le(LeU64(frame.payload)) == frame.payload;
      }
      assert forall n: u64 :: [Present(LeU64(frame.payload))] == [Present(n)] ==>
        Present(LeU64(frame.payload)) == Present(n);
    }
  }

  function Response(opcode: u16, requestId: u64, payload: seq<byte>): SgpuFrame
    requires |payload| <= VF_PAYLOAD_MAX
  {
    SgpuFrame(
      NewHeader(VF_FAMILY_SGPU, opcode).(
        requestId := requestId, payloadOffset := 0, payloadBytes := |payload|,
        messageBytes := VF_MSG_BYTES + |payload|),
      payload)
  }

  /** What a successful reply carries back to the guest. Only a submission reports how many commands ran. */
  function ReplyPayload(opcode: u16, reply: Reply, caps: seq<byte>): seq<byte> {
    match reply
    case Caps => caps
    case Created(r) => U64Le(r.sgpHandle)
    case Completed(count) => if opcode == VF_SGPU_PRESENT then [] else U32Le(count % (U32_MAX + 1))
    case _ => []
  }

  /** Every response frame is valid and comes back from the wire as it was sent, so `to_wire` cannot panic on it. */
  lemma ResponseSurvivesWire(opcode: u16, requestId: u64, payload: seq<byte>)
    requires |payload| <= VF_PAYLOAD_MAX
    ensures ValidFrame(Response(opcode, requestId, payload))
    ensures FromWire(WireBytes(Response(opcode, requestId, payload))) == Success(Response(opcode, requestId, payload))
  {
    WireRoundTrip(Response(opcode, requestId, payload));
  }

  /**
   `r` answers a request with its error, or with a frame that echoes its opcode and request id and carries the reply.
   */
  ghost predicate Answers(frame: SgpuFrame, reply: Reply, caps: seq<byte>, r: Result<SgpuFrame, SgpuError>) {
    match r
    case Failure(e) => reply == Rejected(e)
    case Success(response) =>
      var payload := ReplyPayload(frame.header.opcode, reply, caps);
      && !reply.Rejected?
      && |payload| <= VF_PAYLOAD_MAX
      && response == Response(frame.header.opcode, frame.header.requestId, payload)
  }

  /** A failure is the event's own rejection, and a success survives the wire. */
  lemma AnswerOnTheWire(frame: SgpuFrame, reply: Reply, caps: seq<byte>, r: Result<SgpuFrame, SgpuError>)
    requires Answers(frame, reply, caps, r)
    ensures r.Failure? ==> reply == Rejected(r.error)
    ensures r.Success? ==> ValidFrame(r.value) && FromWire(WireBytes(r.value)) == r
  {
    hide ReplyPayload, FromWire, WireBytes, ValidFrame;
    if r.Success? {
      ResponseSurvivesWire(frame.header.opcode, frame.header.requestId, r.value.payload);
    }
  }

  // ----- The answers in full: opcode by opcode, with every header field and every payload byte -----

  /** Event `e` is the step from `s` to `t` that `frame` asks for, and `r` is its answer. */
  ghost predicate Dispatched(
    frame: SgpuFrame, codec: CommandCodec, caps: seq<byte>, limit: nat, s: State, e: Event, t: State,
    r: Result<SgpuFrame, SgpuError>)
  {
    && |caps| == 40 && Inv(s)
    && e.op == Request(frame, codec) && Step(limit, s, e, t) && Answers(frame, e.reply, caps, r)
  }

  /** A malformed frame is answered by its own error, an opcode the session does not know by an ABI error. */
  lemma RefusalInFull(
    frame: SgpuFrame, codec: CommandCodec, caps: seq<byte>, limit: nat, s: State, e: Event, t: State,
    r: Result<SgpuFrame, SgpuError>)
    requires Dispatched(frame, codec, caps, limit, s, e, t, r)
    ensures !ValidFrame(frame) ==> r.Failure? && Fail(r.error) == Validate(frame) && t == s
    ensures ValidFrame(frame) && frame.header.opcode !in [1, 2, 3, 5, 7] ==>
              r == Failure(Vf(Eabi("unknown SGPU opcode"))) && t == s
  {
    hide CreateStep, DestroyStep, SubmitStep, Inv, FrameLayout;
    ValidateExact(frame);
  }

  /** Opcode 1 answers the 40 capability bytes, and takes no operand. */
  lemma QueryInFull(
    frame: SgpuFrame, codec: CommandCodec, caps: seq<byte>, limit: nat, s: State, e: Event, t: State,
    r: Result<SgpuFrame, SgpuError>)
    requires Dispatched(frame, codec, caps, limit, s, e, t, r) && frame.header.opcode == 1
    ensures ValidFrame(frame) ==>
              r == if frame.payload != [] then Failure(Payload)
                   else
                     Success(SgpuFrame(
                       MsgHeader(0x314D_4656, 1, 64, 104, 3, 1, frame.header.requestId, 0, 0, 0, 40, 0, 0), caps))
    ensures t == s
  {
    hide CreateStep, DestroyStep, SubmitStep, Inv, FrameLayout;
    ValidateExact(frame);
  }

  /** Opcode 2 answers the eight bytes of the handle it has just put into the table. */
  lemma CreateAnswerInFull(
    frame: SgpuFrame, codec: CommandCodec, caps: seq<byte>, limit: nat, s: State, e: Event, t: State,
    r: Result<SgpuFrame, SgpuError>)
    requires Dispatched(frame, codec, caps, limit, s, e, t, r) && frame.header.opcode == 2 && ValidFrame(frame)
    ensures r.Success? <==>
              && |frame.payload| == 8 && 1 <= LeU64(frame.payload) <= 16_777_216
              && |s.table| < 64 && TotalBytes(s.table) + LeU64(frame.payload) <= 67_108_864
              && s.nextId < 0xFFFF_FFFF_FFFF_FFFF
    ensures r.Success? ==>
              && r.value == SgpuFrame(
                   MsgHeader(0x314D_4656, 1, 64, 72, 3, 2, frame.header.requestId, 0, 0, 0, 8, 0, 0), U64Le(s.nextId))
              && s.nextId !in s.table && s.nextId in t.table && t.table - {s.nextId} == s.table
              && t.table[s.nextId].size == LeU64(frame.payload) && t.nextId == s.nextId + 1
              && t.table[s.nextId].gpuHandle !in s.live
              && t.live == s.live[t.table[s.nextId].gpuHandle := LeU64(frame.payload)] && t.handed == s.handed
    ensures r.Failure? ==>
              && r.error == (if |frame.payload| != 8 || LeU64(frame.payload) == 0 then Payload else ResourceLimit)
              && t == s
  {
    hide CreateStep, DestroyStep, SubmitStep, Inv, FrameLayout, LeU64, U64Le;
    ValidateExact(frame);
    InvInFull(s);
    if |frame.payload| == 8 {
      CreateInFull(limit, s, LeU64(frame.payload), e.reply, t);
      InsertedEntry(s.table, s.nextId, t.table);
    }
  }

  lemma InsertedEntry(before: Table, k: u64, after: Table)
    ensures k !in before && k in after && after == before[k := after[k]] ==> after - {k} == before
  {
  }

  /** Opcode 3 destroys the resource its eight bytes name, and answers nothing. */
  lemma DestroyAnswerInFull(
    frame: SgpuFrame, codec: CommandCodec, caps: seq<byte>, limit: nat, s: State, e: Event, t: State,
    r: Result<SgpuFrame, SgpuError>)
    requires Dispatched(frame, codec, caps, limit, s, e, t, r) && frame.header.opcode == 3 && ValidFrame(frame)
    ensures r ==
            if |frame.payload| != 8 then Failure(Payload)
            else if LeU64(frame.payload) !in s.table then Failure(ResourceNotFound(LeU64(frame.payload)))
            else
              Success(SgpuFrame(
                MsgHeader(0x314D_4656, 1, 64, 64, 3, 3, frame.header.requestId, 0, 0, 0, 0, 0, 0), []))
    ensures r.Failure? ==> t == s
    ensures r.Success? ==>
              var h := LeU64(frame.payload);
              && t.table == s.table - {h} && t.live == s.live - {s.table[h].gpuHandle}
              && t.nextId == s.nextId && t.handed == s.handed
  {
    hide CreateStep, DestroyStep, SubmitStep, Inv, FrameLayout, LeU64;
    ValidateExact(frame);
    if |frame.payload| == 8 {
      DestroyInFull(limit, s, LeU64(frame.payload), e.reply, t);
    }
  }

  /** Opcode 5 hands over the decoded list and answers the number of its commands. */
  lemma SubmitFrameInFull(
    frame: SgpuFrame, codec: CommandCodec, caps: seq<byte>, limit: nat, s: State, e: Event, t: State,
    r: Result<SgpuFrame, SgpuError>)
    requires Dispatched(frame, codec, caps, limit, s, e, t, r) && frame.header.opcode == 5 && ValidFrame(frame)
    ensures codec(frame.payload).None? ==> r == Failure(Payload) && t == s
    ensures codec(frame.payload).Some? ==> Step(limit, s, Event(Submit(codec(frame.payload).value), e.reply), t)
    ensures r.Failure? ==> e.reply == Rejected(r.error)
    ensures r.Success? ==>
              && codec(frame.payload).Some? && |codec(frame.payload).value| <= limit
              && t.handed != s.handed
              && r.value == SgpuFrame(
                   MsgHeader(0x314D_4656, 1, 64, 68, 3, 5, frame.header.requestId, 0, 0, 0, 4, 0, 0),
                   U32Le(|codec(frame.payload).value| % 0x1_0000_0000))
  {
    hide CreateStep, DestroyStep, SubmitStep, Inv, FrameLayout, U32Le, LeU64;
    ValidateExact(frame);
    if codec(frame.payload).Some? {
      SubmitAnswerInFull(limit, s, codec(frame.payload).value, e.reply, t);
    }
  }

  /** Opcode 7 hands over one present command for the buffer its eight bytes name, and answers nothing. */
  lemma PresentAnswerInFull(
    frame: SgpuFrame, codec: CommandCodec, caps: seq<byte>, limit: nat, s: State, e: Event, t: State,
    r: Result<SgpuFrame, SgpuError>)
    requires Dispatched(frame, codec, caps, limit, s, e, t, r) && frame.header.opcode == 7 && ValidFrame(frame)
    ensures |frame.payload| != 8 || limit == 0 ==> r == Failure(Payload) && t == s
    ensures |frame.payload| == 8 && limit > 0 ==>
              var h := LeU64(frame.payload);
              if h !in s.table then r == Failure(ResourceNotFound(h)) && t == s
              else
                && t == s.(handed := s.handed + [[Present(s.table[h].gpuHandle)]])
                && (r.Failure? ==> r.error.Gpu?)
    ensures r.Success? ==>
              r.value == SgpuFrame(
                MsgHeader(0x314D_4656, 1, 64, 64, 3, 7, frame.header.requestId, 0, 0, 0, 0, 0, 0), [])
  {
    hide CreateStep, DestroyStep, SubmitStep, Inv, FrameLayout, LeU64;
    ValidateExact(frame);
    if |frame.payload| == 8 {
      PresentInFull(limit, s, LeU64(frame.payload), e.reply, t);
    }
  }

  /** What every successful answer says and does, whichever opcode it answers. */
  lemma AnswerInFull(
    frame: SgpuFrame, codec: CommandCodec, caps: seq<byte>, limit: nat, s: State, e: Event, t: State,
    r: Result<SgpuFrame, SgpuError>)
    requires Dispatched(frame, codec, caps, limit, s, e, t, r) && r.Success?
    ensures ValidFrame(frame) && frame.header.opcode in [1, 2, 3, 5, 7]
    ensures r.value.header ==
            MsgHeader(
              0x314D_4656, 1, 64, 64 + |r.value.payload|, 3, frame.header.opcode, frame.header.requestId, 0, 0, 0,
              |r.value.payload|, 0, 0)
    ensures frame.header.opcode == 1 ==> r.value.payload == caps && |caps| == 40
    ensures frame.header.opcode == 2 ==>
              && r.value.payload == U64Le(s.nextId) && t.nextId == s.nextId + 1
              && s.nextId in t.table && t.table - {s.nextId} == s.table
              && |frame.payload| == 8 && t.table[s.nextId].size == LeU64(frame.payload)
    ensures frame.header.opcode == 3 ==>
              && r.value.payload == [] && |frame.payload| == 8
              && LeU64(frame.payload) in s.table && t.table == s.table - {LeU64(frame.payload)}
    ensures frame.header.opcode == 5 ==>
              && codec(frame.payload).Some?
              && r.value.payload == U32Le(|codec(frame.payload).value| % 0x1_0000_0000)
              && |t.handed| == |s.handed| + 1 && |t.handed[|s.handed|]| == |codec(frame.payload).value|
    ensures frame.header.opcode == 7 ==>
              && r.value.payload == [] && |frame.payload| == 8 && LeU64(frame.payload) in s.table
              && t.table == s.table && t.handed == s.handed + [[Present(s.table[LeU64(frame.payload)].gpuHandle)]]
  {
    hide Dispatched, LeU64, U64Le, U32Le, ValidFrame;
    RefusalInFull(frame, codec, caps, limit, s, e, t, r);
    var opcode := frame.header.opcode;
    if opcode == 1 {
      QueryInFull(frame, codec, caps, limit, s, e, t, r);
      assert |caps| == 40 by {
        CapsAreForty(frame, codec, caps, limit, s, e, t, r);
      }
    } else if opcode == 2 {
      CreateAnswerInFull(frame, codec, caps, limit, s, e, t, r);
    } else if opcode == 3 {
      DestroyAnswerInFull(frame, codec, caps, limit, s, e, t, r);
    } else if opcode == 5 {
      SubmitFrameInFull(frame, codec, caps, limit, s, e, t, r);
      SubmitInFull(limit, s, codec(frame.payload).value, e.reply, t);
    } else {
      PresentAnswerInFull(frame, codec, caps, limit, s, e, t, r);
    }
  }

  lemma CapsAreForty(
    frame: SgpuFrame, codec: CommandCodec, caps: seq<byte>, limit: nat, s: State, e: Event, t: State,
    r: Result<SgpuFrame, SgpuError>)
    requires Dispatched(frame, codec, caps, limit, s, e, t, r)
    ensures |caps| == 40
  {
  }

  /** The payload of a create answer is a handle: sent back in a destroy frame, it undoes the creation. */
  lemma AnsweredHandleDestroys(
    create: SgpuFrame, destroy: SgpuFrame, codec: CommandCodec, caps: seq<byte>, limit: nat, s: State, e: Event,
    t: State, r: Result<SgpuFrame, SgpuError>, f: Event, u: State, q: Result<SgpuFrame, SgpuError>)
    requires Dispatched(create, codec, caps, limit, s, e, t, r) && create.header.opcode == 2 && r.Success?
    requires Dispatched(destroy, codec, caps, limit, t, f, u, q) && destroy.header.opcode == 3 && ValidFrame(destroy)
    requires destroy.payload == r.value.payload
    ensures q.Success? && u.table == s.table && u.live == s.live && u.handed == s.handed
    ensures u.nextId == s.nextId + 1
  {
    hide Inv, Step, Request, Answers, FrameLayout, LeU64, U64Le;
    RefusalInFull(create, codec, caps, limit, s, e, t, r);
    CreateAnswerInFull(create, codec, caps, limit, s, e, t, r);
    assert LeValue(destroy.payload) == s.nextId && LeU64(destroy.payload) == s.nextId by {
      HandleReadBack(s.nextId);
    }
    DestroyAnswerInFull(destroy, codec, caps, limit, t, f, u, q);
    assert u.live == s.live;
  }

  lemma HandleReadBack(h: u64)
    ensures LeU64(U64Le(h)) == h
  {
  }
}
