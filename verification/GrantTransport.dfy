/** Routing of granted submissions, and their conversion to and from inline frames. */
module GrantTransport {
  import opened Wrappers
  import opened Bytes
  import opened VfAbi
  import opened Frame
  import opened Grant

  datatype GrantSubmitError = OfGrant(grant: GrantError) | OfInline(inline: SgpuError)

  /** The header of a granted message for the same request. */
  function Granted(h: MsgHeader, handle: u64, offset: u64): MsgHeader {
    h.(messageBytes := VF_MSG_BYTES, payloadGrant := handle, payloadOffset := offset)
  }

  /** The header of the inline frame that holds an authorized payload: it names no grant. */
  function Stripped(h: MsgHeader): MsgHeader
    requires h.payloadBytes <= VF_PAYLOAD_MAX
  {
    h.(messageBytes := VF_MSG_BYTES + h.payloadBytes, payloadGrant := 0, payloadOffset := 0)
  }

  /** An inline frame restated as a granted message: header bytes plus the payload still to be published. */
  function GrantMessage(frame: SgpuFrame, handle: u64, offset: u64): Result<(seq<byte>, seq<byte>), GrantSubmitError> {
    match Validate(frame)
    case Fail(e) => Failure(OfInline(e))
    case Pass =>
      var header := Granted(frame.header, handle, offset);
      match ValidateGrantHeader(header)
      case Fail(e) => Failure(OfGrant(e))
      case Pass => Success((HeaderBytes(header), frame.payload))
  }

  /** A conversion fails with the frame's own error first, and then with the rewritten header's. */
  lemma GrantMessageErrors(frame: SgpuFrame, handle: u64, offset: u64)
    ensures Validate(frame).Fail? ==> GrantMessage(frame, handle, offset) == Failure(OfInline(Validate(frame).error))
    ensures Validate(frame).Pass? ==>
              var h := frame.header.(messageBytes := 64, payloadGrant := handle, payloadOffset := offset);
              && (ValidateGrantHeader(h).Fail? ==>
                   GrantMessage(frame, handle, offset) == Failure(OfGrant(ValidateGrantHeader(h).error)))
              && (ValidateGrantHeader(h).Pass? ==> GrantMessage(frame, handle, offset).Success?)
  {
    hide ValidateGrantHeader, Validate, HeaderBytes;
  }

  /** The granted message's header says what the frame's did, except that it is bare and names the grant. */
  lemma GrantMessageInFull(frame: SgpuFrame, handle: u64, offset: u64)
    requires GrantMessage(frame, handle, offset).Success?
    ensures var (wire, payload) := GrantMessage(frame, handle, offset).value;
            && payload == frame.payload && |wire| == 64
            && var g, h := HeaderAt(wire), frame.header;
            && g.messageBytes == 64 && g.payloadGrant == handle && g.payloadOffset == offset
            && g.magic == h.magic && g.abiMajor == h.abiMajor && g.headerBytes == h.headerBytes
            && g.family == h.family && g.opcode == h.opcode && g.requestId == h.requestId
            && g.objectHandle == h.objectHandle && g.payloadBytes == h.payloadBytes && g.flags == h.flags
            && g.reserved0 == h.reserved0
  {
    hide HeaderBytes, HeaderAt, ValidateGrantHeader;
    HeaderRoundTrip(Granted(frame.header, handle, offset));
  }

  lemma GrantMessageExact(frame: SgpuFrame, handle: u64, offset: u64)
    ensures GrantMessage(frame, handle, offset).Success? <==>
              ValidFrame(frame) && GrantHeader(Granted(frame.header, handle, offset))
    ensures GrantMessage(frame, handle, offset).Success? ==>
              GrantMessage(frame, handle, offset).value ==
                (HeaderBytes(Granted(frame.header, handle, offset)), frame.payload)
  {
    ValidateExact(frame);
    GrantHeaderExact(Granted(frame.header, handle, offset));
  }

  method InlineToGrant(frame: SgpuFrame, handle: u64, offset: u64)
    returns (r: Result<(seq<byte>, seq<byte>), GrantSubmitError>)
    ensures r == GrantMessage(frame, handle, offset)
    ensures r.Success? ==>
              && r.value.1 == frame.payload && |r.value.0| == 64
              && HeaderAt(r.value.0) ==
                 frame.header.(messageBytes := 64, payloadGrant := handle, payloadOffset := offset)
  {
    hide HeaderAt, HeaderBytes, GrantHeader, ValidateGrantHeader;
    var inline := Validate(frame);
    if inline.Fail? {
      return Failure(OfInline(inline.error));
    }
    var header := frame.header;
    header := header.(messageBytes := VF_MSG_BYTES);
    header := header.(payloadGrant := handle);
    header := header.(payloadOffset := offset);
    var shape := ValidateGrantHeader(header);
    if shape.Fail? {
      return Failure(OfGrant(shape.error));
    }
    var wire := Encode(header);
    HeaderRoundTrip(header);
    r := Success((wire[..], frame.payload));
  }

  /** One caller cell and one endpoint, bound by the trusted root. */
  datatype GrantSession = GrantSession(callerCell: u32, endpointHandle: u64) {
    static function New(callerCell: u32, endpointHandle: u64): (r: Result<GrantSession, GrantError>)
      ensures r.Success? <==> callerCell != 0 && NamesSlot(endpointHandle)
      ensures r.Success? <==>
                callerCell != 0 && endpointHandle % 0x1_0000_0000 != 0 && endpointHandle >= 0x1_0000_0000
      ensures r == if r.Success? then Success(GrantSession(callerCell, endpointHandle)) else Failure(GrantError.Einval)
    {
      NamesSlotExact(endpointHandle);
      if callerCell == 0 || endpointHandle % 0x1_0000_0000 == 0 || endpointHandle / 0x1_0000_0000 == 0 then
        Failure(GrantError.Einval)
      else Success(GrantSession(callerCell, endpointHandle))
    }

    /** The bare submission addressed to this session: it carries no payload and names no grant. */
    function BareSubmission(): MsgHeader {
      NewHeader(VF_FAMILY_SGPU, VF_SGPU_SUBMIT_COMMAND_LIST).(objectHandle := endpointHandle)
    }

    /**
     A new session is a usable route and no one else's: its own caller can submit, and whatever it authorizes no session
     for another caller or endpoint authorizes.
     */
    lemma NewSessionOwnsItsRoute(table: seq<Snapshot>, now: u64)
      requires New(callerCell, endpointHandle) == Success(this) && |table| <= VF_POLICY_TABLE_MAX
      ensures Authorized(HeaderBytes(BareSubmission()), table, callerCell, now) == Success((BareSubmission(), []))
      ensures forall other: GrantSession, wire: seq<byte>, a: seq<Snapshot>, caller: u32, t: u64 ::
                Authorized(wire, table, caller, now).Success? && other.Authorized(wire, a, caller, t).Success? ==>
                  other == this
    {
      hide Authorized, Fetched;
      BareSubmissionIsAuthorized(table, now);
      forall other: GrantSession, wire: seq<byte>, a: seq<Snapshot>, caller: u32, t: u64
        | Authorized(wire, table, caller, now).Success? && other.Authorized(wire, a, caller, t).Success?
        ensures other == this
      {
        AuthorizedPayload(wire, table, caller, now);
        other.AuthorizedPayload(wire, a, caller, t);
      }
    }

    lemma BareSubmissionIsAuthorized(table: seq<Snapshot>, now: u64)
      requires callerCell != 0 && |table| <= VF_POLICY_TABLE_MAX
      ensures Authorized(HeaderBytes(BareSubmission()), table, callerCell, now) == Success((BareSubmission(), []))
    {
      hide HeaderBytes, HeaderAt;
      var h := BareSubmission();
      HeaderRoundTrip(h);
      assert GrantHeader(h);
      RoutedExact(HeaderBytes(h), callerCell);
      FetchedExact(h, table, now);
    }

    /** The header of a submission that is addressed to this session by its own caller. */
    function Routed(wire: seq<byte>, caller: u32): Result<MsgHeader, GrantError> {
      match DecodeGrantHeader(wire)
      case Failure(e) => Failure(e)
      case Success(h) =>
        if h.family != VF_FAMILY_SGPU || h.opcode != VF_SGPU_SUBMIT_COMMAND_LIST then Failure(GrantError.Enotsup)
        else if caller != callerCell || h.objectHandle != endpointHandle then Failure(GrantError.Eperm)
        else Success(h)
    }

    /** The bytes the policy and the window allow the message to deliver. */
    function Fetched(h: MsgHeader, table: seq<Snapshot>, now: u64): Result<seq<byte>, GrantError> {
      match PolicyVerdict(h, table, callerCell, VF_RIGHT_READ, now)
      case Failure(e) => Failure(e)
      case Success(None) => Success([])
      case Success(Some(sn)) => PayloadWindow(h, sn)
    }

    function Authorized(wire: seq<byte>, table: seq<Snapshot>, caller: u32, now: u64)
      : Result<(MsgHeader, seq<byte>), GrantError>
    {
      match Routed(wire, caller)
      case Failure(e) => Failure(e)
      case Success(h) =>
        match Fetched(h, table, now)
        case Failure(e) => Failure(e)
        case Success(payload) => Success((h, payload))
    }

    method Authorize(wire: seq<byte>, table: seq<Snapshot>, caller: u32, now: u64)
      returns (r: Result<(MsgHeader, seq<byte>), GrantError>)
      ensures r == Authorized(wire, table, caller, now)
    {
      var header := DecodeGrantHeader(wire);
      if header.Failure? {
        return Failure(header.error);
      }
      var h := header.value;
      if h.family != VF_FAMILY_SGPU || h.opcode != VF_SGPU_SUBMIT_COMMAND_LIST {
        return Failure(GrantError.Enotsup);
      }
      if caller != callerCell || h.objectHandle != endpointHandle {
        return Failure(GrantError.Eperm);
      }
      var snapshot := ValidatePayloadGrant(h, table, caller, VF_RIGHT_READ, now);
      if snapshot.Failure? {
        return Failure(snapshot.error);
      }
      if snapshot.value.None? {
        return Success((h, []));
      }
      var window := PayloadWindow(h, snapshot.value.value);
      r := match window case Failure(e) => Failure(e) case Success(payload) => Success((h, payload));
    }

    /** Authorizes a granted message and turns it into an inline frame without any authority. */
    method ToInline(wire: seq<byte>, table: seq<Snapshot>, caller: u32, now: u64)
      returns (r: Result<SgpuFrame, GrantSubmitError>)
      ensures r == Normalized(wire, table, caller, now)
      ensures r.Success? ==>
                && |wire| == 64
                && var g, h := r.value.header, HeaderAt(wire);
                && g.payloadGrant == 0 && g.payloadOffset == 0 && g.messageBytes == 64 + h.payloadBytes
                && g.magic == h.magic && g.abiMajor == h.abiMajor && g.headerBytes == h.headerBytes
                && g.family == h.family && g.opcode == h.opcode && g.requestId == h.requestId
                && g.objectHandle == h.objectHandle && g.payloadBytes == h.payloadBytes && g.flags == h.flags
                && g.reserved0 == h.reserved0 && |r.value.payload| == h.payloadBytes
    {
      hide HeaderAt, Authorized;
      var authorized := Authorize(wire, table, caller, now);
      if authorized.Failure? {
        return Failure(OfGrant(authorized.error));
      }
      AuthorizedPayload(wire, table, caller, now);
      var header, payload := authorized.value.0, authorized.value.1;
      if VF_MSG_BYTES + header.payloadBytes > U32_MAX {
        r := Failure(OfGrant(GrantError.Erange));
      } else {
        header := header.(messageBytes := VF_MSG_BYTES + header.payloadBytes);
        header := header.(payloadGrant := 0);
        header := header.(payloadOffset := 0);
        var frame := SgpuFrame(header, payload);
        var checked := Validate(frame);
        ValidateExact(frame);
        r := match checked case Fail(e) => Failure(OfInline(e)) case Pass => Success(frame);
      }
    }

    /** The inline frame of an authorized message: three header fields are rewritten and nothing else. */
    function Normalized(wire: seq<byte>, table: seq<Snapshot>, caller: u32, now: u64)
      : Result<SgpuFrame, GrantSubmitError>
    {
      match Authorized(wire, table, caller, now)
      case Failure(e) => Failure(OfGrant(e))
      case Success((h, payload)) =>
        AuthorizedPayload(wire, table, caller, now);
        Success(SgpuFrame(Stripped(h), payload))
    }

    lemma RoutedExact(wire: seq<byte>, caller: u32)
      ensures Routed(wire, caller).Success? <==> |wire| == 64 && Submission(HeaderAt(wire), caller)
      ensures Routed(wire, caller).Success? ==> Routed(wire, caller).value == HeaderAt(wire)
    {
      if |wire| == 64 {
        GrantHeaderExact(HeaderAt(wire));
      }
    }

    predicate Submission(h: MsgHeader, caller: u32) {
      && GrantHeader(h)
      && h.family == VF_FAMILY_SGPU && h.opcode == VF_SGPU_SUBMIT_COMMAND_LIST
      && h.objectHandle == endpointHandle && caller == callerCell
    }

    /**
     The table holds exactly one entry for the caller and slot, it grants READ now, and its window covers the range.
     */
    ghost predicate Delivers(h: MsgHeader, table: seq<Snapshot>, now: u64, sn: Snapshot) {
      && Matching(table, callerCell, h.payloadGrant) == [sn]
      && EntryGrants(h, sn, VF_RIGHT_READ, now)
      && Covers(h, sn)
    }

    /** The errors in their order: length and header, what is asked for, by whom and of whom, the policy, the window. */
    lemma AuthorizedInOrder(wire: seq<byte>, table: seq<Snapshot>, caller: u32, now: u64)
      ensures |wire| != 64 ==> Authorized(wire, table, caller, now) == Failure(GrantError.Eabi)
      ensures |wire| == 64 ==>
                var h, r := HeaderAt(wire), Authorized(wire, table, caller, now);
                if ValidateGrantHeader(h).Fail? then r == Failure(ValidateGrantHeader(h).error)
                else if h.family != 3 || h.opcode != 5 then r == Failure(GrantError.Enotsup)
                else if caller != callerCell || h.objectHandle != endpointHandle then r == Failure(GrantError.Eperm)
                else
                  var selected := PolicyVerdict(h, table, caller, 1, now);
                  if selected.Failure? then r == Failure(selected.error)
                  else if selected.value.None? then r == Success((h, []))
                  else
                    var window := PayloadWindow(h, selected.value.value);
                    r == if window.Failure? then Failure(window.error) else Success((h, window.value))
    {
      hide HeaderAt, ValidateGrantHeader, PolicyVerdict, PayloadWindow;
    }

    /** The messages that are authorized, in numbers, when entry `i` is the only one for the caller and slot. */
    lemma AuthorizedInFull(wire: seq<byte>, table: seq<Snapshot>, caller: u32, now: u64, i: nat)
      requires |wire| == 64 && i < |table| <= 4096 && caller != 0
      requires forall j :: 0 <= j < |table| ==>
                 var cap := table[j].entry.cap;
                 j == i <==> cap.holderCell == caller && cap.slot == HeaderAt(wire).payloadGrant % 0x1_0000_0000
      ensures var h, sn := HeaderAt(wire), table[i];
              var grant, cap := sn.entry, sn.entry.cap;
              h.payloadBytes != 0 ==>
                (Authorized(wire, table, caller, now).Success? <==>
                  && h.magic == 0x314D_4656 && h.abiMajor == 1 && h.headerBytes == 64 && h.messageBytes == 64
                  && h.family == 3 && h.opcode == 5 && h.flags == 0 && h.reserved0 == 0
                  && caller == callerCell && h.objectHandle == endpointHandle
                  && h.payloadBytes <= 16_777_216 && h.payloadOffset % 8 == 0
                  && cap.slot != 0 && cap.generation != 0
                  && h.payloadGrant == cap.generation * 0x1_0000_0000 + cap.slot
                  && cap.state == 1 && cap.validFrom <= now < cap.expiresAt
                  && cap.objectId != 0 && cap.objectType == 1 && cap.rights <= 255 && cap.rights % 2 == 1
                  && grant.state == 1 && grant.ownerCell != 0
                  && sn.offset <= h.payloadOffset
                  && h.payloadOffset + h.payloadBytes <= sn.offset + |sn.data| <= grant.bytes)
      ensures var h, sn, r := HeaderAt(wire), table[i], Authorized(wire, table, caller, now);
              h.payloadBytes != 0 && r.Success? ==>
                && sn.offset <= h.payloadOffset && h.payloadOffset + h.payloadBytes <= sn.offset + |sn.data|
                && r.value == (h, sn.data[h.payloadOffset - sn.offset..h.payloadOffset + h.payloadBytes - sn.offset])
    {
      hide HeaderAt, ValidateGrantHeader, PolicyVerdict, PayloadWindow, Authorized;
      var h := HeaderAt(wire);
      AuthorizedInOrder(wire, table, caller, now);
      GrantHeaderInFull(h);
      if ValidateGrantHeader(h).Pass? && h.payloadBytes != 0 {
        SelectedInFull(h, table, caller, 1, now, i);
        WindowInFull(h, table[i]);
      }
    }

    lemma FetchedExact(h: MsgHeader, table: seq<Snapshot>, now: u64)
      requires GrantHeader(h)
      ensures Fetched(h, table, now).Success? <==>
                && |table| <= VF_POLICY_TABLE_MAX && callerCell != 0
                && (h.payloadBytes == 0 || exists sn :: Delivers(h, table, now, sn))
      ensures Fetched(h, table, now).Success? ==> |Fetched(h, table, now).value| == h.payloadBytes
      ensures forall sn :: h.payloadBytes != 0 && Fetched(h, table, now).Success? && Delivers(h, table, now, sn) ==>
                Fetched(h, table, now) == PayloadWindow(h, sn)
    {
      RightsMask(0, VF_RIGHT_READ);
      forall sn
        ensures PolicyVerdict(h, table, callerCell, VF_RIGHT_READ, now) == Success(Some(sn)) && Covers(h, sn) <==>
                |table| <= VF_POLICY_TABLE_MAX && callerCell != 0 && h.payloadBytes != 0 && Delivers(h, table, now, sn)
        ensures PayloadWindow(h, sn).Success? <==> Covers(h, sn)
        ensures PayloadWindow(h, sn).Success? ==> |PayloadWindow(h, sn).value| == h.payloadBytes
      {
        PolicyExact(h, table, callerCell, VF_RIGHT_READ, now, sn);
        WindowCovers(h, sn);
      }
      PolicyNone(h, table, now);
    }

    lemma PolicyNone(h: MsgHeader, table: seq<Snapshot>, now: u64)
      requires GrantHeader(h)
      ensures PolicyVerdict(h, table, callerCell, VF_RIGHT_READ, now) == Success(None) <==>
                |table| <= VF_POLICY_TABLE_MAX && callerCell != 0 && h.payloadBytes == 0
    {
      RightsMask(0, VF_RIGHT_READ);
      GrantHeaderExact(h);
    }

    /** An authorized message is a granted submission for this route, and its payload has the declared size. */
    lemma AuthorizedPayload(wire: seq<byte>, table: seq<Snapshot>, caller: u32, now: u64)
      requires Authorized(wire, table, caller, now).Success?
      ensures |wire| == 64 && Submission(HeaderAt(wire), caller)
      ensures Authorized(wire, table, caller, now).value.0 == HeaderAt(wire)
      ensures |Authorized(wire, table, caller, now).value.1| == HeaderAt(wire).payloadBytes
    {
      RoutedExact(wire, caller);
      FetchedExact(HeaderAt(wire), table, now);
    }

    /** Exactly the messages that are authorized. */
    lemma AuthorizedExact(wire: seq<byte>, table: seq<Snapshot>, caller: u32, now: u64)
      ensures Authorized(wire, table, caller, now).Success? <==>
                && |wire| == 64
                && Submission(HeaderAt(wire), caller)
                && |table| <= VF_POLICY_TABLE_MAX && caller != 0
                && (HeaderAt(wire).payloadBytes == 0 || exists sn :: Delivers(HeaderAt(wire), table, now, sn))
    {
      RoutedExact(wire, caller);
      if Routed(wire, caller).Success? {
        FetchedExact(HeaderAt(wire), table, now);
      }
    }

    /** A grant that ends with the payload at `offset`, published to this session's caller under `handle`. */
    function Published(handle: u64, offset: u64, payload: seq<byte>): Snapshot
      requires offset + |payload| <= U64_MAX
    {
      var cap := CapEntry(
        handle % 0x1_0000_0000, handle / 0x1_0000_0000, callerCell, VF_OBJECT_GRANT, VF_RIGHT_READ, VF_CAP_LIVE,
        1, 0, 1);
      Snapshot(GrantEntry(cap, offset + |payload|, callerCell, VF_GRANT_LIVE), offset, payload)
    }

    /**
     A nonempty submission to this session can be authorized under exactly the handles with a slot and a generation:
     publishing its payload is enough for those. The conversion to a granted message accepts the other handles too, but
     no table ever authorizes the result.
     */
    lemma AuthorizableExactly(frame: SgpuFrame, handle: u64, offset: u64, wire: seq<byte>, payload: seq<byte>)
      requires callerCell != 0 && GrantMessage(frame, handle, offset) == Success((wire, payload)) && payload != []
      requires frame.header.opcode == VF_SGPU_SUBMIT_COMMAND_LIST && frame.header.objectHandle == endpointHandle
      ensures offset + |payload| <= U64_MAX
      ensures NamesSlot(handle) ==>
                Authorized(wire, [Published(handle, offset, payload)], callerCell, 0) ==
                Success((Granted(frame.header, handle, offset), payload))
      ensures (exists table, now :: Authorized(wire, table, callerCell, now).Success?) <==> NamesSlot(handle)
    {
      hide Authorized, Published, NamesSlot, HeaderBytes, HeaderAt, GrantMessage;
      var h := Granted(frame.header, handle, offset);
      GrantMessageExact(frame, handle, offset);
      HeaderRoundTrip(h);
      if NamesSlot(handle) {
        PublishedIsAuthorized(h, payload);
        assert Authorized(wire, [Published(handle, offset, payload)], callerCell, 0).Success?;
      }
      assert HeaderAt(wire).payloadGrant == handle && HeaderAt(wire).payloadBytes != 0;
      forall table, now | Authorized(wire, table, callerCell, now).Success? ensures NamesSlot(handle) {
        AuthorizedNamesSlot(wire, table, callerCell, now);
      }
    }

    lemma PublishedIsAuthorized(h: MsgHeader, payload: seq<byte>)
      requires callerCell != 0 && Submission(h, callerCell) && h.payloadBytes == |payload| != 0
      requires NamesSlot(h.payloadGrant)
      ensures Authorized(HeaderBytes(h), [Published(h.payloadGrant, h.payloadOffset, payload)], callerCell, 0) ==
              Success((h, payload))
    {
      hide HeaderBytes, HeaderAt, Authorized;
      var sn := Published(h.payloadGrant, h.payloadOffset, payload);
      NamesSlotExact(h.payloadGrant);
      HeaderRoundTrip(h);
      assert Matching([sn], callerCell, h.payloadGrant) == [sn];
      assert Delivers(h, [sn], 0, sn);
      AuthorizedExact(HeaderBytes(h), [sn], callerCell, 0);
      AuthorizedHeader(h, [sn], callerCell, 0);
      FetchedExact(h, [sn], 0);
      assert payload[0..|payload|] == payload;
    }

    lemma AuthorizedNamesSlot(wire: seq<byte>, table: seq<Snapshot>, caller: u32, now: u64)
      requires Authorized(wire, table, caller, now).Success? && HeaderAt(wire).payloadBytes != 0
      ensures NamesSlot(HeaderAt(wire).payloadGrant)
    {
      hide HeaderAt, Authorized;
      AuthorizedExact(wire, table, caller, now);
      NamesSlotExact(HeaderAt(wire).payloadGrant);
    }

    /** The entries for the caller's slot show their grants' own bytes; nothing is asked of any other entry. */
    ghost predicate ShowsGrant(table: seq<Snapshot>, handle: u64, contents: GrantEntry -> seq<byte>) {
      forall sn <- table :: Matches(sn, callerCell, handle) ==> Shows(sn, contents(sn.entry))
    }

    /** Delivery is exact: the payload is the grant's own bytes at the requested range, whichever window showed them. */
    lemma DeliveryExact(
      wire: seq<byte>, table: seq<Snapshot>, caller: u32, now: u64, contents: GrantEntry -> seq<byte>)
      returns (sn: Snapshot)
      requires Authorized(wire, table, caller, now).Success?
      requires Authorized(wire, table, caller, now).value.0.payloadBytes != 0
      requires ShowsGrant(table, Authorized(wire, table, caller, now).value.0.payloadGrant, contents)
      ensures var (h, payload) := Authorized(wire, table, caller, now).value;
              && sn in table && Delivers(h, table, now, sn)
              && h.payloadOffset + h.payloadBytes <= |contents(sn.entry)|
              && payload == contents(sn.entry)[h.payloadOffset..h.payloadOffset + h.payloadBytes]
    {
      hide Fetched, Routed, HeaderAt, Delivers, Shows, GrantHeader;
      AuthorizedPayload(wire, table, caller, now);
      sn := FetchedBytes(Authorized(wire, table, caller, now).value.0, table, now, contents);
    }

    lemma FetchedBytes(h: MsgHeader, table: seq<Snapshot>, now: u64, contents: GrantEntry -> seq<byte>)
      returns (sn: Snapshot)
      requires GrantHeader(h) && h.payloadBytes != 0 && Fetched(h, table, now).Success?
      requires ShowsGrant(table, h.payloadGrant, contents)
      ensures sn in table && Delivers(h, table, now, sn)
      ensures h.payloadOffset + h.payloadBytes <= |contents(sn.entry)|
      ensures Fetched(h, table, now) == Success(contents(sn.entry)[h.payloadOffset..h.payloadOffset + h.payloadBytes])
    {
      FetchedExact(h, table, now);
      sn :| Delivers(h, table, now, sn);
      MatchingMember(table, callerCell, h.payloadGrant, sn);
      WindowExact(h, sn, contents(sn.entry));
    }

    /** The caller's slot refers to the same grant in both tables. */
    ghost predicate SameGrant(a: seq<Snapshot>, b: seq<Snapshot>, handle: u64) {
      forall s, t :: s in a && t in b && Matches(s, callerCell, handle) && Matches(t, callerCell, handle) ==>
        s.entry == t.entry
    }

    /** Any two covering windows of the same grant deliver the same bytes, wherever they sit in their tables. */
    lemma WindowsAgree(
      wire: seq<byte>, a: seq<Snapshot>, b: seq<Snapshot>, caller: u32, now: u64, contents: GrantEntry -> seq<byte>)
      requires Authorized(wire, a, caller, now).Success? && Authorized(wire, b, caller, now).Success?
      requires ShowsGrant(a, Authorized(wire, a, caller, now).value.0.payloadGrant, contents)
      requires ShowsGrant(b, Authorized(wire, b, caller, now).value.0.payloadGrant, contents)
      requires SameGrant(a, b, Authorized(wire, a, caller, now).value.0.payloadGrant)
      ensures Authorized(wire, a, caller, now) == Authorized(wire, b, caller, now)
    {
      AuthorizedPayload(wire, a, caller, now);
      AuthorizedPayload(wire, b, caller, now);
      var h := Authorized(wire, a, caller, now).value.0;
      if h.payloadBytes != 0 {
        var s := FetchedBytes(h, a, now, contents);
        var t := FetchedBytes(h, b, now, contents);
        MatchingMember(a, callerCell, h.payloadGrant, s);
        MatchingMember(b, callerCell, h.payloadGrant, t);
        assert s.entry == t.entry;
      }
    }

    /** The authorized frame always passes the inline checks, so conversion fails only where authorization does. */
    lemma NormalizedIsValid(wire: seq<byte>, table: seq<Snapshot>, caller: u32, now: u64)
      ensures Normalized(wire, table, caller, now).Success? <==> Authorized(wire, table, caller, now).Success?
      ensures Normalized(wire, table, caller, now).Success? ==> ValidFrame(Normalized(wire, table, caller, now).value)
      ensures Authorized(wire, table, caller, now).Failure? ==>
                Normalized(wire, table, caller, now) == Failure(OfGrant(Authorized(wire, table, caller, now).error))
    {
      if Authorized(wire, table, caller, now).Success? {
        AuthorizedPayload(wire, table, caller, now);
      }
    }

    /**
     Inline to grant to inline is a normal form. `frame` became the message (`wire`, `payload`); `payload` was published
     at `offset` of the grant whose bytes are `contents`, and the message was then authorized.
     */
    lemma NormalForm(
      frame: SgpuFrame, handle: u64, offset: u64, wire: seq<byte>, payload: seq<byte>,
      table: seq<Snapshot>, sn: Snapshot, contents: seq<byte>, caller: u32, now: u64)
      requires GrantMessage(frame, handle, offset) == Success((wire, payload))
      requires Authorized(wire, table, caller, now).Success?
      requires |payload| != 0 ==>
                 && Matching(table, callerCell, handle) == [sn]
                 && Shows(sn, contents)
                 && offset + |payload| <= |contents| && contents[offset..offset + |payload|] == payload
      ensures frame.header.payloadBytes <= VF_PAYLOAD_MAX
      ensures var inline := SgpuFrame(Stripped(frame.header), frame.payload);
              && Normalized(wire, table, caller, now) == Success(inline)
              && GrantMessage(inline, handle, offset) == Success((wire, payload))
              && (frame.payload != [] ==> DecodeGrantHeader(HeaderBytes(inline.header)) == Failure(GrantError.Eabi))
    {
      hide HeaderBytes, GrantMessage, DecodeGrantHeader, Authorized, Shows;
      GrantMessageExact(frame, handle, offset);
      var granted := Granted(frame.header, handle, offset);
      assert wire == HeaderBytes(granted) && payload == frame.payload;
      assert Normalized(wire, table, caller, now) == Success(SgpuFrame(Stripped(frame.header), frame.payload)) by {
        NormalizedHeader(granted, payload, table, sn, contents, caller, now);
      }
      StrippedAgain(frame, handle, offset);
    }

    lemma NormalizedHeader(
      h: MsgHeader, payload: seq<byte>, table: seq<Snapshot>, sn: Snapshot, contents: seq<byte>, caller: u32, now: u64)
      requires Authorized(HeaderBytes(h), table, caller, now).Success? && h.payloadBytes == |payload|
      requires |payload| != 0 ==>
                 && Matching(table, callerCell, h.payloadGrant) == [sn]
                 && Shows(sn, contents)
                 && h.payloadOffset + |payload| <= |contents|
                 && contents[h.payloadOffset..h.payloadOffset + |payload|] == payload
      ensures h.payloadBytes <= VF_PAYLOAD_MAX
      ensures Normalized(HeaderBytes(h), table, caller, now) == Success(SgpuFrame(Stripped(h), payload))
    {
      AuthorizedHeader(h, table, caller, now);
      PublishedIsFetched(h, payload, table, sn, contents, now);
    }

    lemma AuthorizedHeader(h: MsgHeader, table: seq<Snapshot>, caller: u32, now: u64)
      requires Authorized(HeaderBytes(h), table, caller, now).Success?
      ensures GrantHeader(h) && Fetched(h, table, now).Success?
      ensures Authorized(HeaderBytes(h), table, caller, now).value == (h, Fetched(h, table, now).value)
    {
      HeaderRoundTrip(h);
      RoutedExact(HeaderBytes(h), caller);
    }

    lemma StrippedAgain(frame: SgpuFrame, handle: u64, offset: u64)
      requires GrantMessage(frame, handle, offset).Success?
      ensures frame.header.payloadBytes <= VF_PAYLOAD_MAX
      ensures var inline := SgpuFrame(Stripped(frame.header), frame.payload);
              && GrantMessage(inline, handle, offset) == GrantMessage(frame, handle, offset)
              && (frame.payload != [] ==> DecodeGrantHeader(HeaderBytes(inline.header)) == Failure(GrantError.Eabi))
    {
      hide HeaderBytes, GrantMessage, GrantHeader;
      GrantMessageExact(frame, handle, offset);
      var inline := SgpuFrame(Stripped(frame.header), frame.payload);
      GrantMessageExact(inline, handle, offset);
      assert Granted(inline.header, handle, offset) == Granted(frame.header, handle, offset);
      HeaderRoundTrip(inline.header);
      ProfilesOverlapOnlyWithoutPayload(inline.header);
    }

    lemma PublishedIsFetched(
      h: MsgHeader, payload: seq<byte>, table: seq<Snapshot>, sn: Snapshot, contents: seq<byte>, now: u64)
      requires GrantHeader(h) && h.payloadBytes == |payload|
      requires Fetched(h, table, now).Success?
      requires |payload| != 0 ==>
                 && Matching(table, callerCell, h.payloadGrant) == [sn]
                 && Shows(sn, contents)
                 && h.payloadOffset + |payload| <= |contents|
                 && contents[h.payloadOffset..h.payloadOffset + |payload|] == payload
      ensures Fetched(h, table, now) == Success(payload)
    {
      FetchedExact(h, table, now);
      if |payload| != 0 {
        var other :| Delivers(h, table, now, other);
        assert [other][0] == [sn][0];
        WindowExact(h, sn, contents);
      }
    }
  }
}
