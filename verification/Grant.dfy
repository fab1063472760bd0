/** Granted messages: a bare 64-byte header whose payload lives in a separately granted buffer. */
module Grant {
  import opened Wrappers
  import opened Bytes
  import opened VfAbi
  import opened Frame

  const VF_POLICY_TABLE_MAX: nat := 4096
  const VF_RIGHT_READ: u32 := 1
  const VF_RIGHT_WRITE: u32 := 2
  const VF_RIGHT_ALL: u32 := 255
  const VF_OBJECT_GRANT: u32 := 1
  const VF_CAP_LIVE: u32 := 1
  const VF_GRANT_LIVE: u32 := 1

  datatype GrantError = Einval | Eabi | Enotsup | Estale | Eperm | Erange | Eambig

  datatype CapEntry = CapEntry(
    slot: u32,
    generation: u32,
    holderCell: u32,
    objectType: u32,
    rights: u32,
    state: u32,
    objectId: u64,
    validFrom: u64,
    expiresAt: u64)

  datatype GrantEntry = GrantEntry(cap: CapEntry, bytes: u64, ownerCell: u32, state: u32)

  /** A window of a grant's contents, starting at byte `offset` of the grant. */
  datatype Snapshot = Snapshot(entry: GrantEntry, offset: u64, data: seq<byte>)

  // ----- Headers -----

  predicate KnownOpcode(h: MsgHeader) {
    if h.family == VF_FAMILY_ROOT then 1 <= h.opcode <= 9
    else if h.family == VF_FAMILY_BLOCK then 1 <= h.opcode <= 3
    else if h.family == VF_FAMILY_SGPU then 1 <= h.opcode <= 7
    else false
  }

  function ValidateGrantHeader(h: MsgHeader): Outcome<GrantError> {
    if || h.magic != VF_MSG_MAGIC
       || h.abiMajor != VF_ABI_MAJOR
       || h.headerBytes != VF_MSG_BYTES
       || h.messageBytes != VF_MSG_BYTES
       || h.reserved0 != 0 then Fail(GrantError.Eabi)
    else if h.flags != 0 then Fail(GrantError.Einval)
    else if !KnownOpcode(h) then Fail(GrantError.Enotsup)
    else if h.payloadBytes == 0 then
      if h.payloadGrant == 0 && h.payloadOffset == 0 then Pass else Fail(GrantError.Einval)
    else if h.payloadGrant == 0 || h.payloadOffset % 8 != 0 then Fail(GrantError.Einval)
    else if h.payloadBytes > VF_PAYLOAD_MAX || h.payloadOffset + h.payloadBytes > U64_MAX then Fail(GrantError.Erange)
    else Pass
  }

  function DecodeGrantHeader(b: seq<byte>): Result<MsgHeader, GrantError> {
    match DecodeHeader(b)
    case Failure(_) => Failure(GrantError.Eabi)
    case Success(h) =>
      match ValidateGrantHeader(h)
      case Fail(e) => Failure(e)
      case Pass => Success(h)
  }

  /** The headers a granted message may carry. */
  predicate GrantHeader(h: MsgHeader) {
    && h.magic == VF_MSG_MAGIC && h.abiMajor == VF_ABI_MAJOR && h.headerBytes == 64 && h.messageBytes == 64
    && h.reserved0 == 0 && h.flags == 0 && KnownOpcode(h)
    && (h.payloadBytes == 0 <==> h.payloadGrant == 0)
    && (h.payloadBytes == 0 ==> h.payloadOffset == 0)
    && h.payloadOffset % 8 == 0
    && h.payloadBytes <= VF_PAYLOAD_MAX
    && h.payloadOffset + h.payloadBytes <= U64_MAX
  }

  lemma GrantHeaderExact(h: MsgHeader)
    ensures ValidateGrantHeader(h).Pass? <==> GrantHeader(h)
  {
  }

  /** The same in numbers, with the error of the first check that fails. */
  lemma GrantHeaderInFull(h: MsgHeader)
    ensures ValidateGrantHeader(h) ==
            if || h.magic != 0x314D_4656 || h.abiMajor != 1 || h.headerBytes != 64 || h.messageBytes != 64
               || h.reserved0 != 0 then Fail(GrantError.Eabi)
            else if h.flags != 0 then Fail(GrantError.Einval)
            else if || !(1 <= h.family <= 3) || h.opcode == 0
                    || h.opcode > (if h.family == 1 then 9 else if h.family == 2 then 3 else 7) then
              Fail(GrantError.Enotsup)
            else if (h.payloadBytes == 0) != (h.payloadGrant == 0) then Fail(GrantError.Einval)
            else if h.payloadOffset % 8 != 0 || (h.payloadBytes == 0 && h.payloadOffset != 0) then
              Fail(GrantError.Einval)
            else if || h.payloadBytes > 16_777_216
                    || h.payloadOffset + h.payloadBytes > 0xFFFF_FFFF_FFFF_FFFF then Fail(GrantError.Erange)
            else Pass
  {
  }

  /** No header is valid in both profiles, except one without payload. */
  lemma ProfilesOverlapOnlyWithoutPayload(h: MsgHeader)
    requires InlineHeader(h)
    ensures h.payloadBytes > 0 ==> ValidateGrantHeader(h) == Fail(GrantError.Eabi)
    ensures ValidateGrantHeader(h).Pass? ==> h.payloadBytes == 0 && h.messageBytes == 64
  {
  }

  // ----- The policy on one entry -----

  /** A handle is a generation above a slot. */
  function Handle(generation: u32, slot: u32): u64 {
    generation * 0x1_0000_0000 + slot
  }

  /** Both halves of the handle are nonzero, as in every handle a capability table can issue. */
  ghost predicate NamesSlot(handle: u64) {
    exists generation: u32, slot: u32 {:trigger Handle(generation, slot)} ::
      generation != 0 && slot != 0 && handle == Handle(generation, slot)
  }

  lemma NamesSlotExact(handle: u64)
    ensures NamesSlot(handle) <==> handle % 0x1_0000_0000 != 0 && handle / 0x1_0000_0000 != 0
  {
    assert handle == Handle(handle / 0x1_0000_0000, handle % 0x1_0000_0000);
  }

  function EntryVerdict(h: MsgHeader, sn: Snapshot, required: u32, now: u64): Outcome<GrantError> {
    var grant, cap := sn.entry, sn.entry.cap;
    if || cap.slot == 0
       || cap.generation == 0
       || Handle(cap.generation, cap.slot) != h.payloadGrant
       || cap.state != VF_CAP_LIVE
       || cap.validFrom >= cap.expiresAt
       || now < cap.validFrom
       || now >= cap.expiresAt then Fail(Estale)
    else if || cap.objectId == 0
            || cap.objectType != VF_OBJECT_GRANT
            || AndNot(cap.rights, VF_RIGHT_ALL) != 0
            || AndNot(required, cap.rights) != 0 then Fail(GrantError.Eperm)
    else if grant.state != VF_GRANT_LIVE || grant.ownerCell == 0 then Fail(Estale)
    else if h.payloadOffset > grant.bytes || h.payloadBytes > grant.bytes - h.payloadOffset then Fail(GrantError.Erange)
    else Pass
  }

  /** The capability is the one the header names, and is live at `now` (a half-open window). */
  predicate Current(h: MsgHeader, cap: CapEntry, now: u64) {
    && cap.slot != 0 && cap.generation != 0
    && cap.slot == h.payloadGrant % 0x1_0000_0000 && cap.generation == h.payloadGrant / 0x1_0000_0000
    && cap.state == VF_CAP_LIVE
    && cap.validFrom <= now < cap.expiresAt
  }

  /** It is a well-formed grant capability that carries every required right. */
  predicate Permits(cap: CapEntry, required: u32) {
    && cap.objectId != 0 && cap.objectType == VF_OBJECT_GRANT
    && cap.rights <= VF_RIGHT_ALL
    && (required % 2 == 1 ==> cap.rights % 2 == 1)
    && (required / 2 % 2 == 1 ==> cap.rights / 2 % 2 == 1)
  }

  predicate GrantLive(grant: GrantEntry) {
    grant.state == VF_GRANT_LIVE && grant.ownerCell != 0
  }

  predicate InGrant(h: MsgHeader, grant: GrantEntry) {
    h.payloadOffset + h.payloadBytes <= grant.bytes
  }

  lemma RightsMask(rights: u32, required: u32)
    ensures AndNot(rights, VF_RIGHT_ALL) == 0 <==> rights <= VF_RIGHT_ALL
    ensures AndNot(required, VF_RIGHT_READ + VF_RIGHT_WRITE) == 0 <==> required <= 3
    ensures required <= 3 ==>
              (AndNot(required, rights) == 0 <==>
                (required % 2 == 1 ==> rights % 2 == 1) && (required / 2 % 2 == 1 ==> rights / 2 % 2 == 1))
  {
    assert Ones(2) == 3 && Ones(8) == 255 by {
      assert Ones(4) == 15;
      assert Ones(6) == 63;
    }
    AndNotOnes(rights, 8);
    AndNotOnes(required, 2);
    if required <= 3 {
      assert AndNot(required / 2, rights / 2) == if required / 2 == 1 && rights / 2 % 2 == 0 then 1 else 0;
    }
  }

  lemma HandleParts(cap: CapEntry, handle: u64)
    ensures Handle(cap.generation, cap.slot) == handle <==>
              cap.slot == handle % 0x1_0000_0000 && cap.generation == handle / 0x1_0000_0000
  {
  }

  /** The verdict is the first broken link of: current, permitted, grant live, range inside the grant. */
  lemma EntryVerdictExact(h: MsgHeader, sn: Snapshot, required: u32, now: u64)
    requires AndNot(required, VF_RIGHT_READ + VF_RIGHT_WRITE) == 0
    ensures EntryVerdict(h, sn, required, now) ==
            if !Current(h, sn.entry.cap, now) then Fail(Estale)
            else if !Permits(sn.entry.cap, required) then Fail(GrantError.Eperm)
            else if !GrantLive(sn.entry) then Fail(Estale)
            else if !InGrant(h, sn.entry) then Fail(GrantError.Erange)
            else Pass
  {
    RightsMask(sn.entry.cap.rights, required);
    HandleParts(sn.entry.cap, h.payloadGrant);
  }

  predicate EntryGrants(h: MsgHeader, sn: Snapshot, required: u32, now: u64) {
    Current(h, sn.entry.cap, now) && Permits(sn.entry.cap, required) && GrantLive(sn.entry) && InGrant(h, sn.entry)
  }

  // ----- The scan -----

  predicate Matches(sn: Snapshot, caller: u32, handle: u64) {
    sn.entry.cap.holderCell == caller && sn.entry.cap.slot == handle % 0x1_0000_0000
  }

  /** The caller's entries in the slot the handle names, in table order. */
  function Matching(table: seq<Snapshot>, caller: u32, handle: u64): seq<Snapshot> {
    if table == [] then []
    else
      var n := |table| - 1;
      Matching(table[..n], caller, handle) + if Matches(table[n], caller, handle) then [table[n]] else []
  }

  predicate ArgumentsOk(table: seq<Snapshot>, caller: u32, required: u32) {
    && |table| <= VF_POLICY_TABLE_MAX && caller != 0
    && required != 0 && AndNot(required, VF_RIGHT_READ + VF_RIGHT_WRITE) == 0
  }

  /** The verdict as a function of the matching entries alone. */
  function PolicyVerdict(h: MsgHeader, table: seq<Snapshot>, caller: u32, required: u32, now: u64)
    : Result<Option<Snapshot>, GrantError>
  {
    if !ArgumentsOk(table, caller, required) then Failure(GrantError.Einval)
    else
      match ValidateGrantHeader(h)
      case Fail(e) => Failure(e)
      case Pass =>
        var matching := Matching(table, caller, h.payloadGrant);
        if h.payloadBytes == 0 then Success(None)
        else if |matching| == 0 then Failure(Estale)
        else if |matching| > 1 then Failure(Eambig)
        else
          match EntryVerdict(h, matching[0], required, now)
          case Fail(e) => Failure(e)
          case Pass => Success(Some(matching[0]))
  }

  /** Scans the table once, stopping at the second match. */
  method ValidatePayloadGrant(h: MsgHeader, table: seq<Snapshot>, caller: u32, required: u32, now: u64)
    returns (r: Result<Option<Snapshot>, GrantError>)
    ensures r == PolicyVerdict(h, table, caller, required, now)
  {
    if || |table| > VF_POLICY_TABLE_MAX || caller == 0
       || required == 0 || AndNot(required, VF_RIGHT_READ + VF_RIGHT_WRITE) != 0 {
      return Failure(GrantError.Einval);
    }
    var shape := ValidateGrantHeader(h);
    if shape.Fail? {
      return Failure(shape.error);
    }
    if h.payloadBytes == 0 {
      return Success(None);
    }
    var found: Option<Snapshot> := None;
    for i := 0 to |table|
      invariant Matching(table[..i], caller, h.payloadGrant) == if found.None? then [] else [found.value]
    {
      assert table[..i + 1][..i] == table[..i];
      if table[i].entry.cap.holderCell == caller && table[i].entry.cap.slot == h.payloadGrant % 0x1_0000_0000 {
        if found.Some? {
          MatchingConcat(table[..i + 1], table[i + 1..], caller, h.payloadGrant);
          assert table[..i + 1] + table[i + 1..] == table;
          return Failure(Eambig);
        }
        found := Some(table[i]);
      }
    }
    assert table[..|table|] == table;
    if found.None? {
      return Failure(Estale);
    }
    var verdict := EntryVerdict(h, found.value, required, now);
    r := match verdict case Fail(e) => Failure(e) case Pass => Success(found);
  }

  // ----- The scan does not depend on the order or on other callers' entries -----

  lemma {:induction false} MatchingConcat(a: seq<Snapshot>, b: seq<Snapshot>, caller: u32, handle: u64)
    ensures Matching(a + b, caller, handle) == Matching(a, caller, handle) + Matching(b, caller, handle)
  {
    if b == [] {
      assert a + b == a;
    } else {
      var n := |b| - 1;
      MatchingConcat(a, b[..n], caller, handle);
      assert (a + b)[..|a + b| - 1] == a + b[..n];
    }
  }

  lemma {:induction false} MatchingCount(table: seq<Snapshot>, caller: u32, handle: u64, sn: Snapshot)
    ensures multiset(Matching(table, caller, handle))[sn] ==
            if Matches(sn, caller, handle) then multiset(table)[sn] else 0
  {
    hide Matches;
    if table != [] {
      var n := |table| - 1;
      MatchingCount(table[..n], caller, handle, sn);
      assert table == table[..n] + [table[n]];
    }
  }

  lemma MatchingMember(table: seq<Snapshot>, caller: u32, handle: u64, sn: Snapshot)
    requires sn in Matching(table, caller, handle)
    ensures sn in table && Matches(sn, caller, handle)
  {
    MatchingCount(table, caller, handle, sn);
    assert sn in multiset(Matching(table, caller, handle));
    assert sn in multiset(table);
  }

  /** Tables whose matching entries agree as multisets get the same status and the same selected entry. */
  lemma VerdictDependsOnMatches(h: MsgHeader, a: seq<Snapshot>, b: seq<Snapshot>, caller: u32, required: u32, now: u64)
    requires |a| <= VF_POLICY_TABLE_MAX && |b| <= VF_POLICY_TABLE_MAX
    requires multiset(Matching(a, caller, h.payloadGrant)) == multiset(Matching(b, caller, h.payloadGrant))
    ensures PolicyVerdict(h, a, caller, required, now) == PolicyVerdict(h, b, caller, required, now)
  {
    var ma, mb := Matching(a, caller, h.payloadGrant), Matching(b, caller, h.payloadGrant);
    assert |ma| == |multiset(ma)| == |multiset(mb)| == |mb|;
    if |ma| == 1 {
      assert ma[0] in multiset(ma);
      assert mb == [mb[0]];
    }
  }

  lemma VerdictIgnoresOrder(h: MsgHeader, a: seq<Snapshot>, b: seq<Snapshot>, caller: u32, required: u32, now: u64)
    requires multiset(a) == multiset(b)
    ensures PolicyVerdict(h, a, caller, required, now) == PolicyVerdict(h, b, caller, required, now)
  {
    assert |a| == |multiset(a)| == |multiset(b)| == |b|;
    forall sn
      ensures multiset(Matching(a, caller, h.payloadGrant))[sn] == multiset(Matching(b, caller, h.payloadGrant))[sn]
    {
      MatchingCount(a, caller, h.payloadGrant, sn);
      MatchingCount(b, caller, h.payloadGrant, sn);
    }
    if |a| <= VF_POLICY_TABLE_MAX {
      VerdictDependsOnMatches(h, a, b, caller, required, now);
    }
  }

  /** Entries of other callers or other slots can come and go anywhere in the table without effect. */
  lemma VerdictIgnoresForeignEntries(
    h: MsgHeader, a: seq<Snapshot>, foreign: seq<Snapshot>, b: seq<Snapshot>, caller: u32, required: u32, now: u64)
    requires |a| + |foreign| + |b| <= VF_POLICY_TABLE_MAX
    requires forall sn <- foreign :: !Matches(sn, caller, h.payloadGrant)
    ensures PolicyVerdict(h, a + foreign + b, caller, required, now) == PolicyVerdict(h, a + b, caller, required, now)
  {
    var handle := h.payloadGrant;
    NoMatches(foreign, caller, handle);
    MatchingConcat(a, foreign, caller, handle);
    MatchingConcat(a + foreign, b, caller, handle);
    MatchingConcat(a, b, caller, handle);
    VerdictDependsOnMatches(h, a + foreign + b, a + b, caller, required, now);
  }

  lemma {:induction false} NoMatches(table: seq<Snapshot>, caller: u32, handle: u64)
    requires forall sn <- table :: !Matches(sn, caller, handle)
    ensures Matching(table, caller, handle) == []
  {
    if table != [] {
      NoMatches(table[..|table| - 1], caller, handle);
    }
  }

  ghost predicate TwoMatches(table: seq<Snapshot>, caller: u32, handle: u64) {
    exists i, j :: 0 <= i < j < |table| && Matches(table[i], caller, handle) && Matches(table[j], caller, handle)
  }

  lemma {:induction false} MatchingLength(table: seq<Snapshot>, caller: u32, handle: u64)
    ensures |Matching(table, caller, handle)| > 0 <==> exists i :: 0 <= i < |table| && Matches(table[i], caller, handle)
    ensures |Matching(table, caller, handle)| > 1 <==> TwoMatches(table, caller, handle)
  {
    hide Matches;
    if table != [] {
      var n := |table| - 1;
      var init := table[..n];
      MatchingLength(init, caller, handle);
      if i :| 0 <= i < n && Matches(table[i], caller, handle) {
        assert Matches(init[i], caller, handle);
      }
      if i, j :| 0 <= i < j < n && Matches(table[i], caller, handle) && Matches(table[j], caller, handle) {
        assert Matches(init[i], caller, handle) && Matches(init[j], caller, handle);
      }
    }
  }

  /** Past the argument and header checks, ambiguity is reported exactly when two entries match, whatever they say. */
  lemma AmbiguousExactly(h: MsgHeader, table: seq<Snapshot>, caller: u32, required: u32, now: u64)
    requires ArgumentsOk(table, caller, required) && GrantHeader(h) && h.payloadBytes != 0
    ensures PolicyVerdict(h, table, caller, required, now) == Failure(Eambig) <==>
              TwoMatches(table, caller, h.payloadGrant)
  {
    GrantHeaderExact(h);
    MatchingLength(table, caller, h.payloadGrant);
  }

  /** An entry is selected exactly when it is the only match and grants what is required. */
  lemma PolicyExact(h: MsgHeader, table: seq<Snapshot>, caller: u32, required: u32, now: u64, sn: Snapshot)
    ensures PolicyVerdict(h, table, caller, required, now) == Success(Some(sn)) <==>
              && ArgumentsOk(table, caller, required)
              && GrantHeader(h) && h.payloadBytes != 0
              && Matching(table, caller, h.payloadGrant) == [sn]
              && EntryGrants(h, sn, required, now)
    ensures PolicyVerdict(h, table, caller, required, now) == Success(None) <==>
              ArgumentsOk(table, caller, required) && GrantHeader(h) && h.payloadBytes == 0
  {
    GrantHeaderExact(h);
    if ArgumentsOk(table, caller, required) {
      EntryVerdictExact(h, sn, required, now);
      var matching := Matching(table, caller, h.payloadGrant);
      if |matching| == 1 {
        assert matching == [matching[0]];
      }
    }
  }

  /**
   The verdict when entry `i` is the caller's only one in the handle's slot: stale, not permitted, stale again when the
   grant itself is not live, out of range, or selected.
   */
  lemma SelectedInFull(h: MsgHeader, table: seq<Snapshot>, caller: u32, required: u32, now: u64, i: nat)
    requires |table| <= 4096 && caller != 0 && 1 <= required <= 3
    requires ValidateGrantHeader(h).Pass? && h.payloadBytes != 0
    requires i < |table|
    requires forall j :: 0 <= j < |table| ==>
               var cap := table[j].entry.cap;
               j == i <==> cap.holderCell == caller && cap.slot == h.payloadGrant % 0x1_0000_0000
    ensures PolicyVerdict(h, table, caller, required, now) ==
            var grant, cap := table[i].entry, table[i].entry.cap;
            if || cap.slot == 0 || cap.generation == 0
               || cap.generation * 0x1_0000_0000 + cap.slot != h.payloadGrant
               || cap.state != 1 || !(cap.validFrom <= now < cap.expiresAt) then Failure(Estale)
            else if || cap.objectId == 0 || cap.objectType != 1 || cap.rights > 255
                    || (required != 2 && cap.rights % 2 == 0) || (required != 1 && cap.rights / 2 % 2 == 0) then
              Failure(GrantError.Eperm)
            else if grant.state != 1 || grant.ownerCell == 0 then Failure(Estale)
            else if h.payloadOffset + h.payloadBytes > grant.bytes then Failure(GrantError.Erange)
            else Success(Some(table[i]))
  {
    RightsMask(table[i].entry.cap.rights, required);
    OnlyMatch(table, caller, h.payloadGrant, i);
    EntryVerdictExact(h, table[i], required, now);
    HandleParts(table[i].entry.cap, h.payloadGrant);
  }

  lemma {:induction false} OnlyMatch(table: seq<Snapshot>, caller: u32, handle: u64, i: nat)
    requires i < |table| && forall j :: 0 <= j < |table| ==> (Matches(table[j], caller, handle) <==> j == i)
    ensures Matching(table, caller, handle) == [table[i]]
  {
    hide Matches;
    var before, behind := table[..i], table[i + 1..];
    NoMatches(before, caller, handle);
    NoMatches(behind, caller, handle);
    MatchingConcat(before, [table[i]], caller, handle);
    MatchingConcat(before + [table[i]], behind, caller, handle);
    assert table == before + [table[i]] + behind;
    assert Matches(table[i], caller, handle);
    assert Matching([table[i]], caller, handle) == [table[i]] by {
      assert [table[i]][..0] == [];
    }
  }

  /** The verdict when no single entry decides: bad arguments, a bad header, no payload, no entry or two of them. */
  lemma UndecidedInFull(h: MsgHeader, table: seq<Snapshot>, caller: u32, required: u32, now: u64)
    ensures |table| > 4096 || caller == 0 || !(1 <= required <= 3) ==>
              PolicyVerdict(h, table, caller, required, now) == Failure(GrantError.Einval)
    ensures |table| <= 4096 && caller != 0 && 1 <= required <= 3 && ValidateGrantHeader(h).Fail? ==>
              PolicyVerdict(h, table, caller, required, now) == Failure(ValidateGrantHeader(h).error)
    ensures |table| <= 4096 && caller != 0 && 1 <= required <= 3 && ValidateGrantHeader(h).Pass? ==>
              var slot := h.payloadGrant % 0x1_0000_0000;
              && (h.payloadBytes == 0 ==> PolicyVerdict(h, table, caller, required, now) == Success(None))
              && (h.payloadBytes != 0
                  && (forall sn <- table :: sn.entry.cap.holderCell == caller ==> sn.entry.cap.slot != slot) ==>
                   PolicyVerdict(h, table, caller, required, now) == Failure(Estale))
              && (h.payloadBytes != 0
                  && (exists i, j :: 0 <= i < j < |table|
                        && table[i].entry.cap.holderCell == caller && table[i].entry.cap.slot == slot
                        && table[j].entry.cap.holderCell == caller && table[j].entry.cap.slot == slot) ==>
                   PolicyVerdict(h, table, caller, required, now) == Failure(Eambig))
  {
    hide ValidateGrantHeader, EntryVerdict;
    RightsMask(0, required);
    MatchingLength(table, caller, h.payloadGrant);
    if forall sn <- table :: !Matches(sn, caller, h.payloadGrant) {
      NoMatches(table, caller, h.payloadGrant);
    }
  }

  // ----- The window -----

  /** The part of the snapshot the header asks for, with checked u64 arithmetic. */
  function PayloadWindow(h: MsgHeader, sn: Snapshot): Result<seq<byte>, GrantError> {
    if |sn.data| > U64_MAX then Failure(GrantError.Erange)
    else if sn.offset + |sn.data| > U64_MAX then Failure(GrantError.Erange)
    else if sn.offset + |sn.data| > sn.entry.bytes then Failure(GrantError.Erange)
    else if h.payloadOffset < sn.offset then Failure(GrantError.Erange)
    else
      var start := h.payloadOffset - sn.offset;
      if start + h.payloadBytes > U64_MAX then Failure(GrantError.Erange)
      else
        var end := start + h.payloadBytes;
        if end > |sn.data| then Failure(GrantError.Erange) else Success(sn.data[start..end])
  }

  predicate Covers(h: MsgHeader, sn: Snapshot) {
    && sn.offset + |sn.data| <= sn.entry.bytes
    && sn.offset <= h.payloadOffset
    && h.payloadOffset + h.payloadBytes <= sn.offset + |sn.data|
  }

  /** The window's bytes are the grant's bytes at the window's position. */
  predicate Shows(sn: Snapshot, contents: seq<byte>) {
    && |contents| == sn.entry.bytes
    && (sn.offset + |sn.data| <= |contents| ==> sn.data == contents[sn.offset..sn.offset + |sn.data|])
  }

  /** It succeeds exactly on covering windows, and then the window's position has no influence on the bytes. */
  lemma WindowExact(h: MsgHeader, sn: Snapshot, contents: seq<byte>)
    requires Shows(sn, contents)
    ensures PayloadWindow(h, sn).Success? <==> Covers(h, sn)
    ensures Covers(h, sn) ==>
              PayloadWindow(h, sn) == Success(contents[h.payloadOffset..h.payloadOffset + h.payloadBytes])
    ensures !Covers(h, sn) ==> PayloadWindow(h, sn) == Failure(GrantError.Erange)
  {
    WindowCovers(h, sn);
    if Covers(h, sn) {
      var start := h.payloadOffset - sn.offset;
      SliceOfSlice(contents, sn.offset, sn.offset + |sn.data|, start, start + h.payloadBytes);
    }
  }

  /** The bytes of the window that lie at the requested range, or Erange: no sum can wrap around. */
  lemma WindowInFull(h: MsgHeader, sn: Snapshot)
    ensures PayloadWindow(h, sn) ==
            if || sn.offset + |sn.data| > sn.entry.bytes
               || h.payloadOffset < sn.offset
               || h.payloadOffset + h.payloadBytes > sn.offset + |sn.data| then Failure(GrantError.Erange)
            else Success(sn.data[h.payloadOffset - sn.offset..h.payloadOffset + h.payloadBytes - sn.offset])
  {
  }

  lemma WindowCovers(h: MsgHeader, sn: Snapshot)
    ensures PayloadWindow(h, sn).Success? <==> Covers(h, sn)
    ensures PayloadWindow(h, sn).Success? ==> |PayloadWindow(h, sn).value| == h.payloadBytes
    ensures PayloadWindow(h, sn).Failure? ==> PayloadWindow(h, sn).error == GrantError.Erange
  {
  }
}
