/** Evidence pipelines over arrays of JSON objects, and their order-free meaning. */
module Evidence {
  import opened Wrappers
  import opened Bytes
  import opened Json

  // ----- Markers -----

  predicate IsXnuMarker(m: Value) {
    m.At("marker").AsStr() == Some("Darwin Kernel Version") || m.At("marker").AsStr() == Some("Darwin Kernel")
  }

  predicate IsUserspaceMarker(m: Value) {
    || m.At("marker").AsStr() == Some("launchd:")
    || m.At("marker").AsStr() == Some("launchd ")
    || m.At("marker").AsStr() == Some("loginwindow")
    || m.At("marker").AsStr() == Some("WindowServer")
  }

  predicate HasMajor(m: Value, target: u64) {
    m.At("kernel_major").AsU64() == Some(target)
  }

  /** Which markers a pipeline recognises. */
  datatype Kind = AnyXnu | XnuOf(target: u64) | Userspace {
    predicate Recognises(m: Value) {
      match this
      case AnyXnu => IsXnuMarker(m)
      case XnuOf(target) => IsXnuMarker(m) && HasMajor(m, target)
      case Userspace => IsUserspaceMarker(m)
    }
  }

  /** The byte offsets of the recognised markers of an array, in order; anything that is no array has none. */
  function Offsets(markers: Value, kind: Kind): seq<u64> {
    match markers.AsArray()
    case None => []
    case Some(items) => OffsetsIn(items, kind)
  }

  function OffsetsIn(items: seq<Value>, kind: Kind): seq<u64> {
    if items == [] then []
    else
      var offset := items[0].At("byte_offset").AsU64();
      (if kind.Recognises(items[0]) && offset.Some? then [offset.value] else []) + OffsetsIn(items[1..], kind)
  }

  function Smallest(s: seq<u64>): (m: Option<u64>)
    ensures m.None? <==> s == []
    ensures m.Some? ==> m.value in s && forall x <- s :: m.value <= x
  {
    if s == [] then None
    else
      assert forall x <- s :: x == s[0] || x in s[1..];
      match Smallest(s[1..])
      case None => Some(s[0])
      case Some(m) => Some(if s[0] <= m then s[0] else m)
  }

  function Largest(s: seq<u64>): (m: Option<u64>)
    ensures m.None? <==> s == []
    ensures m.Some? ==> m.value in s && forall x <- s :: x <= m.value
  {
    if s == [] then None
    else
      assert forall x <- s :: x == s[0] || x in s[1..];
      match Largest(s[1..])
      case None => Some(s[0])
      case Some(m) => Some(if m <= s[0] then s[0] else m)
  }

  function Above(s: seq<u64>, floor: Option<u64>): (r: seq<u64>)
    ensures forall x :: x in r <==> x in s && floor.Some? && x > floor.value
  {
    if s == [] then []
    else (if floor.Some? && s[0] > floor.value then [s[0]] else []) + Above(s[1..], floor)
  }

  function XnuOffset(markers: Value, kind: Kind): Option<u64> {
    Smallest(Offsets(markers.At("xnu"), kind))
  }

  function UserspaceOffset(markers: Value, xnu: Option<u64>): Option<u64> {
    Smallest(Above(Offsets(markers.At("userspace"), Userspace), xnu))
  }

  /** `offset` is the byte offset of some recognised marker in the array. */
  ghost predicate Seen(markers: Value, kind: Kind, offset: u64) {
    markers.Arr? && exists m :: m in markers.items && kind.Recognises(m) && m.At("byte_offset").AsU64() == Some(offset)
  }

  lemma {:induction false} OffsetsInMember(items: seq<Value>, kind: Kind, offset: u64)
    ensures offset in OffsetsIn(items, kind) <==>
              exists m :: m in items && kind.Recognises(m) && m.At("byte_offset").AsU64() == Some(offset)
  {
    if items != [] {
      OffsetsInMember(items[1..], kind, offset);
      assert items == [items[0]] + items[1..];
    }
  }

  lemma OffsetsMember(markers: Value, kind: Kind, offset: u64)
    ensures offset in Offsets(markers, kind) <==> Seen(markers, kind, offset)
  {
    if markers.Arr? {
      OffsetsInMember(markers.items, kind, offset);
    }
  }

  /** The pipeline finds the smallest recognised offset, and finds one exactly when there is one. */
  lemma XnuOffsetExact(markers: Value, kind: Kind)
    ensures XnuOffset(markers, kind).Some? <==> exists o :: Seen(markers.At("xnu"), kind, o)
    ensures XnuOffset(markers, kind).Some? ==>
              var m := XnuOffset(markers, kind).value;
              Seen(markers.At("xnu"), kind, m) && forall o :: Seen(markers.At("xnu"), kind, o) ==> m <= o
  {
    forall o ensures o in Offsets(markers.At("xnu"), kind) <==> Seen(markers.At("xnu"), kind, o) {
      OffsetsMember(markers.At("xnu"), kind, o);
    }
  }

  /**
   Userspace is found exactly when some recognised kernel offset lies strictly below some recognised userspace offset.
   */
  lemma UserspaceExact(markers: Value, kind: Kind)
    ensures var found := UserspaceOffset(markers, XnuOffset(markers, kind));
            && (found.Some? <==>
                 exists x, u ::
                   Seen(markers.At("xnu"), kind, x) && Seen(markers.At("userspace"), Userspace, u) && x < u)
            && (found.Some? ==>
                 && Seen(markers.At("userspace"), Userspace, found.value)
                 && XnuOffset(markers, kind).Some? && XnuOffset(markers, kind).value < found.value)
  {
    XnuOffsetExact(markers, kind);
    forall u ensures u in Offsets(markers.At("userspace"), Userspace) <==> Seen(markers.At("userspace"), Userspace, u) {
      OffsetsMember(markers.At("userspace"), Userspace, u);
    }
  }

  /**
   The pipelines look only at which recognised offsets occur: order, repetition and every other entry are irrelevant.
   */
  lemma MarkersDependOnOffsetSets(a: Value, b: Value, kind: Kind)
    requires forall o :: Seen(a.At("xnu"), kind, o) <==> Seen(b.At("xnu"), kind, o)
    requires forall o :: Seen(a.At("userspace"), Userspace, o) <==> Seen(b.At("userspace"), Userspace, o)
    ensures XnuOffset(a, kind) == XnuOffset(b, kind)
    ensures UserspaceOffset(a, XnuOffset(a, kind)) == UserspaceOffset(b, XnuOffset(b, kind))
  {
    forall o
      ensures o in Offsets(a.At("xnu"), kind) <==> o in Offsets(b.At("xnu"), kind)
      ensures o in Offsets(a.At("userspace"), Userspace) <==> o in Offsets(b.At("userspace"), Userspace)
    {
      OffsetsMember(a.At("xnu"), kind, o);
      OffsetsMember(b.At("xnu"), kind, o);
      OffsetsMember(a.At("userspace"), Userspace, o);
      OffsetsMember(b.At("userspace"), Userspace, o);
    }
    SmallestOfSameElements(Offsets(a.At("xnu"), kind), Offsets(b.At("xnu"), kind));
    var floor := XnuOffset(a, kind);
    SmallestOfSameElements(
      Above(Offsets(a.At("userspace"), Userspace), floor), Above(Offsets(b.At("userspace"), Userspace), floor));
  }

  lemma SmallestOfSameElements(s: seq<u64>, t: seq<u64>)
    requires forall x :: x in s <==> x in t
    ensures Smallest(s) == Smallest(t)
  {
    if s != [] {
      assert s[0] in t;
    }
    if t != [] {
      assert t[0] in s;
    }
  }

  // ----- The marker words -----

  /** What a pipeline looks for, word for word. */
  lemma SeenInFull(markers: Value, kind: Kind, offset: u64)
    ensures Seen(markers, kind, offset) <==>
              && markers.Arr?
              && exists m :: m in markers.items && m.At("byte_offset") == Num(PosInt(offset))
                   && match kind
                      case AnyXnu =>
                        m.At("marker") == Str("Darwin Kernel Version") || m.At("marker") == Str("Darwin Kernel")
                      case XnuOf(target) =>
                        && (m.At("marker") == Str("Darwin Kernel Version") || m.At("marker") == Str("Darwin Kernel"))
                        && m.At("kernel_major") == Num(PosInt(target))
                      case Userspace =>
                        || m.At("marker") == Str("launchd:") || m.At("marker") == Str("launchd ")
                        || m.At("marker") == Str("loginwindow") || m.At("marker") == Str("WindowServer")
  {
    hide Value.At;
  }

  // ----- Restore roles -----

  const ROLES := ["RestoreTrustCache", "RestoreRamDisk", "RestoreDeviceTree", "RestoreKernelCache", "RestoreLogo"]

  predicate Completes(step: Value, role: string) {
    step.At("role").AsStr() == Some(role) && step.At("upload").At("transfer_complete").IsTrue()
  }

  predicate Uploaded(steps: Value, role: string) {
    steps.Arr? && exists step :: step in steps.items && Completes(step, role)
  }

  /** Which listed roles have a completed upload, in the list's order. */
  function UploadedRoles(steps: Value): (flags: seq<bool>)
    ensures |flags| == 5
  {
    seq(5, i requires 0 <= i < 5 => Uploaded(steps, ROLES[i]))
  }

  function CountTrue(flags: seq<bool>): nat {
    if flags == [] then 0 else (if flags[0] then 1 else 0) + CountTrue(flags[1..])
  }

  ghost function CompletedRoles(steps: Value): set<string> {
    set role | role in ROLES && Uploaded(steps, role)
  }

  /** A role is completed by a step of that name whose upload is complete; five names count. */
  lemma CompletedRolesInFull(steps: Value, role: string)
    ensures role in CompletedRoles(steps) <==>
              && role in
                 ["RestoreTrustCache", "RestoreRamDisk", "RestoreDeviceTree", "RestoreKernelCache", "RestoreLogo"]
              && steps.Arr?
              && exists step :: step in steps.items
                   && step.At("role") == Str(role) && step.At("upload").At("transfer_complete") == Bool(true)
  {
    hide Value.At;
    if steps.Arr? {
      forall step
        ensures Completes(step, role) <==>
                  step.At("role") == Str(role) && step.At("upload").At("transfer_complete") == Bool(true)
      {
      }
    }
  }

  /** The reported count is the number of distinct listed roles with a completed upload. */
  lemma RoleCountExact(steps: Value)
    ensures CountTrue(UploadedRoles(steps)) == |CompletedRoles(steps)|
  {
    var flags := UploadedRoles(steps);
    RolesDistinct();
    Counted(ROLES, flags);
    forall role ensures role in CompletedRoles(steps) <==> role in Flagged(ROLES, flags) {
      FlaggedMember(ROLES, flags, role);
    }
    assert CompletedRoles(steps) == Flagged(ROLES, flags);
  }

  lemma RolesDistinct()
    ensures forall i, j :: 0 <= i < j < 5 ==> ROLES[i] != ROLES[j]
  {
    assert |ROLES[0]| == 17 && |ROLES[1]| == 14 && |ROLES[2]| == 17 && |ROLES[3]| == 18 && |ROLES[4]| == 11;
    assert ROLES[0][7] == 'T' && ROLES[2][7] == 'D';
  }

  /** The keys whose flag is set. */
  function Flagged(keys: seq<string>, flags: seq<bool>): (r: set<string>)
    requires |keys| == |flags|
    ensures forall k <- r :: k in keys
  {
    if keys == [] then {} else Flagged(keys[1..], flags[1..]) + if flags[0] then {keys[0]} else {}
  }

  lemma {:induction false} FlaggedMember(keys: seq<string>, flags: seq<bool>, k: string)
    requires |keys| == |flags|
    ensures k in Flagged(keys, flags) <==> exists i :: 0 <= i < |keys| && keys[i] == k && flags[i]
  {
    if keys != [] {
      FlaggedMember(keys[1..], flags[1..], k);
      if i :| 0 < i < |keys| && keys[i] == k && flags[i] {
        assert keys[1..][i - 1] == k && flags[1..][i - 1];
      }
    }
  }

  lemma {:induction false} Counted(keys: seq<string>, flags: seq<bool>)
    requires |keys| == |flags|
    requires forall i, j :: 0 <= i < j < |keys| ==> keys[i] != keys[j]
    ensures CountTrue(flags) == |Flagged(keys, flags)|
  {
    if keys != [] {
      Counted(keys[1..], flags[1..]);
      assert keys[0] !in Flagged(keys[1..], flags[1..]);
    }
  }

  /** Reordering or repeating steps changes nothing. */
  lemma RolesDependOnStepSet(a: seq<Value>, b: seq<Value>)
    requires forall step :: step in a <==> step in b
    ensures UploadedRoles(Arr(a)) == UploadedRoles(Arr(b))
  {
    forall role ensures Uploaded(Arr(a), role) == Uploaded(Arr(b), role) {
    }
  }

  // ----- Process identity -----

  /** A pid that fits the 32 bits of a process id and is not zero. */
  function ValidPid(v: Value): Option<u64> {
    var pid := v.AsU64();
    if pid.Some? && 0 < pid.value <= U32_MAX then pid else None
  }

  predicate HasPid(process: Value, pid: Option<u64>) {
    process.At("pid").AsU64() == pid
  }

  function WithPid(processes: seq<Value>, pid: Option<u64>): seq<Value> {
    if processes == [] then []
    else (if HasPid(processes[0], pid) then [processes[0]] else []) + WithPid(processes[1..], pid)
  }

  predicate RunsIn(process: Value, session: Option<u64>) {
    process.At("session").AsU64() == session
    && process.At("starttime").AsU64().Some? && process.At("starttime").AsU64().value > 0
  }

  /** The first match is in the session and there is no second match. */
  predicate OnlyProcess(processes: seq<Value>, pid: Option<u64>, session: Option<u64>) {
    var matches := WithPid(processes, pid);
    |matches| > 0 && RunsIn(matches[0], session) && |matches| == 1
  }

  /** Entry `i`, and no other entry, has the pid. */
  ghost predicate SoleOwner(processes: seq<Value>, i: nat, pid: Option<u64>) {
    && i < |processes|
    && HasPid(processes[i], pid)
    && forall j :: 0 <= j < |processes| && HasPid(processes[j], pid) ==> j == i
  }

  /** Exactly one observed entry has the pid, and it runs in the session with a positive start time. */
  lemma OnlyProcessExact(processes: seq<Value>, pid: Option<u64>, session: Option<u64>)
    ensures OnlyProcess(processes, pid, session) <==>
              exists i: nat :: SoleOwner(processes, i, pid) && RunsIn(processes[i], session)
  {
    if |WithPid(processes, pid)| == 1 {
      var i := FindOwner(processes, pid);
    }
    forall i: nat | SoleOwner(processes, i, pid) ensures WithPid(processes, pid) == [processes[i]] {
      OwnerIsFiltered(processes, i, pid);
    }
  }

  lemma {:induction false} NoOwner(processes: seq<Value>, pid: Option<u64>)
    ensures WithPid(processes, pid) == [] <==> forall j :: 0 <= j < |processes| ==> !HasPid(processes[j], pid)
  {
    if processes != [] {
      NoOwner(processes[1..], pid);
      assert forall j :: 0 < j < |processes| ==> processes[j] == processes[1..][j - 1];
    }
  }

  lemma {:induction false} FindOwner(processes: seq<Value>, pid: Option<u64>) returns (i: nat)
    requires |WithPid(processes, pid)| == 1
    ensures SoleOwner(processes, i, pid) && WithPid(processes, pid) == [processes[i]]
  {
    if HasPid(processes[0], pid) {
      i := 0;
      NoOwner(processes[1..], pid);
    } else {
      i := FindOwner(processes[1..], pid);
      i := i + 1;
    }
    assert forall j :: 0 < j < |processes| ==> processes[j] == processes[1..][j - 1];
  }

  lemma {:induction false} OwnerIsFiltered(processes: seq<Value>, i: nat, pid: Option<u64>)
    requires SoleOwner(processes, i, pid)
    ensures WithPid(processes, pid) == [processes[i]]
  {
    if i == 0 {
      NoOwner(processes[1..], pid);
    } else {
      OwnerIsFiltered(processes[1..], i - 1, pid);
    }
  }

  // ----- Blame -----

  /** What is said of the first link of a chain that does not hold. */
  function Blame(links: seq<bool>, blames: seq<string>, intact: string): string
    requires |links| == |blames|
  {
    if links == [] then intact
    else if !links[0] then blames[0]
    else Blame(links[1..], blames[1..], intact)
  }

  lemma BlameStep(links: seq<bool>, blames: seq<string>, intact: string)
    requires |links| == |blames| > 0
    ensures Blame(links, blames, intact) == if !links[0] then blames[0] else Blame(links[1..], blames[1..], intact)
    ensures |links| == 1 && links[0] ==> Blame(links, blames, intact) == intact
  {
  }

  /** Link `k` is broken and every link before it holds. */
  predicate FirstBroken(links: seq<bool>, k: nat) {
    k < |links| && !links[k] && forall j :: 0 <= j < k ==> links[j]
  }

  /** The first broken link is blamed, and the blame identifies it. */
  lemma {:induction false} BlameExact(links: seq<bool>, blames: seq<string>, intact: string, k: nat)
    requires |links| == |blames| && k < |links|
    requires forall i, j :: 0 <= i < j < |blames| ==> blames[i] != blames[j]
    ensures FirstBroken(links, k) ==> Blame(links, blames, intact) == blames[k]
    ensures Blame(links, blames, intact) == blames[k] && intact != blames[k] ==> FirstBroken(links, k)
    ensures (forall j :: 0 <= j < |links| ==> links[j]) ==> Blame(links, blames, intact) == intact
  {
    if links[0] {
      if k > 0 {
        BlameExact(links[1..], blames[1..], intact, k - 1);
        assert FirstBroken(links[1..], k - 1) ==> FirstBroken(links, k);
      } else {
        BlameIsLater(links, blames, intact);
      }
    }
  }

  lemma {:induction false} BlameIsLater(links: seq<bool>, blames: seq<string>, intact: string)
    requires |links| == |blames| > 0 && links[0]
    ensures Blame(links, blames, intact) in blames[1..] || Blame(links, blames, intact) == intact
    ensures (forall j :: 0 <= j < |links| ==> links[j]) ==> Blame(links, blames, intact) == intact
  {
    if |links| > 1 && links[1] {
      BlameIsLater(links[1..], blames[1..], intact);
    }
  }
}
