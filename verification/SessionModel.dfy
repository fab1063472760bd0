/**
 The SGPU session as a state machine over values: one step per request, and the laws every run obeys.
 The class that implements it is in module Session.
 */
module SessionModel {
  import opened Bytes
  import opened Frame

  const SGPU_MAX_RESOURCE_BYTES: u64 := 16 * 1024 * 1024
  const SGPU_MAX_TOTAL_RESOURCE_BYTES: u64 := 64 * 1024 * 1024
  const SGPU_MAX_RESOURCES: nat := 64

  type DeviceHandle = nat

  datatype Resource = Resource(sgpHandle: u64, gpuHandle: DeviceHandle, size: u64)

  type Table = map<u64, Resource>

  /** A GPU command over guest handles (`Command<u64>`) or over device handles (`Command<DeviceHandle>`). */
  datatype Command<H> =
    | CopyBuffer(src: H, dst: H, size: u64)
    | RenderClear(color: (u32, u32, u32, u32))
    | ComputeDispatch(kernelId: u64, grid: (u32, u32, u32), block: (u32, u32, u32))
    | Present(buffer: H)

  type SgpuCommand = Command<u64>
  type GpuCommand = Command<DeviceHandle>

  /** Session fields, the device's live buffers with their sizes, and every command buffer handed to the device. */
  datatype State = State(table: Table, nextId: u64, live: map<DeviceHandle, u64>, handed: seq<seq<GpuCommand>>)

  const INITIAL := State(map[], 1, map[], [])

  // ----- Live bytes -----

  /** The sizes of all live resources added up, in whatever order the map is walked. */
  ghost function TotalBytes(t: Table): nat {
    if t == map[] then 0
    else
      var k :| k in t;
      t[k].size + TotalBytes(t - {k})
  }

  /** Any entry can be taken out first: the sum does not depend on the iteration order. */
  lemma {:induction false} TotalBytesWithout(t: Table, k: u64)
    requires k in t
    ensures TotalBytes(t) == t[k].size + TotalBytes(t - {k})
    decreases |t|
  {
    var first :| first in t && TotalBytes(t) == t[first].size + TotalBytes(t - {first});
    if first != k {
      TotalBytesWithout(t - {first}, k);
      TotalBytesWithout(t - {k}, first);
      assert t - {first} - {k} == t - {k} - {first};
    }
  }

  lemma TotalBytesInsert(t: Table, k: u64, r: Resource)
    requires k !in t
    ensures TotalBytes(t[k := r]) == TotalBytes(t) + r.size
  {
    TotalBytesWithout(t[k := r], k);
    assert t[k := r] - {k} == t;
  }

  // ----- Handle translation -----

  function HandlesOf(c: SgpuCommand): seq<u64> {
    match c
    case CopyBuffer(src, dst, _) => [src, dst]
    case Present(buffer) => [buffer]
    case _ => []
  }

  /** Every handle a list mentions, in reading order. */
  function Handles(cmds: seq<SgpuCommand>): seq<u64> {
    if cmds == [] then [] else Handles(cmds[..|cmds| - 1]) + HandlesOf(cmds[|cmds| - 1])
  }

  predicate Resolved(t: Table, cmds: seq<SgpuCommand>) {
    forall h <- Handles(cmds) :: h in t
  }

  /** `h` is the first handle in reading order that the table does not hold. */
  ghost predicate FirstUnresolved(t: Table, cmds: seq<SgpuCommand>, h: u64) {
    var all := Handles(cmds);
    h !in t && exists i :: 0 <= i < |all| && all[i] == h && forall j :: 0 <= j < i ==> all[j] in t
  }

  /** `g` is `c` with each guest handle replaced by the device handle it stands for, and nothing else changed. */
  predicate Renames(t: Table, c: SgpuCommand, g: GpuCommand) {
    match c
    case CopyBuffer(src, dst, size) =>
      src in t && dst in t && g == CopyBuffer(t[src].gpuHandle, t[dst].gpuHandle, size)
    case RenderClear(color) => g == RenderClear(color)
    case ComputeDispatch(kernelId, grid, block) => g == ComputeDispatch(kernelId, grid, block)
    case Present(buffer) => buffer in t && g == Present(t[buffer].gpuHandle)
  }

  predicate RenamesAll(t: Table, cmds: seq<SgpuCommand>, gs: seq<GpuCommand>) {
    |gs| == |cmds| && forall i :: 0 <= i < |cmds| ==> Renames(t, cmds[i], gs[i])
  }

  lemma {:induction false} HandlesPrefix(cmds: seq<SgpuCommand>, n: nat)
    requires n <= |cmds|
    ensures Handles(cmds[..n]) <= Handles(cmds)
    decreases |cmds| - n
  {
    if n < |cmds| {
      HandlesPrefix(cmds, n + 1);
      assert cmds[..n + 1][..n] == cmds[..n];
    } else {
      assert cmds[..n] == cmds;
    }
  }

  ghost predicate DistinctDeviceHandles(t: Table) {
    forall a, b :: a in t && b in t && t[a].gpuHandle == t[b].gpuHandle ==> a == b
  }

  /** Translation loses nothing: the guest's list can be recovered from what the device is given. */
  lemma RenamingIsInjective(t: Table, a: seq<SgpuCommand>, b: seq<SgpuCommand>, gs: seq<GpuCommand>)
    requires DistinctDeviceHandles(t)
    requires RenamesAll(t, a, gs) && RenamesAll(t, b, gs)
    ensures a == b
  {
    forall i | 0 <= i < |gs| ensures a[i] == b[i] {
      assert Renames(t, a[i], gs[i]) && Renames(t, b[i], gs[i]);
    }
  }

  /** A list has a translation exactly when each of its handles is in the table, and then only one. */
  lemma TranslationExists(t: Table, cmds: seq<SgpuCommand>)
    ensures Resolved(t, cmds) <==> exists gs :: RenamesAll(t, cmds, gs)
    ensures forall gs, hs :: RenamesAll(t, cmds, gs) && RenamesAll(t, cmds, hs) ==> gs == hs
  {
    if Resolved(t, cmds) {
      var _ := Translate(t, cmds);
    }
    if gs :| RenamesAll(t, cmds, gs) {
      TranslatedIsResolved(t, cmds, gs);
    }
  }

  lemma {:induction false} TranslatedIsResolved(t: Table, cmds: seq<SgpuCommand>, gs: seq<GpuCommand>)
    requires RenamesAll(t, cmds, gs)
    ensures Resolved(t, cmds)
  {
    if cmds != [] {
      var n := |cmds| - 1;
      TranslatedIsResolved(t, cmds[..n], gs[..n]);
      assert Renames(t, cmds[n], gs[n]);
    }
  }

  lemma {:induction false} Translate(t: Table, cmds: seq<SgpuCommand>) returns (gs: seq<GpuCommand>)
    requires Resolved(t, cmds)
    ensures RenamesAll(t, cmds, gs)
  {
    if cmds == [] {
      gs := [];
    } else {
      var n := |cmds| - 1;
      gs := Translate(t, cmds[..n]);
      assert forall h <- HandlesOf(cmds[n]) :: h in Handles(cmds);
      var g: GpuCommand;
      match cmds[n] {
        case CopyBuffer(src, dst, size) =>
          assert HandlesOf(cmds[n])[0] == src && HandlesOf(cmds[n])[1] == dst;
          g := CopyBuffer(t[src].gpuHandle, t[dst].gpuHandle, size);
        case RenderClear(color) => g := RenderClear(color);
        case ComputeDispatch(kernelId, grid, block) => g := ComputeDispatch(kernelId, grid, block);
        case Present(buffer) =>
          assert HandlesOf(cmds[n])[0] == buffer;
          g := Present(t[buffer].gpuHandle);
      }
      gs := gs + [g];
    }
  }

  /** A list fails to resolve exactly when it has a first unresolved handle, and that handle is unique. */
  lemma FirstUnresolvedExact(t: Table, cmds: seq<SgpuCommand>)
    ensures !Resolved(t, cmds) <==> exists h :: FirstUnresolved(t, cmds, h)
    ensures forall g, h :: FirstUnresolved(t, cmds, g) && FirstUnresolved(t, cmds, h) ==> g == h
  {
    if !Resolved(t, cmds) {
      var i := FirstMissing(t, Handles(cmds));
      assert FirstUnresolved(t, cmds, Handles(cmds)[i]);
    }
  }

  lemma {:induction false} FirstMissing(t: Table, hs: seq<u64>) returns (i: nat)
    requires exists h :: h in hs && h !in t
    ensures i < |hs| && hs[i] !in t && forall j :: 0 <= j < i ==> hs[j] in t
  {
    if hs[0] !in t {
      i := 0;
    } else {
      i := FirstMissing(t, hs[1..]);
      i := i + 1;
    }
  }

  // ----- Steps -----

  datatype Op =
    | QueryCaps
    | Create(size: u64)
    | Destroy(handle: u64)
    | Submit(cmds: seq<SgpuCommand>)
    | Malformed(error: SgpuError)

  datatype Reply =
    | Caps
    | Created(resource: Resource)
    | Destroyed
    | Completed(count: nat)
    | Rejected(error: SgpuError)

  datatype Event = Event(op: Op, reply: Reply)

  ghost predicate Admits(s: State, size: u64) {
    && 0 < size <= SGPU_MAX_RESOURCE_BYTES
    && |s.table| < SGPU_MAX_RESOURCES
    && TotalBytes(s.table) + size <= SGPU_MAX_TOTAL_RESOURCE_BYTES
    && s.nextId < U64_MAX
  }

  /** One request, its reply and the state it leaves. `limit` is the command-count bound of the command codec. */
  ghost predicate Step(limit: nat, s: State, e: Event, t: State) {
    match e.op
    case QueryCaps => e.reply == Caps && t == s
    case Malformed(error) => e.reply == Rejected(error) && t == s
    case Create(size) => CreateStep(s, size, e.reply, t)
    case Destroy(handle) => DestroyStep(s, handle, e.reply, t)
    case Submit(cmds) => SubmitStep(limit, s, cmds, e.reply, t)
  }

  ghost predicate CreateStep(s: State, size: u64, reply: Reply, t: State) {
    if Admits(s, size) then
      && reply.Created?
      && var r := reply.resource;
      && r.sgpHandle == s.nextId && r.gpuHandle !in s.live && r.size == size
      && t == s.(table := s.table[r.sgpHandle := r], nextId := s.nextId + 1, live := s.live[r.gpuHandle := size])
    else
      reply == Rejected(if size == 0 then Payload else ResourceLimit) && t == s
  }

  ghost predicate DestroyStep(s: State, handle: u64, reply: Reply, t: State) {
    if handle !in s.table then reply == Rejected(ResourceNotFound(handle)) && t == s
    else
      var r := s.table[handle];
      && t == s.(table := s.table - {handle}, live := s.live - {r.gpuHandle})
      && if r.gpuHandle in s.live then reply == Destroyed else reply.Rejected? && reply.error.Gpu?
  }

  ghost predicate SubmitStep(limit: nat, s: State, cmds: seq<SgpuCommand>, reply: Reply, t: State) {
    if |cmds| > limit then reply == Rejected(Payload) && t == s
    else if Resolved(s.table, cmds) then
      && t == s.(handed := t.handed)
      && |t.handed| == |s.handed| + 1 && s.handed <= t.handed
      && RenamesAll(s.table, cmds, t.handed[|s.handed|])
      && (reply == Completed(|cmds|) || (reply.Rejected? && reply.error.Gpu?))
    else
      && t == s
      && reply.Rejected? && reply.error.ResourceNotFound?
      && FirstUnresolved(s.table, cmds, reply.error.handle)
  }

  // ----- The invariant -----

  ghost predicate Inv(s: State) {
    && WithinBudget(s.table)
    && WellNumbered(s.table, s.nextId)
    && DistinctDeviceHandles(s.table)
    && MirrorsDevice(s.table, s.live)
  }

  ghost predicate WithinBudget(t: Table) {
    && |t| <= SGPU_MAX_RESOURCES
    && TotalBytes(t) <= SGPU_MAX_TOTAL_RESOURCE_BYTES
    && forall k :: k in t ==> 0 < t[k].size <= SGPU_MAX_RESOURCE_BYTES
  }

  ghost predicate WellNumbered(t: Table, nextId: u64) {
    1 <= nextId && forall k :: k in t ==> t[k].sgpHandle == k && 1 <= k < nextId
  }

  /**
   The table's device handles are exactly the device's live buffers, with the same sizes: nothing dangles or leaks.
   */
  ghost predicate MirrorsDevice(t: Table, live: map<DeviceHandle, u64>) {
    && (forall k :: k in t ==> t[k].gpuHandle in live && live[t[k].gpuHandle] == t[k].size)
    && (forall g :: g in live ==> Backs(t, g))
  }

  ghost predicate Backs(t: Table, g: DeviceHandle) {
    exists k :: k in t && t[k].gpuHandle == g
  }

  lemma StepPreservesInv(limit: nat, s: State, e: Event, t: State)
    requires Inv(s) && Step(limit, s, e, t)
    ensures Inv(t)
  {
    StepEffect(limit, s, e, t);
    match e.op {
      case Create(size) => CreatePreservesInv(s, size, e.reply, t);
      case Destroy(handle) => DestroyPreservesInv(s, handle, e.reply, t);
      case _ =>
    }
  }

  lemma CreatePreservesInv(s: State, size: u64, reply: Reply, t: State)
    requires Inv(s) && CreateStep(s, size, reply, t)
    ensures Inv(t)
  {
    if Admits(s, size) {
      var r := reply.resource;
      InsertKeepsBudget(s.table, r.sgpHandle, r);
      InsertMirrors(s.table, s.live, r.sgpHandle, r);
    }
  }

  lemma DestroyPreservesInv(s: State, handle: u64, reply: Reply, t: State)
    requires Inv(s) && DestroyStep(s, handle, reply, t)
    ensures Inv(t)
  {
    if handle in s.table {
      RemoveKeepsBudget(s.table, handle);
      RemoveMirrors(s.table, s.live, handle);
    }
  }

  /** What one step can do to the table, the counter and the device memory. */
  lemma StepEffect(limit: nat, s: State, e: Event, t: State)
    requires Step(limit, s, e, t)
    ensures e.op.Create? && e.reply.Created? ==>
              t.table == s.table[s.nextId := e.reply.resource] && t.nextId == s.nextId + 1
              && e.reply.resource.sgpHandle == s.nextId
    ensures e.op.Destroy? ==> t.table == s.table - {e.op.handle} && t.nextId == s.nextId
    ensures !(e.op.Create? && e.reply.Created?) && !e.op.Destroy? ==>
              t.table == s.table && t.nextId == s.nextId && t.live == s.live
    ensures e.reply.Created? ==> e.op.Create?
    ensures e.reply.Destroyed? ==> e.op.Destroy?
  {
    if e.op.Destroy? && e.op.handle !in s.table {
      assert s.table - {e.op.handle} == s.table;
    }
  }

  lemma InsertKeepsBudget(t: Table, k: u64, r: Resource)
    requires WithinBudget(t) && k !in t && |t| < SGPU_MAX_RESOURCES
    requires 0 < r.size <= SGPU_MAX_RESOURCE_BYTES && TotalBytes(t) + r.size <= SGPU_MAX_TOTAL_RESOURCE_BYTES
    ensures WithinBudget(t[k := r])
  {
    TotalBytesInsert(t, k, r);
    assert t[k := r].Keys == t.Keys + {k};
  }

  lemma InsertMirrors(t: Table, live: map<DeviceHandle, u64>, k: u64, r: Resource)
    requires DistinctDeviceHandles(t) && MirrorsDevice(t, live)
    requires k !in t && r.gpuHandle !in live
    ensures DistinctDeviceHandles(t[k := r]) && MirrorsDevice(t[k := r], live[r.gpuHandle := r.size])
  {
    var t' := t[k := r];
    forall g | g in live[r.gpuHandle := r.size] ensures Backs(t', g) {
      if g == r.gpuHandle {
        assert t'[k].gpuHandle == g;
      } else {
        assert Backs(t, g);
        var j :| j in t && t[j].gpuHandle == g;
        assert t'[j].gpuHandle == g;
      }
    }
  }

  lemma RemoveKeepsBudget(t: Table, k: u64)
    requires WithinBudget(t) && k in t
    ensures WithinBudget(t - {k}) && |t - {k}| == |t| - 1
  {
    TotalBytesWithout(t, k);
    assert (t - {k}).Keys == t.Keys - {k};
  }

  lemma RemoveMirrors(t: Table, live: map<DeviceHandle, u64>, k: u64)
    requires DistinctDeviceHandles(t) && MirrorsDevice(t, live) && k in t
    ensures DistinctDeviceHandles(t - {k}) && MirrorsDevice(t - {k}, live - {t[k].gpuHandle})
  {
    var t' := t - {k};
    forall g | g in live - {t[k].gpuHandle} ensures Backs(t', g) {
      assert Backs(t, g);
      var j :| j in t && t[j].gpuHandle == g;
      assert j in t' && t'[j].gpuHandle == g;
    }
  }

  /**
   In a state the session can be in, a rejected request changes neither the table, the counter nor the device memory.
   */
  lemma RejectedStepsChangeNothing(limit: nat, s: State, e: Event, t: State)
    requires Inv(s) && Step(limit, s, e, t) && e.reply.Rejected?
    ensures t.table == s.table && t.nextId == s.nextId && t.live == s.live
    ensures t != s ==> e.op.Submit? && e.reply.error.Gpu?
  {
  }

  /** Create followed by destroy restores the table and the device memory; only the counter has moved on. */
  lemma DestroyUndoesCreate(limit: nat, s: State, size: u64, r: Resource, t: State, e: Event, u: State)
    requires Inv(s) && Step(limit, s, Event(Create(size), Created(r)), t)
    requires e.op == Destroy(r.sgpHandle) && Step(limit, t, e, u)
    ensures e.reply == Destroyed
    ensures u == s.(nextId := s.nextId + 1)
  {
    hide WithinBudget, DistinctDeviceHandles, MirrorsDevice, SubmitStep;
    assert r.sgpHandle !in s.table;
    assert s.table[r.sgpHandle := r] - {r.sgpHandle} == s.table;
    assert s.live[r.gpuHandle := size] - {r.gpuHandle} == s.live;
  }

  /** Destroying any resource gives back exactly its share of both budgets. */
  lemma DestroyRestoresBudget(limit: nat, s: State, handle: u64, t: State)
    requires Inv(s) && Step(limit, s, Event(Destroy(handle), Destroyed), t)
    ensures |t.table| == |s.table| - 1
    ensures TotalBytes(t.table) == TotalBytes(s.table) - s.table[handle].size
  {
    TotalBytesWithout(s.table, handle);
    RemoveKeepsBudget(s.table, handle);
  }

  // ----- Runs -----

  ghost predicate IsRun(limit: nat, states: seq<State>, events: seq<Event>) {
    && |states| == |events| + 1
    && states[0] == INITIAL
    && forall i :: 0 <= i < |events| ==> Step(limit, states[i], events[i], states[i + 1])
  }

  lemma RunExtends(limit: nat, states: seq<State>, events: seq<Event>, e: Event, t: State)
    requires IsRun(limit, states, events)
    requires Step(limit, states[|events|], e, t)
    ensures IsRun(limit, states + [t], events + [e])
  {
  }

  /** Allocator safety over whole runs: every reachable state satisfies the invariant. */
  lemma {:induction false} RunKeepsInv(limit: nat, states: seq<State>, events: seq<Event>, i: nat)
    requires IsRun(limit, states, events) && i <= |events|
    ensures Inv(states[i])
  {
    if i > 0 {
      RunKeepsInv(limit, states, events, i - 1);
      StepPreservesInv(limit, states[i - 1], events[i - 1], states[i]);
    }
  }

  lemma {:induction false} CounterNeverFalls(limit: nat, states: seq<State>, events: seq<Event>, i: nat, j: nat)
    requires IsRun(limit, states, events) && i <= j <= |events|
    ensures states[i].nextId <= states[j].nextId
    decreases j - i
  {
    hide Step;
    if i < j {
      CounterNeverFalls(limit, states, events, i, j - 1);
      StepEffect(limit, states[j - 1], events[j - 1], states[j]);
    }
  }

  /** Issued handles strictly increase, so no handle is ever issued twice. */
  lemma IssuedHandlesIncrease(limit: nat, states: seq<State>, events: seq<Event>, i: nat, j: nat)
    requires IsRun(limit, states, events) && i < j < |events|
    requires events[i].reply.Created? && events[j].reply.Created?
    ensures events[i].reply.resource.sgpHandle < events[j].reply.resource.sgpHandle
  {
    StepEffect(limit, states[i], events[i], states[i + 1]);
    StepEffect(limit, states[j], events[j], states[j + 1]);
    CounterNeverFalls(limit, states, events, i + 1, j);
  }

  lemma {:induction false} RetiredHandleStaysAbsent(
    limit: nat, states: seq<State>, events: seq<Event>, h: u64, i: nat, j: nat)
    requires IsRun(limit, states, events) && i <= j <= |events|
    requires h < states[i].nextId && h !in states[i].table
    ensures h !in states[j].table
    decreases j - i
  {
    hide Step;
    if i < j {
      RetiredHandleStaysAbsent(limit, states, events, h, i, j - 1);
      CounterNeverFalls(limit, states, events, i, j - 1);
      StepEffect(limit, states[j - 1], events[j - 1], states[j]);
    }
  }

  /** A destroyed handle never resolves again, whatever is requested afterwards. */
  lemma DestroyedHandleIsDead(limit: nat, states: seq<State>, events: seq<Event>, h: u64, i: nat, j: nat)
    requires IsRun(limit, states, events) && i < j <= |events|
    requires events[i] == Event(Destroy(h), Destroyed)
    ensures h !in states[j].table
    ensures j < |events| && events[j].op == Destroy(h) ==> events[j].reply == Rejected(ResourceNotFound(h))
    ensures j < |events| && events[j].op.Submit? && h in Handles(events[j].op.cmds) ==> events[j].reply.Rejected?
  {
    RunKeepsInv(limit, states, events, i);
    assert Step(limit, states[i], events[i], states[i + 1]);
    RetiredHandleStaysAbsent(limit, states, events, h, i + 1, j);
    if j < |events| {
      assert Step(limit, states[j], events[j], states[j + 1]);
    }
  }

  /** `r` was created during the first `n` events and not destroyed since. */
  ghost predicate CreatedAndKept(events: seq<Event>, n: nat, r: Resource)
    requires n <= |events|
  {
    exists i :: 0 <= i < n && events[i].reply == Created(r) && KeptSince(events, i + 1, n, r.sgpHandle)
  }

  ghost predicate KeptSince(events: seq<Event>, from: nat, n: nat, handle: u64)
    requires n <= |events|
  {
    forall j :: from <= j < n ==> events[j] != Event(Destroy(handle), Destroyed)
  }

  /**
   The table holds exactly what the replies so far say was created and not destroyed: nothing lost, nothing invented.
   */
  lemma {:induction false} TableIsHistory(limit: nat, states: seq<State>, events: seq<Event>, n: nat, r: Resource)
    requires IsRun(limit, states, events) && n <= |events|
    ensures Holds(states[n].table, r) <==> CreatedAndKept(events, n, r)
  {
    hide Step, Inv, KeptSince;
    if n > 0 {
      TableIsHistory(limit, states, events, n - 1, r);
      RunKeepsInv(limit, states, events, n - 1);
      HistoryStep(events, n - 1, r);
      HoldsStep(limit, states[n - 1], events[n - 1], states[n], r);
    }
  }

  ghost predicate Holds(t: Table, r: Resource) {
    r.sgpHandle in t && t[r.sgpHandle] == r
  }

  lemma HoldsStep(limit: nat, s: State, e: Event, t: State, r: Resource)
    requires Inv(s) && Step(limit, s, e, t)
    ensures Holds(t.table, r) <==>
              e.reply == Created(r) || (Holds(s.table, r) && e != Event(Destroy(r.sgpHandle), Destroyed))
  {
    hide WithinBudget, DistinctDeviceHandles, SubmitStep, Admits;
    StepEffect(limit, s, e, t);
    if e.op.Destroy? {
      assert DestroyStep(s, e.op.handle, e.reply, t);
    }
  }

  lemma HistoryStep(events: seq<Event>, n: nat, r: Resource)
    requires n < |events|
    ensures CreatedAndKept(events, n + 1, r) <==>
              events[n].reply == Created(r)
              || (CreatedAndKept(events, n, r) && events[n] != Event(Destroy(r.sgpHandle), Destroyed))
  {
    var h := r.sgpHandle;
    if CreatedAndKept(events, n, r) && events[n] != Event(Destroy(h), Destroyed) {
      var i :| 0 <= i < n && events[i].reply == Created(r) && KeptSince(events, i + 1, n, h);
      assert KeptSince(events, i + 1, n + 1, h);
    }
    if events[n].reply == Created(r) {
      assert KeptSince(events, n + 1, n + 1, h);
    }
    if CreatedAndKept(events, n + 1, r) {
      var i :| 0 <= i < n + 1 && events[i].reply == Created(r) && KeptSince(events, i + 1, n + 1, h);
      if i < n {
        assert KeptSince(events, i + 1, n, h);
      }
    }
  }
}
