/** The SGPU session and the device it drives, as objects that update their fields in place. */
module Session {
  import opened Wrappers
  import opened Bytes
  import opened VfAbi
  import opened Frame
  import opened SessionModel
  import opened SessionSteps
  import opened SessionFrames

  /**
   The GPU device as the session sees it. Its contracts are all the session may rely on: a new buffer gets a handle
   that is not live, freeing succeeds exactly on live handles, and executing commands does not change which handles are
   live but may fail at any time. The bodies are one realization of those contracts.
   */
  class VirtualMetalDevice {
    var live: map<DeviceHandle, u64>
    var nextHandle: DeviceHandle
    ghost var handed: seq<seq<GpuCommand>>

    ghost predicate Valid()
      reads this
    {
      forall g :: g in live ==> g < nextHandle
    }

    constructor ()
      ensures Valid() && live == map[] && handed == []
    {
      live, nextHandle, handed := map[], 1, [];
    }

    method AllocateBuffer(size: u64) returns (handle: DeviceHandle)
      requires Valid()
      modifies this
      ensures Valid()
      ensures handle !in old(live)
      ensures live == old(live)[handle := size] && handed == old(handed)
    {
      handle := nextHandle;
      live := live[handle := size];
      nextHandle := nextHandle + 1;
    }

    method Free(handle: DeviceHandle) returns (r: Outcome<string>)
      requires Valid()
      modifies this
      ensures Valid()
      ensures r.Pass? <==> handle in old(live)
      ensures live == old(live) - {handle} && handed == old(handed)
    {
      if handle in live {
        live := live - {handle};
        r := Pass;
      } else {
        r := Fail("invalid handle");
      }
    }

    method WriteCommandBuffer(cmds: seq<GpuCommand>) returns (r: Outcome<string>)
      requires Valid()
      modifies this
      ensures Valid()
      ensures live == old(live) && handed == old(handed) + [cmds]
    {
      handed := handed + [cmds];
      var accepted: bool := *;
      r := if accepted then Pass else Fail("command buffer rejected");
    }

    method Flush() returns (r: Outcome<string>)
      requires Valid()
      modifies this
      ensures Valid()
      ensures live == old(live) && handed == old(handed)
    {
      var executed: bool := *;
      r := if executed then Pass else Fail("execution failed");
    }
  }

  /** The checked sum of `start` and all live sizes, taken in an arbitrary order. */
  method CheckedTotal(t: Table, start: u64) returns (total: Option<u64>)
    ensures total == if start + TotalBytes(t) <= U64_MAX then Some(start + TotalBytes(t)) else None
  {
    var sum: u64 := start;
    var rest := t;
    while rest != map[]
      invariant sum + TotalBytes(rest) == start + TotalBytes(t)
      decreases |rest|
    {
      var k :| k in rest;
      TotalBytesWithout(rest, k);
      assert (rest - {k}).Keys == rest.Keys - {k};
      if sum + rest[k].size > U64_MAX {
        return None;
      }
      sum := sum + rest[k].size;
      rest := rest - {k};
    }
    total := Some(sum);
  }

  ghost predicate Extends(before: seq<Event>, after: seq<Event>) {
    |after| == |before| + 1 && before <= after
  }

  class SgpuSession {
    const device: VirtualMetalDevice
    const caps: seq<byte>
    const codec: CommandCodec
    const maxCommands: u32
    var resources: Table
    var nextResourceId: u64
    ghost var states: seq<State>
    ghost var events: seq<Event>

    ghost function View(): State
      reads this, device
    {
      State(resources, nextResourceId, device.live, device.handed)
    }

    /** The fields are where some run of the state machine has led, and the history is that run. */
    ghost predicate Valid()
      reads this, device
    {
      && device.Valid()
      && |caps| == 40
      && IsRun(maxCommands, states, events)
      && states[|events|] == View()
    }

    constructor (device: VirtualMetalDevice, caps: seq<byte>, codec: CommandCodec, maxCommands: u32)
      requires device.Valid() && device.live == map[] && device.handed == []
      requires |caps| == 40
      ensures Valid() && events == [] && View() == INITIAL
      ensures resources == map[] && nextResourceId == 1
      ensures this.device == device && this.caps == caps && this.codec == codec && this.maxCommands == maxCommands
    {
      this.device, this.caps, this.codec, this.maxCommands := device, caps, codec, maxCommands;
      resources, nextResourceId := map[], 1;
      states, events := [INITIAL], [];
    }

    /** Whatever has been requested so far, the session is in a safe state. */
    lemma SafeNow()
      requires Valid()
      ensures Inv(View())
      ensures |resources| <= 64 && TotalBytes(resources) <= 67_108_864
      ensures forall k :: k in resources ==>
                var r := resources[k];
                && r.sgpHandle == k && 1 <= k < nextResourceId && 1 <= r.size <= 16_777_216
                && r.gpuHandle in device.live && device.live[r.gpuHandle] == r.size
      ensures forall g :: g in device.live ==> exists k :: k in resources && resources[k].gpuHandle == g
    {
      RunKeepsInv(maxCommands, states, events, |events|);
      InvInFull(View());
    }

    /** A handle the session has destroyed resolves to nothing from then on. */
    lemma DestroyedHandleIsGone(h: u64, i: nat)
      requires Valid()
      requires i < |events| && events[i] == Event(Destroy(h), Destroyed)
      ensures GpuHandle(h) == Failure(ResourceNotFound(h))
    {
      DestroyedHandleIsDead(maxCommands, states, events, h, i, |events|);
    }

    ghost method Record(e: Event)
      requires device.Valid() && |caps| == 40 && IsRun(maxCommands, states, events)
      requires Step(maxCommands, states[|events|], e, View())
      modifies this`states, this`events
      ensures Valid() && events == old(events) + [e] && states == old(states) + [View()]
    {
      RunExtends(maxCommands, states, events, e, View());
      states, events := states + [View()], events + [e];
    }

    method CreateResource(size: u64) returns (r: Result<Resource, SgpuError>)
      requires Valid()
      modifies this, device
      ensures Valid()
      ensures r.Success? <==>
                && 1 <= size <= 16_777_216 && |old(resources)| < 64 && TotalBytes(old(resources)) + size <= 67_108_864
                && old(nextResourceId) < 0xFFFF_FFFF_FFFF_FFFF
      ensures r.Success? ==>
                && r.value.sgpHandle == old(nextResourceId) && r.value.size == size
                && r.value.gpuHandle !in old(device.live) && device.live == old(device.live)[r.value.gpuHandle := size]
                && resources == old(resources)[old(nextResourceId) := r.value]
                && nextResourceId == old(nextResourceId) + 1
      ensures r.Failure? ==>
                && r.error == (if size == 0 then Payload else ResourceLimit)
                && resources == old(resources) && nextResourceId == old(nextResourceId)
                && device.live == old(device.live)
      ensures events == old(events) + [Event(Create(size), if r.Success? then Created(r.value) else Rejected(r.error))]
      ensures Step(maxCommands, old(View()), events[|events| - 1], View())
    {
      ghost var before := View();
      r := AllocateChecked(size);
      ghost var reply := if r.Success? then Created(r.value) else Rejected(r.error);
      CreateInFull(maxCommands, before, size, reply, View());
      Record(Event(Create(size), reply));
    }

    method AllocateChecked(size: u64) returns (r: Result<Resource, SgpuError>)
      requires Valid()
      modifies this`resources, this`nextResourceId, device
      ensures device.Valid()
      ensures CreateStep(old(View()), size, if r.Success? then Created(r.value) else Rejected(r.error), View())
    {
      if size == 0 {
        return Failure(Payload);
      }
      if size > SGPU_MAX_RESOURCE_BYTES || |resources| >= SGPU_MAX_RESOURCES {
        return Failure(ResourceLimit);
      }
      var total := CheckedTotal(resources, size);
      if total.None? || total.value > SGPU_MAX_TOTAL_RESOURCE_BYTES {
        return Failure(ResourceLimit);
      }
      if nextResourceId + 1 > U64_MAX {
        return Failure(ResourceLimit);
      }
      var gpu := device.AllocateBuffer(size);
      var res := Resource(nextResourceId, gpu, size);
      nextResourceId := nextResourceId + 1;
      resources := resources[res.sgpHandle := res];
      r := Success(res);
    }

    method DestroyResource(handle: u64) returns (r: Result<(), SgpuError>)
      requires Valid()
      modifies this, device
      ensures Valid()
      ensures r.Success? <==> handle in old(resources)
      ensures r.Failure? ==> r.error == ResourceNotFound(handle)
      ensures resources == old(resources) - {handle} && nextResourceId == old(nextResourceId)
      ensures handle in old(resources) ==> device.live == old(device.live) - {old(resources)[handle].gpuHandle}
      ensures events == old(events) + [Event(Destroy(handle), if r.Success? then Destroyed else Rejected(r.error))]
      ensures Step(maxCommands, old(View()), events[|events| - 1], View())
    {
      hide WithinBudget, WellNumbered, DistinctDeviceHandles, CreateStep, SubmitStep, Admits, IsRun;
      SafeNow();
      assert handle in resources ==> resources[handle].gpuHandle in device.live;
      r := FreeResource(handle);
      Record(Event(Destroy(handle), if r.Success? then Destroyed else Rejected(r.error)));
    }

    method FreeResource(handle: u64) returns (r: Result<(), SgpuError>)
      requires Valid()
      modifies this`resources, device
      ensures device.Valid()
      ensures DestroyStep(old(View()), handle, if r.Success? then Destroyed else Rejected(r.error), View())
    {
      if handle !in resources {
        return Failure(ResourceNotFound(handle));
      }
      var res := resources[handle];
      resources := resources - {handle};
      var freed := device.Free(res.gpuHandle);
      r := match freed case Fail(e) => Failure(Gpu(e)) case Pass => Success(());
    }

    function GpuHandle(sgpHandle: u64): (r: Result<DeviceHandle, SgpuError>)
      reads this
      ensures r.Success? ==> sgpHandle in resources && r.value == resources[sgpHandle].gpuHandle
      ensures r.Failure? ==> sgpHandle !in resources && r.error == ResourceNotFound(sgpHandle)
    {
      if sgpHandle in resources then Success(resources[sgpHandle].gpuHandle) else Failure(ResourceNotFound(sgpHandle))
    }

    /**
     A handle resolves exactly when some request created it and none since destroyed it. It then stands for a live
     device buffer of the size asked for, which no other handle stands for.
     */
    lemma ResolvedHandleIsLive(sgpHandle: u64)
      requires Valid()
      ensures GpuHandle(sgpHandle).Success? <==>
                exists r: Resource :: r.sgpHandle == sgpHandle && CreatedAndKept(events, |events|, r)
      ensures forall r: Resource :: r.sgpHandle == sgpHandle && CreatedAndKept(events, |events|, r) ==>
                && GpuHandle(sgpHandle) == Success(r.gpuHandle)
                && r.gpuHandle in device.live && device.live[r.gpuHandle] == r.size
                && 0 < r.size <= SGPU_MAX_RESOURCE_BYTES
      ensures forall other: u64 ::
                GpuHandle(sgpHandle).Success? && GpuHandle(other) == GpuHandle(sgpHandle) ==> other == sgpHandle
      ensures GpuHandle(sgpHandle).Failure? ==> GpuHandle(sgpHandle).error == ResourceNotFound(sgpHandle)
    {
      hide CreatedAndKept, IsRun;
      SafeNow();
      forall r: Resource ensures Holds(resources, r) <==> CreatedAndKept(events, |events|, r) {
        TableIsHistory(maxCommands, states, events, |events|, r);
      }
      if sgpHandle in resources {
        assert Holds(resources, resources[sgpHandle]);
      }
    }

    /** Translates the list command by command, and gives up at the first handle that does not resolve. */
    method TranslateList(cmds: seq<SgpuCommand>) returns (r: Result<seq<GpuCommand>, SgpuError>)
      ensures r.Success? <==> Resolved(resources, cmds)
      ensures r.Success? ==> RenamesAll(resources, cmds, r.value)
      ensures r.Success? ==>
                |r.value| == |cmds|
                && forall i :: 0 <= i < |cmds| ==>
                     match cmds[i]
                     case CopyBuffer(src, dst, size) =>
                       && src in resources && dst in resources
                       && r.value[i].CopyBuffer? && r.value[i].size == size
                       && r.value[i].src == resources[src].gpuHandle && r.value[i].dst == resources[dst].gpuHandle
                     case RenderClear(color) => r.value[i].RenderClear? && r.value[i].color == color
                     case ComputeDispatch(kernelId, grid, block) =>
                       && r.value[i].ComputeDispatch? && r.value[i].kernelId == kernelId
                       && r.value[i].grid == grid && r.value[i].block == block
                     case Present(buffer) =>
                       buffer in resources && r.value[i].Present? && r.value[i].buffer == resources[buffer].gpuHandle
      ensures r.Failure? ==> r.error.ResourceNotFound? && FirstUnresolved(resources, cmds, r.error.handle)
    {
      hide Handles, FirstUnresolved;
      var gpuCmds: seq<GpuCommand> := [];
      NothingToResolve(resources, cmds);
      for i := 0 to |cmds|
        invariant Resolved(resources, cmds[..i])
        invariant RenamesAll(resources, cmds[..i], gpuCmds)
      {
        HandlesStep(cmds, i);
        match cmds[i] {
          case CopyBuffer(src, dst, size) =>
            var srcGpu := GpuHandle(src);
            if srcGpu.Failure? {
              UnresolvedAt(resources, cmds, i, 0);
              return Failure(srcGpu.error);
            }
            var dstGpu := GpuHandle(dst);
            if dstGpu.Failure? {
              UnresolvedAt(resources, cmds, i, 1);
              return Failure(dstGpu.error);
            }
            gpuCmds := gpuCmds + [CopyBuffer(srcGpu.value, dstGpu.value, size)];
          case RenderClear(color) =>
            gpuCmds := gpuCmds + [RenderClear(color)];
          case ComputeDispatch(kernelId, grid, block) =>
            gpuCmds := gpuCmds + [ComputeDispatch(kernelId, grid, block)];
          case Present(buffer) =>
            var gpu := GpuHandle(buffer);
            if gpu.Failure? {
              UnresolvedAt(resources, cmds, i, 0);
              return Failure(gpu.error);
            }
            gpuCmds := gpuCmds + [Present(gpu.value)];
        }
      }
      assert cmds[..|cmds|] == cmds;
      r := Success(gpuCmds);
    }

    /** All or nothing: the device sees the whole translated list or nothing at all. */
    method SubmitList(cmds: seq<SgpuCommand>) returns (r: Result<nat, SgpuError>)
      requires Valid()
      modifies this`states, this`events, device
      ensures Valid()
      ensures events ==
              old(events) + [Event(Submit(cmds), if r.Success? then Completed(r.value) else Rejected(r.error))]
      ensures Step(maxCommands, old(View()), events[|events| - 1], View())
      ensures r.Success? ==> r.value == |cmds| && device.handed != old(device.handed)
      ensures |cmds| > maxCommands ==> r == Failure(Payload)
      ensures r.Failure? && !r.error.Gpu? ==> device.handed == old(device.handed)
      ensures device.handed != old(device.handed) ==>
                && |device.handed| == |old(device.handed)| + 1
                && device.handed[..|old(device.handed)|] == old(device.handed)
                && |device.handed[|old(device.handed)|]| == |cmds|
                && forall i :: 0 <= i < |cmds| ==>
                     var g := device.handed[|old(device.handed)|][i];
                     match cmds[i]
                     case CopyBuffer(src, dst, size) =>
                       && src in resources && dst in resources
                       && g.CopyBuffer? && g.size == size
                       && g.src == resources[src].gpuHandle && g.dst == resources[dst].gpuHandle
                     case RenderClear(color) => g.RenderClear? && g.color == color
                     case ComputeDispatch(kernelId, grid, block) =>
                       g.ComputeDispatch? && g.kernelId == kernelId && g.grid == grid && g.block == block
                     case Present(buffer) =>
                       buffer in resources && g.Present? && g.buffer == resources[buffer].gpuHandle
    {
      ghost var before := View();
      r := HandOver(cmds);
      ghost var reply := if r.Success? then Completed(r.value) else Rejected(r.error);
      SubmitInFull(maxCommands, before, cmds, reply, View());
      SubmitAnswerInFull(maxCommands, before, cmds, reply, View());
      Record(Event(Submit(cmds), reply));
    }

    method HandOver(cmds: seq<SgpuCommand>) returns (r: Result<nat, SgpuError>)
      requires Valid()
      modifies device
      ensures device.Valid()
      ensures SubmitStep(
                maxCommands, old(View()), cmds, if r.Success? then Completed(r.value) else Rejected(r.error), View())
    {
      if |cmds| > maxCommands {
        return Failure(Payload);
      }
      var gpuCmds := TranslateList(cmds);
      if gpuCmds.Failure? {
        return Failure(gpuCmds.error);
      }
      var written := device.WriteCommandBuffer(gpuCmds.value);
      if written.Fail? {
        return Failure(Gpu(written.error));
      }
      var flushed := device.Flush();
      if flushed.Fail? {
        return Failure(Gpu(flushed.error));
      }
      r := Success(|cmds|);
    }

    method PresentResource(resource: u64) returns (r: Result<(), SgpuError>)
      requires Valid()
      modifies this`states, this`events, device
      ensures Valid()
      ensures events ==
              old(events)
              + [Event(Submit([Present(resource)]), if r.Success? then Completed(1) else Rejected(r.error))]
      ensures Step(maxCommands, old(View()), events[|events| - 1], View())
      ensures maxCommands == 0 ==> r == Failure(Payload) && device.handed == old(device.handed)
      ensures maxCommands > 0 && resource !in resources ==>
                r == Failure(ResourceNotFound(resource)) && device.handed == old(device.handed)
      ensures maxCommands > 0 && resource in resources ==>
                && device.handed == old(device.handed) + [[Present(resources[resource].gpuHandle)]]
                && (r.Failure? ==> r.error.Gpu?)
    {
      ghost var before := View();
      var submitted := SubmitList([Present(resource)]);
      PresentInFull(maxCommands, before, resource, events[|events| - 1].reply, View());
      r := match submitted case Failure(e) => Failure(e) case Success(_) => Success(());
    }

    /** One request frame: exactly one step of the state machine, answered by a valid echoing frame or by its error. */
    method Dispatch(frame: SgpuFrame) returns (r: Result<SgpuFrame, SgpuError>)
      requires Valid()
      modifies this, device
      ensures r.Success? ==>
                var h, n := r.value.header, |r.value.payload|;
                && h.magic == 0x314D_4656 && h.abiMajor == 1 && h.headerBytes == 64 && h.messageBytes == 64 + n
                && h.family == 3 && h.opcode == frame.header.opcode && h.opcode in [1, 2, 3, 5, 7]
                && h.requestId == frame.header.requestId && h.objectHandle == 0 && h.payloadGrant == 0
                && h.payloadOffset == 0 && h.payloadBytes == n && h.flags == 0 && h.reserved0 == 0
      ensures r.Success? && frame.header.opcode == 1 ==> r.value.payload == caps && |caps| == 40
      ensures r.Success? && frame.header.opcode == 2 ==>
                && r.value.payload == U64Le(old(nextResourceId)) && nextResourceId == old(nextResourceId) + 1
                && old(nextResourceId) in resources && resources - {old(nextResourceId)} == old(resources)
                && |frame.payload| == 8 && resources[old(nextResourceId)].size == LeU64(frame.payload)
      ensures r.Success? && frame.header.opcode == 3 ==>
                && r.value.payload == [] && |frame.payload| == 8
                && LeU64(frame.payload) in old(resources) && resources == old(resources) - {LeU64(frame.payload)}
      ensures r.Success? && frame.header.opcode == 5 ==>
                && codec(frame.payload).Some?
                && r.value.payload == U32Le(|codec(frame.payload).value| % 0x1_0000_0000)
                && |device.handed| == |old(device.handed)| + 1
                && |device.handed[|old(device.handed)|]| == |codec(frame.payload).value|
      ensures r.Success? && frame.header.opcode == 7 ==>
                && r.value.payload == [] && |frame.payload| == 8 && LeU64(frame.payload) in resources
                && device.handed == old(device.handed) + [[Present(resources[LeU64(frame.payload)].gpuHandle)]]
      ensures Valid()
      ensures Extends(old(events), events)
      ensures Dispatched(frame, codec, caps, maxCommands, old(View()), events[|events| - 1], View(), r)
      ensures r.Success? ==> ValidFrame(r.value) && FromWire(WireBytes(r.value)) == r
      ensures r.Failure? ==>
                resources == old(resources) && nextResourceId == old(nextResourceId) && device.live == old(device.live)
    {
      hide IsRun, Inv, Step, Request, Answers, ValidFrame, U64Le, U32Le, LeU64, WireBytes, FromWire;
      SafeNow();
      ghost var before := View();
      r := Route(frame);
      ghost var e := events[|events| - 1];
      AnswerOnTheWire(frame, e.reply, caps, r);
      if r.Failure? {
        RejectedStepsChangeNothing(maxCommands, before, e, View());
      } else {
        AnswerInFull(frame, codec, caps, maxCommands, before, e, View(), r);
      }
    }

    method Route(frame: SgpuFrame) returns (r: Result<SgpuFrame, SgpuError>)
      requires Valid()
      modifies this, device
      ensures Valid()
      ensures Extends(old(events), events)
      ensures events[|events| - 1].op == Request(frame, codec)
      ensures Step(maxCommands, old(View()), events[|events| - 1], View())
      ensures Answers(frame, events[|events| - 1].reply, caps, r)
    {
      var checked := Validate(frame);
      if checked.Fail? {
        r := Reject(checked.error);
        return;
      }
      if frame.header.opcode == VF_SGPU_QUERY_CAPS {
        r := OnQueryCaps(frame);
      } else if frame.header.opcode == VF_SGPU_CREATE_RESOURCE {
        r := OnCreate(frame);
      } else if frame.header.opcode == VF_SGPU_DESTROY_RESOURCE {
        r := OnDestroy(frame);
      } else if frame.header.opcode == VF_SGPU_SUBMIT_COMMAND_LIST {
        r := OnSubmit(frame);
      } else if frame.header.opcode == VF_SGPU_PRESENT {
        r := OnPresent(frame);
      } else {
        r := Reject(Vf(Eabi("unknown SGPU opcode")));
      }
    }

    method OnQueryCaps(frame: SgpuFrame) returns (r: Result<SgpuFrame, SgpuError>)
      requires Valid() && Validate(frame).Pass? && frame.header.opcode == VF_SGPU_QUERY_CAPS
      modifies this, device
      ensures Valid()
      ensures Extends(old(events), events)
      ensures events[|events| - 1].op == Request(frame, codec)
      ensures Step(maxCommands, old(View()), events[|events| - 1], View())
      ensures Answers(frame, events[|events| - 1].reply, caps, r)
    {
      if frame.payload != [] {
        r := Reject(Payload);
        return;
      }
      Record(Event(QueryCaps, Caps));
      r := Success(Response(VF_SGPU_QUERY_CAPS, frame.header.requestId, caps));
    }

    method OnCreate(frame: SgpuFrame) returns (r: Result<SgpuFrame, SgpuError>)
      requires Valid() && Validate(frame).Pass? && frame.header.opcode == VF_SGPU_CREATE_RESOURCE
      modifies this, device
      ensures Valid()
      ensures Extends(old(events), events)
      ensures events[|events| - 1].op == Request(frame, codec)
      ensures Step(maxCommands, old(View()), events[|events| - 1], View())
      ensures Answers(frame, events[|events| - 1].reply, caps, r)
    {
      if |frame.payload| != 8 {
        r := Reject(Payload);
        return;
      }
      var res := CreateResource(LeU64(frame.payload));
      r := match res
           case Failure(e) => Failure(e)
           case Success(v) => Success(Response(VF_SGPU_CREATE_RESOURCE, frame.header.requestId, U64Le(v.sgpHandle)));
    }

    method OnDestroy(frame: SgpuFrame) returns (r: Result<SgpuFrame, SgpuError>)
      requires Valid() && Validate(frame).Pass? && frame.header.opcode == VF_SGPU_DESTROY_RESOURCE
      modifies this, device
      ensures Valid()
      ensures Extends(old(events), events)
      ensures events[|events| - 1].op == Request(frame, codec)
      ensures Step(maxCommands, old(View()), events[|events| - 1], View())
      ensures Answers(frame, events[|events| - 1].reply, caps, r)
    {
      if |frame.payload| != 8 {
        r := Reject(Payload);
        return;
      }
      var done := DestroyResource(LeU64(frame.payload));
      r := match done
           case Failure(e) => Failure(e)
           case Success(_) => Success(Response(VF_SGPU_DESTROY_RESOURCE, frame.header.requestId, []));
    }

    method OnSubmit(frame: SgpuFrame) returns (r: Result<SgpuFrame, SgpuError>)
      requires Valid() && Validate(frame).Pass? && frame.header.opcode == VF_SGPU_SUBMIT_COMMAND_LIST
      modifies this, device
      ensures Valid()
      ensures Extends(old(events), events)
      ensures events[|events| - 1].op == Request(frame, codec)
      ensures Step(maxCommands, old(View()), events[|events| - 1], View())
      ensures Answers(frame, events[|events| - 1].reply, caps, r)
    {
      var list := codec(frame.payload);
      if list.None? {
        r := Reject(Payload);
        return;
      }
      var completed := SubmitList(list.value);
      r := match completed
           case Failure(e) => Failure(e)
           case Success(n) =>
             Success(Response(VF_SGPU_SUBMIT_COMMAND_LIST, frame.header.requestId, U32Le(n % (U32_MAX + 1))));
    }

    method OnPresent(frame: SgpuFrame) returns (r: Result<SgpuFrame, SgpuError>)
      requires Valid() && Validate(frame).Pass? && frame.header.opcode == VF_SGPU_PRESENT
      modifies this, device
      ensures Valid()
      ensures Extends(old(events), events)
      ensures events[|events| - 1].op == Request(frame, codec)
      ensures Step(maxCommands, old(View()), events[|events| - 1], View())
      ensures Answers(frame, events[|events| - 1].reply, caps, r)
    {
      hide IsRun, Inv, CreateStep, DestroyStep, SubmitStep, FrameLayout, LeU64;
      if |frame.payload| != 8 {
        r := Reject(Payload);
        return;
      }
      var shown := PresentResource(LeU64(frame.payload));
      r := match shown
           case Failure(e) => Failure(e)
           case Success(_) => Success(Response(VF_SGPU_PRESENT, frame.header.requestId, []));
    }

    method Reject(error: SgpuError) returns (r: Result<SgpuFrame, SgpuError>)
      requires Valid()
      modifies this`states, this`events
      ensures Valid() && events == old(events) + [Event(Malformed(error), Rejected(error))]
      ensures r == Failure(error)
    {
      Record(Event(Malformed(error), Rejected(error)));
      r := Failure(error);
    }
  }
}
