/** The recovery verdict can be met: for every recovery request there is a receipt that it verifies. */
module RecoveryWitness {
  import opened Wrappers
  import opened Bytes
  import opened Json
  import opened Request
  import opened Evidence
  import opened RecoveryVerdict
  import opened Records

  const YES := Bool(true)

  function One(name: string, v: Value): (r: Value)
    ensures r.At(name) == v
  {
    Obj(map[name := v])
  }

  /** QEMU is process 3 in the session of worker 2. */
  function Qemu(): (p: Value)
    ensures p.At("pid") == Int(3) && p.At("session") == Int(2) && p.At("starttime") == Int(1)
  {
    Obj(map["pid" := Int(3), "session" := Int(2), "starttime" := Int(1)])
  }

  function Worker(): (w: Value)
    ensures w.At("pid") == Int(2) && w.At("returncode") == Int(0) && w.At("completed") == YES
    ensures w.At("process_inventory_complete") == YES && w.At("observed_processes") == Arr([Qemu()])
  {
    Obj(map[
      "pid" := Int(2), "returncode" := Int(0), "completed" := YES, "process_inventory_complete" := YES,
      "observed_processes" := Arr([Qemu()])])
  }

  function CleanExit(): (c: Value)
    ensures c.At("complete") == YES && c.At("leader_reaped") == YES && c.At("remaining_pids") == Arr([])
  {
    Obj(map["complete" := YES, "leader_reaped" := YES, "remaining_pids" := Arr([])])
  }

  function Boot(target: u16): (b: Value)
    ensures b.At("xnu_executed") == YES && b.At("userspace") == YES && b.At("target_match") == YES
    ensures b.At("macos_boot_verified") == YES && b.At("guest_kernel_major") == Int(target)
  {
    Obj(map[
      "xnu_executed" := YES, "userspace" := YES, "target_match" := YES, "macos_boot_verified" := YES,
      "guest_kernel_major" := Int(target)])
  }

  function Claims(): (c: Value)
    ensures c.At("xnu_executed") == YES && c.At("macos_userspace_reached") == YES && c.At("macos_boot_verified") == YES
  {
    Obj(map["xnu_executed" := YES, "macos_userspace_reached" := YES, "macos_boot_verified" := YES])
  }

  function Handoff(target: u16): (h: Value)
    ensures h.At("schema") == Str(HANDOFF_SCHEMA) && h.At("valid") == YES && h.At("mode") == Str("recovery")
    ensures h.At("target_major") == Int(target) && h.At("claims") == Claims()
  {
    Obj(map[
      "schema" := Str(HANDOFF_SCHEMA), "valid" := YES, "mode" := Str("recovery"), "target_major" := Int(target),
      "claims" := Claims()])
  }

  /** The prompt of stage 2 at byte 20. */
  function Stage2(): (s: Value)
    ensures s.At("observed") == YES && s.At("byte_offset") == Int(20) && s.At("panic_observed") == Null
  {
    Obj(map["observed" := YES, "byte_offset" := Int(20)])
  }

  function RoleStep(role: string): (s: Value)
    ensures Completes(s, role)
  {
    Obj(map["role" := Str(role), "upload" := One("transfer_complete", YES)])
  }

  function FourRoles(): (steps: Value)
    ensures UploadedRoles(steps)[0] && UploadedRoles(steps)[1] && UploadedRoles(steps)[2] && UploadedRoles(steps)[3]
  {
    var steps := [RoleStep(ROLES[0]), RoleStep(ROLES[1]), RoleStep(ROLES[2]), RoleStep(ROLES[3])];
    assert steps[0] in steps && steps[1] in steps && steps[2] in steps && steps[3] in steps;
    Arr(steps)
  }

  function RestoreChain(steps: Value): (c: Value)
    ensures c.At("sequence_sent") == YES && c.At("input_integrity") == YES && c.At("bootx_acknowledged") == YES
    ensures c.At("steps") == steps && c.At("post_bootx_panic") == Null
  {
    Obj(map["sequence_sent" := YES, "input_integrity" := YES, "bootx_acknowledged" := YES, "steps" := steps])
  }

  /** The larger parts of a launch record. */
  datatype Parts = Parts(dfu: Value, transition: Value, stage2: Value, chain: Value, handoff: Value, markers: Value)

  function RecordOf(target: u16, parts: Parts): Value {
    Obj(map[
      "schema" := Str(LAUNCH_SCHEMA),
      "target_major" := Int(target),
      "output" := Str("/run"),
      "machine_type" := Str("iBoot(AArch64)"),
      "personality" := Str("iBoot"),
      "guest_os" := Str("macOS"),
      "boot_mode" := Str("recovery"),
      "runtime_started" := YES,
      "pid" := Int(3),
      "dfu_upload" := parts.dfu,
      "transition" := parts.transition,
      "stage2" := parts.stage2,
      "restore_chain" := parts.chain,
      "input_integrity" := YES,
      "xnu_executed" := YES,
      "macos_userspace_reached" := YES,
      "guest_kernel_major" := Int(target),
      "guest_target_match" := YES,
      "macos_boot_verified" := YES,
      "iboot_xnu_handoff" := parts.handoff,
      "observed_markers" := parts.markers])
  }

  lemma RecordNames(target: u16, parts: Parts)
    ensures var raw := RecordOf(target, parts);
            && raw.At("schema") == Str(LAUNCH_SCHEMA) && raw.At("target_major") == Int(target)
            && raw.At("output") == Str("/run")
  {
    hide Rank, Int;
    LaunchRanks();
  }

  lemma RecordPlatform(target: u16, parts: Parts)
    ensures var raw := RecordOf(target, parts);
            && raw.At("machine_type") == Str("iBoot(AArch64)") && raw.At("personality") == Str("iBoot")
            && raw.At("guest_os") == Str("macOS") && raw.At("boot_mode") == Str("recovery")
  {
    hide Rank, Int;
    LaunchRanks();
  }

  lemma RecordParts(target: u16, parts: Parts)
    ensures var raw := RecordOf(target, parts);
            && raw.At("dfu_upload") == parts.dfu && raw.At("transition") == parts.transition
            && raw.At("stage2") == parts.stage2 && raw.At("restore_chain") == parts.chain
            && raw.At("iboot_xnu_handoff") == parts.handoff && raw.At("observed_markers") == parts.markers
  {
    hide Rank, Int;
    LaunchRanks();
  }

  lemma RecordClaims(target: u16, parts: Parts)
    ensures var raw := RecordOf(target, parts);
            && raw.At("runtime_started") == YES && raw.At("pid") == Int(3) && raw.At("xnu_executed") == YES
            && raw.At("macos_userspace_reached") == YES && raw.At("guest_kernel_major") == Int(target)
            && raw.At("guest_target_match") == YES
  {
    hide Rank, Int;
    LaunchRanks();
  }

  lemma RecordIsClean(target: u16, parts: Parts)
    ensures var raw := RecordOf(target, parts);
            && raw.At("macos_boot_verified") == YES && raw.At("input_integrity") == YES
            && raw.At("error") == Null && raw.At("guest_panic") == Null && raw.Get("observation") == None
  {
    hide Rank, Int;
    LaunchRanks();
  }

  function LaunchReport(raw: Value): (l: Value)
    ensures l.At("raw_schema") == Str(LAUNCH_SCHEMA) && l.At("identity_valid") == YES && l.At("complete") == YES
    ensures l.At("runtime_pid_observed") == YES && l.At("raw") == raw
  {
    Obj(map[
      "raw_schema" := Str(LAUNCH_SCHEMA), "identity_valid" := YES, "complete" := YES, "runtime_pid_observed" := YES,
      "raw" := raw])
  }

  /** The receipt around its larger parts. It names the requested output if that is text. */
  function ReceiptOf(request: RunnerRequest, worker: Value, cleanup: Value, launch: Value, boot: Value): Value {
    Obj(map[
      "schema" := Str(SUPERVISOR_SCHEMA),
      "target_major" := Int(request.targetMajor),
      "requested_output" := if request.output.TextPath? then Str(request.output.text) else Null,
      "output" := Str("/run"),
      "worker" := worker,
      "cleanup" := cleanup,
      "input_integrity" := One("unchanged", YES),
      "deadline" := One("exceeded", Bool(false)),
      "cancel" := One("requested", Bool(false)),
      "launch_report" := launch,
      "boot" := boot])
  }

  lemma ReceiptNames(request: RunnerRequest, worker: Value, cleanup: Value, launch: Value, boot: Value)
    ensures var env := ReceiptOf(request, worker, cleanup, launch, boot);
            && env.At("schema") == Str(SUPERVISOR_SCHEMA)
            && env.At("target_major") == Int(request.targetMajor)
            && env.At("requested_output") == (if request.output.TextPath? then Str(request.output.text) else Null)
            && env.At("output") == Str("/run")
            && env.At("error") == Null
  {
    hide Rank, Int, One;
    ReceiptRanks();
  }

  lemma ReceiptParts(request: RunnerRequest, worker: Value, cleanup: Value, launch: Value, boot: Value)
    ensures var env := ReceiptOf(request, worker, cleanup, launch, boot);
            && env.At("worker") == worker && env.At("cleanup") == cleanup && env.At("launch_report") == launch
            && env.At("boot") == boot
            && env.At("input_integrity").At("unchanged") == YES
            && env.At("deadline").At("exceeded") == Bool(false)
            && env.At("cancel").At("requested") == Bool(false)
  {
    hide Rank, Int, One;
    ReceiptRanks();
  }

  // ----- The receipt meets every condition -----

  /** The target's kernel is at byte 100 and userspace at byte 200. */
  function PartsFor(target: u16): Parts {
    Parts(
      One("transfer_complete", YES), One("state", Str("ibec-ready")), Stage2(), RestoreChain(FourRoles()),
      Handoff(target), MarkersWith(Arr([KernelMarker(100, target)]), 200))
  }

  function Record(target: u16): Value {
    RecordOf(target, PartsFor(target))
  }

  /** The receipt of a run of `request` whose output lies at /run. */
  function Receipt(request: RunnerRequest): Value {
    ReceiptOf(
      request, Worker(), CleanExit(), LaunchReport(Record(request.targetMajor)), Boot(request.targetMajor))
  }

  lemma ReceiptRaw(request: RunnerRequest)
    ensures Raw(Receipt(request)) == Record(request.targetMajor)
    ensures Observation(Receipt(request)) == Record(request.targetMajor)
  {
    hide ReceiptOf, RecordOf, PartsFor, Worker, CleanExit, Boot, LaunchReport;
    ReceiptParts(request, Worker(), CleanExit(), LaunchReport(Record(request.targetMajor)), Boot(request.targetMajor));
    RecordIsClean(request.targetMajor, PartsFor(request.targetMajor));
  }

  lemma ReceiptIdentity(request: RunnerRequest)
    ensures Identity(request, Receipt(request)) && CanonicalOutput(Receipt(request)) == Some("/run")
  {
    hide ReceiptOf, Worker, CleanExit, Boot, LaunchReport, Record;
    ReceiptNames(request, Worker(), CleanExit(), LaunchReport(Record(request.targetMajor)), Boot(request.targetMajor));
  }

  lemma ReceiptLaunch(request: RunnerRequest)
    ensures LaunchIdentity(request, Receipt(request))
  {
    hide ReceiptOf, RecordOf, PartsFor, Worker, CleanExit, Boot, LaunchReport, Identity, CanonicalOutput;
    ReceiptIdentity(request);
    ReceiptParts(request, Worker(), CleanExit(), LaunchReport(Record(request.targetMajor)), Boot(request.targetMajor));
    RecordNames(request.targetMajor, PartsFor(request.targetMajor));
    RecordPlatform(request.targetMajor, PartsFor(request.targetMajor));
  }

  lemma ReceiptRuns(request: RunnerRequest)
    ensures Runtime(request, Receipt(request))
  {
    hide ReceiptOf, RecordOf, PartsFor, Worker, CleanExit, Boot, LaunchReport, LaunchIdentity, Qemu;
    ReceiptLaunch(request);
    ReceiptParts(request, Worker(), CleanExit(), LaunchReport(Record(request.targetMajor)), Boot(request.targetMajor));
    RecordClaims(request.targetMajor, PartsFor(request.targetMajor));
    assert SoleOwner([Qemu()], 0, Some(3));
    OnlyProcessExact([Qemu()], Some(3), Some(2));
  }

  lemma ReceiptEnds(request: RunnerRequest)
    ensures var env := Receipt(request);
            Cleanup(request, env) && Intact(request, env) && Complete(env) && Uninterrupted(env)
  {
    hide ReceiptOf, Record, Worker, CleanExit, Boot, LaunchReport, Identity;
    ReceiptIdentity(request);
    ReceiptParts(request, Worker(), CleanExit(), LaunchReport(Record(request.targetMajor)), Boot(request.targetMajor));
  }

  lemma BootMarkersAreFound(target: u16)
    ensures var markers := MarkersWith(Arr([KernelMarker(100, target)]), 200);
            && XnuOffset(markers, XnuOf(target)) == Some(100)
            && UserspaceOffset(markers, Some(100)).Some?
  {
    hide MarkersWith, KernelMarker, UserspaceMarker;
    var markers := MarkersWith(Arr([KernelMarker(100, target)]), 200);
    var kernel, userspace := KernelMarker(100, target), UserspaceMarker(200);
    assert Seen(markers.At("xnu"), XnuOf(target), 100) by {
      assert kernel in markers.At("xnu").items;
    }
    assert forall m <- markers.At("xnu").items :: m == kernel;
    assert Seen(markers.At("userspace"), Userspace, 200) by {
      assert userspace in markers.At("userspace").items;
    }
    XnuOffsetExact(markers, XnuOf(target));
    UserspaceExact(markers, XnuOf(target));
  }

  lemma ReceiptMarkers(request: RunnerRequest)
    ensures KernelOffset(request, Receipt(request)) == Some(100)
    ensures UserspaceOffset(Markers(Receipt(request)), Some(100)).Some?
  {
    hide Receipt, RecordOf, XnuOffset, UserspaceOffset, MarkersWith, KernelMarker, Observation;
    hide Stage2, RestoreChain, FourRoles, Handoff;
    ReceiptRaw(request);
    RecordParts(request.targetMajor, PartsFor(request.targetMajor));
    BootMarkersAreFound(request.targetMajor);
  }

  lemma ReceiptBoots(request: RunnerRequest)
    ensures Xnu(request, Receipt(request)) && UserspaceReached(request, Receipt(request))
  {
    hide ReceiptOf, RecordOf, PartsFor, Worker, CleanExit, Boot, LaunchReport, Runtime, UserspaceOffset, KernelOffset;
    hide Markers, Raw, Observation;
    var target := request.targetMajor;
    ReceiptRuns(request);
    ReceiptRaw(request);
    ReceiptMarkers(request);
    ReceiptParts(request, Worker(), CleanExit(), LaunchReport(Record(target)), Boot(target));
    RecordClaims(target, PartsFor(target));
  }

  lemma ReceiptMatches(request: RunnerRequest)
    ensures TargetMatch(request, Receipt(request))
  {
    hide ReceiptOf, RecordOf, PartsFor, Worker, CleanExit, Boot, LaunchReport, Xnu, UserspaceReached, Raw, Observation;
    var target := request.targetMajor;
    ReceiptBoots(request);
    ReceiptRaw(request);
    ReceiptParts(request, Worker(), CleanExit(), LaunchReport(Record(target)), Boot(target));
    RecordClaims(target, PartsFor(target));
  }

  lemma ReceiptSections(request: RunnerRequest)
    ensures var raw := Raw(Receipt(request));
            && raw.At("dfu_upload") == One("transfer_complete", YES)
            && raw.At("transition") == One("state", Str("ibec-ready"))
            && raw.At("stage2") == Stage2()
            && raw.At("restore_chain") == RestoreChain(FourRoles())
            && raw.At("guest_panic") == Null
  {
    hide Receipt, RecordOf, Raw, Observation, One, Stage2, RestoreChain, FourRoles, Handoff, MarkersWith, KernelMarker;
    var target := request.targetMajor;
    ReceiptRaw(request);
    RecordParts(target, PartsFor(target));
    RecordIsClean(target, PartsFor(target));
  }

  lemma ReceiptProgress(request: RunnerRequest)
    ensures var p := Progress(request, Receipt(request));
            && p.dfuUploadCompleted && p.ibecEndpointAdvertised && p.stage2PromptObserved && p.restoreSequenceSent
            && p.bootxAcknowledged && !p.firmwarePanicObserved
    ensures Raw(Receipt(request)).At("stage2").At("byte_offset").AsU64() == Some(20)
  {
    hide Receipt, Runtime, Raw, One, Stage2, RestoreChain, FourRoles, UploadedRoles, CountTrue;
    ReceiptRuns(request);
    ReceiptSections(request);
  }

  lemma ReceiptHandsOff(request: RunnerRequest)
    ensures HandoffIdentity(request, Receipt(request))
    ensures Raw(Receipt(request)).At("iboot_xnu_handoff").At("claims") == Claims()
  {
    hide Receipt, RecordOf, Raw, Stage2, RestoreChain, FourRoles, Handoff, MarkersWith, KernelMarker, One;
    ReceiptRaw(request);
    RecordParts(request.targetMajor, PartsFor(request.targetMajor));
  }

  lemma ReceiptIsClean(request: RunnerRequest)
    ensures var env := Receipt(request);
            && Raw(env).At("input_integrity").IsTrue() && Raw(env).At("error").Null? && env.At("error").Null?
            && Raw(env).At("macos_boot_verified").IsTrue() && env.At("boot").At("macos_boot_verified").IsTrue()
  {
    hide ReceiptOf, RecordOf, PartsFor, Worker, CleanExit, Boot, LaunchReport, Raw;
    var target := request.targetMajor;
    ReceiptRaw(request);
    ReceiptNames(request, Worker(), CleanExit(), LaunchReport(Record(target)), Boot(target));
    ReceiptParts(request, Worker(), CleanExit(), LaunchReport(Record(target)), Boot(target));
    RecordIsClean(target, PartsFor(target));
  }

  /** For every recovery request there is a verified receipt; it names the requested output only if that is text. */
  lemma ReceiptIsVerified(request: RunnerRequest)
    ensures Evaluate(request, Some(0), Success(Receipt(request))).macosBootVerified
    ensures Receipt(request).At("requested_output") ==
            if request.output.TextPath? then Str(request.output.text) else Null
  {
    hide Receipt, Progress, Runtime, Cleanup, Intact, Xnu, UserspaceReached, TargetMatch, Complete, Uninterrupted;
    hide HandoffIdentity, KernelOffset, Raw;
    ReceiptRuns(request);
    ReceiptEnds(request);
    ReceiptBoots(request);
    ReceiptMatches(request);
    ReceiptMarkers(request);
    ReceiptProgress(request);
    ReceiptHandsOff(request);
    ReceiptIsClean(request);
    ReceiptNamesOutput(request);
  }

  lemma ReceiptNamesOutput(request: RunnerRequest)
    ensures Receipt(request).At("requested_output") ==
            if request.output.TextPath? then Str(request.output.text) else Null
  {
    hide ReceiptOf, Worker, CleanExit, Boot, LaunchReport, Record;
    ReceiptNames(request, Worker(), CleanExit(), LaunchReport(Record(request.targetMajor)), Boot(request.targetMajor));
  }
}
