/** The verdict on a recovery supervisor receipt, which wraps the original launch report. */
module RecoveryVerdict {
  import opened Wrappers
  import opened Bytes
  import opened Json
  import opened Request
  import opened Evidence

  const SUPERVISOR_SCHEMA := "nextcore.recovery-supervisor/1"
  const LAUNCH_SCHEMA := "26x86.vmapple-gui/1"
  const HANDOFF_SCHEMA := "26x86.iboot-xnu-handoff/1"

  function Raw(env: Value): Value {
    env.At("launch_report").At("raw")
  }

  function CanonicalOutput(env: Value): Option<string> {
    var path := env.At("output").AsStr();
    if path.Some? && |path.value| > 0 && path.value[0] == '/' && '\0' !in path.value then path else None
  }

  predicate Identity(request: RunnerRequest, env: Value) {
    && env.At("schema").AsStr() == Some(SUPERVISOR_SCHEMA)
    && env.At("target_major").AsU64() == Some(request.targetMajor)
    && env.At("requested_output").AsStr() == request.output.ToStr()
    && CanonicalOutput(env).Some?
  }

  predicate LaunchIdentity(request: RunnerRequest, env: Value) {
    var raw := Raw(env);
    && Identity(request, env)
    && env.At("launch_report").At("raw_schema").AsStr() == Some(LAUNCH_SCHEMA)
    && env.At("launch_report").At("identity_valid").IsTrue()
    && raw.At("schema").AsStr() == Some(LAUNCH_SCHEMA)
    && raw.At("target_major").AsU64() == Some(request.targetMajor)
    && raw.At("output").AsStr() == CanonicalOutput(env)
    && raw.At("machine_type").AsStr() == Some("iBoot(AArch64)")
    && raw.At("personality").AsStr() == Some("iBoot")
    && raw.At("guest_os").AsStr() == Some("macOS")
    && raw.At("boot_mode").AsStr() == Some("recovery")
  }

  predicate PidObserved(env: Value) {
    var workerPid := ValidPid(env.At("worker").At("pid"));
    var qemuPid := ValidPid(Raw(env).At("pid"));
    var processes := env.At("worker").At("observed_processes").AsArray();
    && workerPid.Some? && qemuPid.Some? && workerPid != qemuPid
    && env.At("worker").At("process_inventory_complete").IsTrue()
    && env.At("launch_report").At("runtime_pid_observed").IsTrue()
    && processes.Some? && OnlyProcess(processes.value, qemuPid, workerPid)
  }

  predicate Runtime(request: RunnerRequest, env: Value) {
    LaunchIdentity(request, env) && Raw(env).At("runtime_started").IsTrue() && PidObserved(env)
  }

  predicate Cleanup(request: RunnerRequest, env: Value) {
    var cleanup := env.At("cleanup");
    && Identity(request, env)
    && cleanup.At("complete").IsTrue()
    && cleanup.At("leader_reaped").IsTrue()
    && cleanup.At("remaining_pids").AsArray() == Some([])
  }

  predicate Intact(request: RunnerRequest, env: Value) {
    Identity(request, env) && env.At("input_integrity").At("unchanged").IsTrue()
  }

  function Steps(env: Value): Value {
    Raw(env).At("restore_chain").At("steps")
  }

  function Progress(request: RunnerRequest, env: Value): RecoveryProgress {
    if !Runtime(request, env) then NO_PROGRESS
    else
      var raw := Raw(env);
      var roles := UploadedRoles(Steps(env));
      RecoveryProgress(
        raw.At("dfu_upload").At("transfer_complete").IsTrue(),
        raw.At("transition").At("state").AsStr() == Some("ibec-ready"),
        && raw.At("stage2").At("stage2_serial_started").IsTrue()
        && raw.At("stage2").At("stage2_serial_start_byte_offset").AsU64().Some?,
        raw.At("stage2").At("observed").IsTrue() && raw.At("stage2").At("byte_offset").AsU64().Some?,
        && raw.At("restore_chain").At("sequence_sent").IsTrue()
        && raw.At("restore_chain").At("input_integrity").IsTrue()
        && roles[0] && roles[1] && roles[2] && roles[3],
        CountTrue(roles),
        raw.At("restore_chain").At("bootx_acknowledged").IsTrue(),
        || raw.At("guest_panic").At("observed").IsTrue()
        || raw.At("stage2").At("panic_observed").IsTrue()
        || raw.At("restore_chain").At("post_bootx_panic").IsTrue())
  }

  /** All marker and major claims come from this one observation. */
  function Observation(env: Value): Value {
    var raw := Raw(env);
    if raw.Get("observation").Some? && raw.Get("observation").value.Obj? then raw.Get("observation").value else raw
  }

  function Markers(env: Value): Value {
    Observation(env).At("observed_markers")
  }

  function KernelOffset(request: RunnerRequest, env: Value): Option<u64> {
    XnuOffset(Markers(env), XnuOf(request.targetMajor))
  }

  predicate HandoffIdentity(request: RunnerRequest, env: Value) {
    var handoff := Raw(env).At("iboot_xnu_handoff");
    && handoff.At("schema").AsStr() == Some(HANDOFF_SCHEMA)
    && handoff.At("valid").IsTrue()
    && handoff.At("mode").AsStr() == Some("recovery")
    && handoff.At("target_major").AsU64() == Some(request.targetMajor)
  }

  predicate Xnu(request: RunnerRequest, env: Value) {
    && Runtime(request, env)
    && KernelOffset(request, env).Some?
    && Raw(env).At("xnu_executed").IsTrue()
    && Observation(env).At("xnu_executed").IsTrue()
    && env.At("boot").At("xnu_executed").IsTrue()
  }

  predicate UserspaceReached(request: RunnerRequest, env: Value) {
    && Xnu(request, env)
    && UserspaceOffset(Markers(env), KernelOffset(request, env)).Some?
    && Observation(env).At("macos_userspace_reached").IsTrue()
    && env.At("boot").At("userspace").IsTrue()
  }

  predicate TargetMatch(request: RunnerRequest, env: Value) {
    && Xnu(request, env)
    && Raw(env).At("guest_kernel_major").AsU64() == Some(request.targetMajor)
    && Observation(env).At("guest_kernel_major").AsU64() == Some(request.targetMajor)
    && env.At("boot").At("guest_kernel_major").AsU64() == Some(request.targetMajor)
    && Raw(env).At("guest_target_match").IsTrue()
    && Observation(env).At("guest_target_match").IsTrue()
    && env.At("boot").At("target_match").IsTrue()
  }

  predicate Complete(env: Value) {
    && env.At("launch_report").At("complete").IsTrue()
    && env.At("worker").At("completed").IsTrue()
    && env.At("worker").At("returncode").AsI64() == Some(0)
  }

  predicate Uninterrupted(env: Value) {
    && env.At("deadline").At("exceeded").AsBool() == Some(false)
    && env.At("cancel").At("requested").AsBool() == Some(false)
  }

  predicate Stage2First(request: RunnerRequest, env: Value) {
    var stage2 := Raw(env).At("stage2").At("byte_offset").AsU64();
    stage2.Some? && KernelOffset(request, env).Some? && stage2.value < KernelOffset(request, env).value
  }

  predicate Verified(request: RunnerRequest, exit: Option<int>, env: Value) {
    var raw, progress := Raw(env), Progress(request, env);
    var claims := raw.At("iboot_xnu_handoff").At("claims");
    && exit == Some(0)
    && Complete(env)
    && Uninterrupted(env)
    && Runtime(request, env) && Cleanup(request, env)
    && Intact(request, env)
    && Xnu(request, env)
    && UserspaceReached(request, env)
    && TargetMatch(request, env)
    && raw.At("input_integrity").IsTrue()
    && raw.At("error").Null?
    && env.At("error").Null?
    && raw.At("macos_boot_verified").IsTrue()
    && env.At("boot").At("macos_boot_verified").IsTrue()
    && HandoffIdentity(request, env)
    && claims.At("xnu_executed").IsTrue()
    && claims.At("macos_userspace_reached").IsTrue()
    && claims.At("macos_boot_verified").IsTrue()
    && progress.dfuUploadCompleted
    && progress.ibecEndpointAdvertised
    && progress.stage2PromptObserved
    && progress.restoreSequenceSent
    && progress.bootxAcknowledged
    && !progress.firmwarePanicObserved
    && Stage2First(request, env)
  }

  function FirstText(values: seq<Value>, otherwise: string): string {
    if values == [] then otherwise
    else if values[0].Str? then values[0].s
    else FirstText(values[1..], otherwise)
  }

  const UNVERIFIED := "recovery completed-unverified: target-matching XNU/userspace evidence is incomplete"

  /** Where a receipt may name its own error. */
  function OwnErrors(env: Value): (errors: seq<Value>)
    ensures |errors| == 4
  {
    var raw := Raw(env);
    [env.At("error"), raw.At("error"), raw.At("transition_blocker"), raw.At("golden_gate_installation").At("blocker")]
  }

  /** The links of the receipt in the order in which they are blamed, and what is said of each. */
  function Links(request: RunnerRequest, env: Value): (links: seq<bool>)
    ensures |links| == 5
  {
    [Identity(request, env) && LaunchIdentity(request, env), Runtime(request, env), Cleanup(request, env),
     Intact(request, env), Uninterrupted(env)]
  }

  const BLAMES := [
    "recovery receipt has no matching supervisor/launch identity",
    "recovery QEMU process identity was not observed in this run",
    "Linux guest process cleanup is unconfirmed",
    "original recovery input integrity is unconfirmed",
    "recovery was cancelled or exceeded its deadline"]

  /** An intact receipt that names no error of its own is merely unverified. */
  function Reason(request: RunnerRequest, env: Value): string {
    Blame(Links(request, env), BLAMES, FirstText(OwnErrors(env), UNVERIFIED))
  }

  function Evaluate(request: RunnerRequest, exit: Option<int>, parsed: Result<Value, string>): RunOutcome {
    var env := Received(parsed);
    RunOutcome(
      exit,
      request.backend.Engine(),
      Runtime(request, env),
      Runtime(request, env) && Cleanup(request, env),
      Xnu(request, env),
      UserspaceReached(request, env),
      TargetMatch(request, env),
      Intact(request, env),
      Verified(request, exit, env),
      Some(Progress(request, env)),
      if parsed.Success? then Some(parsed.value) else None,
      if Verified(request, exit, env) then None
      else if parsed.Failure? then Some(parsed.error)
      else Some(Reason(request, env)))
  }

  /**
   Stage 2 at `s`, the target's kernel first at `x` and userspace at `u`, in this order and in the one observation.
   */
  ghost predicate BootOrder(request: RunnerRequest, env: Value, s: u64, x: u64, u: u64) {
    var kind := XnuOf(request.targetMajor);
    && s < x < u
    && Raw(env).At("stage2").At("byte_offset").AsU64() == Some(s)
    && Seen(Markers(env).At("xnu"), kind, x)
    && Seen(Markers(env).At("userspace"), Userspace, u)
    && forall o: u64 :: Seen(Markers(env).At("xnu"), kind, o) ==> x <= o
  }

  /**
   A verified recovery boot is causal: stage 2 lies strictly below every recognised kernel marker of the target's major,
   there is such a marker, and a recognised userspace marker lies above the smallest of them, all in one observation.
   */
  lemma VerifiedIsCausal(request: RunnerRequest, exit: Option<int>, parsed: Result<Value, string>)
    requires Evaluate(request, exit, parsed).macosBootVerified
    ensures exit == Some(0) && parsed.Success?
    ensures exists s: u64, x: u64, u: u64 :: BootOrder(request, parsed.value, s, x, u)
  {
    hide Progress, LaunchIdentity, PidObserved, HandoffIdentity, TargetMatch;
    var env := Received(parsed);
    var kind := XnuOf(request.targetMajor);
    XnuOffsetExact(Markers(env), kind);
    UserspaceExact(Markers(env), kind);
    var s := Raw(env).At("stage2").At("byte_offset").AsU64().value;
    var x := KernelOffset(request, env).value;
    var u := UserspaceOffset(Markers(env), KernelOffset(request, env)).value;
    assert BootOrder(request, env, s, x, u);
  }

  /** Each flag rests on the one before it, down to both identities. */
  lemma FlagsFormAChain(request: RunnerRequest, exit: Option<int>, parsed: Result<Value, string>)
    ensures var o := Evaluate(request, exit, parsed);
            && (o.macosBootVerified ==>
                 o.macosUserspaceReached && o.guestTargetMatch && o.guestProcessTerminated && o.inputIntegrity)
            && (o.macosUserspaceReached || o.guestTargetMatch ==> o.xnuExecuted)
            && (o.xnuExecuted || o.guestProcessTerminated ==> o.guestRuntimeStarted)
            && (o.guestRuntimeStarted ==>
                 Identity(request, Received(parsed)) && LaunchIdentity(request, Received(parsed)))
  {
  }

  /**
   A started runtime is one identified process: exactly one observed entry carries QEMU's pid, which is not the
   worker's, and that entry runs in the worker's session with a positive start time.
   */
  lemma RuntimeIsOneProcess(request: RunnerRequest, exit: Option<int>, parsed: Result<Value, string>)
    requires Evaluate(request, exit, parsed).guestRuntimeStarted
    ensures parsed.Success?
    ensures var env := parsed.value;
            var qemu, worker := Raw(env).At("pid").AsU64(), env.At("worker").At("pid").AsU64();
            var processes := env.At("worker").At("observed_processes");
            && qemu.Some? && worker.Some? && qemu != worker
            && 0 < qemu.value <= U32_MAX && 0 < worker.value <= U32_MAX
            && processes.Arr?
            && exists i: nat :: SoleOwner(processes.items, i, qemu) && RunsIn(processes.items[i], worker)
  {
    var env := Received(parsed);
    OnlyProcessExact(
      env.At("worker").At("observed_processes").items, Raw(env).At("pid").AsU64(), env.At("worker").At("pid").AsU64());
  }

  /** Progress is reported only for a started runtime, and then counts the distinct roles uploaded. */
  lemma ProgressCountsRoles(request: RunnerRequest, exit: Option<int>, parsed: Result<Value, string>)
    ensures var o := Evaluate(request, exit, parsed);
            && o.recoveryProgress.Some?
            && o.recoveryProgress.value.restoreRoleStepCount ==
               (if o.guestRuntimeStarted then |CompletedRoles(Steps(Received(parsed)))| else 0)
            && (!o.guestRuntimeStarted ==> o.recoveryProgress.value == NO_PROGRESS)
            && (o.macosBootVerified ==> forall i :: 0 <= i < 4 ==> ROLES[i] in CompletedRoles(Steps(Received(parsed))))
  {
    hide Verified, Runtime, Progress, Xnu, UserspaceReached, TargetMatch, Cleanup, Intact;
    var env := Received(parsed);
    RolesReported(request, env);
    if Verified(request, exit, env) {
      VerifiedUploadsRoles(request, exit, env);
    }
  }

  lemma RolesReported(request: RunnerRequest, env: Value)
    ensures Progress(request, env).restoreRoleStepCount ==
            if Runtime(request, env) then |CompletedRoles(Steps(env))| else 0
    ensures !Runtime(request, env) ==> Progress(request, env) == NO_PROGRESS
  {
    hide Runtime, UploadedRoles, CompletedRoles;
    RoleCountExact(Steps(env));
  }

  lemma VerifiedUploadsRoles(request: RunnerRequest, exit: Option<int>, env: Value)
    requires Verified(request, exit, env)
    ensures forall i :: 0 <= i < 4 ==> ROLES[i] in CompletedRoles(Steps(env))
  {
    hide Runtime, Xnu, UserspaceReached, TargetMatch, Cleanup, CountTrue;
    hide Intact, Stage2First, HandoffIdentity, Complete, Uninterrupted;
  }

  /**
   A readable receipt with a broken link is blamed on the first one. Unless an intact receipt words its own error like
   that, the reason identifies the link.
   */
  lemma FirstBrokenLinkIsBlamed(request: RunnerRequest, exit: Option<int>, report: Value, k: nat)
    requires k < 5
    ensures var failure, broken :=
              Evaluate(request, exit, Success(report)).failure, FirstBroken(Links(request, report), k);
            && (broken ==> failure == Some(BLAMES[k]))
            && (failure == Some(BLAMES[k]) && Str(BLAMES[k]) !in OwnErrors(report) ==> broken)
  {
    hide Blame, FirstBroken, Links, Verified, Progress, Runtime;
    hide Cleanup, Intact, Xnu, UserspaceReached, TargetMatch, OwnErrors;
    BlamesDiffer();
    FirstTextIsOneOf(OwnErrors(report), UNVERIFIED);
    BlameExact(Links(request, report), BLAMES, FirstText(OwnErrors(report), UNVERIFIED), k);
    if FirstBroken(Links(request, report), k) {
      BrokenIsUnverified(request, exit, report, k);
    }
  }

  lemma BrokenIsUnverified(request: RunnerRequest, exit: Option<int>, env: Value, k: nat)
    requires FirstBroken(Links(request, env), k)
    ensures !Verified(request, exit, env)
  {
    hide Progress, PidObserved, Xnu, UserspaceReached, TargetMatch, HandoffIdentity, Stage2First, Complete;
    assert k == 0 || k == 1 || k == 2 || k == 3 || k == 4;
  }

  lemma BlamesDiffer()
    ensures forall i, j :: 0 <= i < j < 5 ==> BLAMES[i] != BLAMES[j]
    ensures UNVERIFIED !in BLAMES
  {
    assert |BLAMES[0]| == 59 && |BLAMES[1]| == 59 && |BLAMES[2]| == 42 && |BLAMES[3]| == 48 && |BLAMES[4]| == 47;
    assert BLAMES[0][58] == 'y' && BLAMES[1][58] == 'n' && |UNVERIFIED| == 83;
  }

  /** With every link intact, an unverified receipt is quoted: its first textual error, wherever it names one. */
  lemma IntactReceiptIsQuoted(request: RunnerRequest, exit: Option<int>, report: Value, k: nat)
    requires k <= 4 && forall j :: 0 <= j < 5 ==> Links(request, report)[j]
    requires k < 4 ==> OwnErrors(report)[k].Str?
    requires forall j :: 0 <= j < k ==> !OwnErrors(report)[j].Str?
    ensures var o := Evaluate(request, exit, Success(report));
            !o.macosBootVerified ==> o.failure == Some(if k < 4 then OwnErrors(report)[k].s else UNVERIFIED)
  {
    hide Blame, Links, Verified, Progress, Runtime, Cleanup, Intact, Xnu, UserspaceReached, TargetMatch, OwnErrors;
    BlamesDiffer();
    BlameExact(Links(request, report), BLAMES, FirstText(OwnErrors(report), UNVERIFIED), 0);
    FirstTextExact(OwnErrors(report), UNVERIFIED, k);
  }

  lemma {:induction false} FirstTextIsOneOf(values: seq<Value>, otherwise: string)
    ensures FirstText(values, otherwise) == otherwise || Str(FirstText(values, otherwise)) in values
  {
    if values != [] && !values[0].Str? {
      FirstTextIsOneOf(values[1..], otherwise);
    }
  }

  lemma {:induction false} FirstTextExact(values: seq<Value>, otherwise: string, k: nat)
    requires k <= |values| && (k < |values| ==> values[k].Str?)
    requires forall j :: 0 <= j < k ==> !values[j].Str?
    ensures FirstText(values, otherwise) == if k < |values| then values[k].s else otherwise
  {
    if k > 0 {
      FirstTextExact(values[1..], otherwise, k - 1);
    }
  }
}
