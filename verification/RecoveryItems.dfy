/**
 The recovery verdict item by item: for every flag, exactly which values of the receipt raise it. The receipt is read
 only with `At`, and no predicate of the evaluator is used to say what it does, except for the markers that
 `Evidence.SeenInFull` spells out.
 */
module RecoveryItems {
  import opened Wrappers
  import opened Bytes
  import opened Json
  import opened Request
  import opened Evidence
  import opened RecoveryVerdict

  // ----- Identity -----

  lemma IdentityInFull(request: RunnerRequest, r: Value)
    ensures Identity(request, r) <==>
              && r.At("schema") == Str("nextcore.recovery-supervisor/1")
              && r.At("target_major") == Num(PosInt(request.targetMajor))
              && (if request.output.TextPath? then r.At("requested_output") == Str(request.output.text)
                  else !r.At("requested_output").Str?)
              && r.At("output").Str? && r.At("output").s != "" && r.At("output").s[0] == '/'
              && '\0' !in r.At("output").s
  {
    hide Value.At;
  }

  lemma LaunchInFull(request: RunnerRequest, r: Value)
    requires Identity(request, r)
    ensures LaunchIdentity(request, r) <==>
              var launch, raw := r.At("launch_report"), r.At("launch_report").At("raw");
              && launch.At("raw_schema") == Str("26x86.vmapple-gui/1") && launch.At("identity_valid") == Bool(true)
              && raw.At("schema") == Str("26x86.vmapple-gui/1")
              && raw.At("target_major") == Num(PosInt(request.targetMajor))
              && raw.At("output") == r.At("output")
              && raw.At("machine_type") == Str("iBoot(AArch64)") && raw.At("personality") == Str("iBoot")
              && raw.At("guest_os") == Str("macOS") && raw.At("boot_mode") == Str("recovery")
  {
    hide Value.At;
  }

  // ----- Process -----

  lemma ProcessInFull(r: Value)
    ensures PidObserved(r) <==>
              var worker, raw := r.At("worker"), r.At("launch_report").At("raw");
              && worker.At("process_inventory_complete") == Bool(true)
              && r.At("launch_report").At("runtime_pid_observed") == Bool(true)
              && worker.At("observed_processes").Arr?
              && exists w: u32, q: u32, i: nat ::
                   && w != 0 && q != 0 && w != q
                   && worker.At("pid") == Num(PosInt(w)) && raw.At("pid") == Num(PosInt(q))
                   && Owns(worker.At("observed_processes").items, i, w, q)
  {
    hide Value.At, OnlyProcess, Owns;
    var worker, raw := r.At("worker"), r.At("launch_report").At("raw");
    if worker.At("observed_processes").Arr? {
      var items := worker.At("observed_processes").items;
      forall w: u32, q: u32 ensures OnlyProcess(items, Some(q), Some(w)) <==> exists i: nat :: Owns(items, i, w, q) {
        OwnerInFull(items, w, q);
      }
      if PidObserved(r) {
        var w: u32, q: u32 := worker.At("pid").number.n, raw.At("pid").number.n;
        assert OnlyProcess(items, Some(q), Some(w));
      }
    }
  }

  /** Entry `i` alone has the pid `q`, in session `w` and with a positive start time. */
  ghost predicate Owns(items: seq<Value>, i: nat, w: u32, q: u32) {
    && i < |items|
    && items[i].At("session") == Num(PosInt(w))
    && items[i].At("starttime").Num? && items[i].At("starttime").number.PosInt? && items[i].At("starttime").number.n > 0
    && forall j :: 0 <= j < |items| ==> (j == i <==> items[j].At("pid") == Num(PosInt(q)))
  }

  lemma OwnerInFull(items: seq<Value>, w: u32, q: u32)
    ensures OnlyProcess(items, Some(q), Some(w)) <==> exists i: nat :: Owns(items, i, w, q)
  {
    hide Value.At;
    OnlyProcessExact(items, Some(q), Some(w));
    forall i: nat ensures Owns(items, i, w, q) <==> SoleOwner(items, i, Some(q)) && RunsIn(items[i], Some(w)) {
      if i < |items| {
        assert forall j :: 0 <= j < |items| ==> (HasPid(items[j], Some(q)) <==> items[j].At("pid") == Num(PosInt(q)));
      }
    }
  }

  // ----- The flags -----

  /** The runtime is reported exactly for a receipt with both identities, a started launch and one owned process. */
  lemma RuntimeInFull(request: RunnerRequest, exit: Option<int>, r: Value)
    ensures Evaluate(request, exit, Success(r)).guestRuntimeStarted <==>
              var launch, raw := r.At("launch_report"), r.At("launch_report").At("raw");
              && r.At("schema") == Str("nextcore.recovery-supervisor/1")
              && r.At("target_major") == Num(PosInt(request.targetMajor))
              && (if request.output.TextPath? then r.At("requested_output") == Str(request.output.text)
                  else !r.At("requested_output").Str?)
              && r.At("output").Str? && r.At("output").s != "" && r.At("output").s[0] == '/'
              && '\0' !in r.At("output").s
              && launch.At("raw_schema") == Str("26x86.vmapple-gui/1") && launch.At("identity_valid") == Bool(true)
              && raw.At("schema") == Str("26x86.vmapple-gui/1")
              && raw.At("target_major") == Num(PosInt(request.targetMajor))
              && raw.At("output") == r.At("output")
              && raw.At("machine_type") == Str("iBoot(AArch64)") && raw.At("personality") == Str("iBoot")
              && raw.At("guest_os") == Str("macOS") && raw.At("boot_mode") == Str("recovery")
              && raw.At("runtime_started") == Bool(true)
              && r.At("worker").At("process_inventory_complete") == Bool(true)
              && launch.At("runtime_pid_observed") == Bool(true)
              && r.At("worker").At("observed_processes").Arr?
              && exists w: u32, q: u32, i: nat ::
                   && w != 0 && q != 0 && w != q
                   && r.At("worker").At("pid") == Num(PosInt(w)) && raw.At("pid") == Num(PosInt(q))
                   && Owns(r.At("worker").At("observed_processes").items, i, w, q)
  {
    hide Value.At, Identity, PidObserved, Owns, Verified, Reason, Progress, Xnu, UserspaceReached, TargetMatch;
    hide Cleanup, Intact;
    IdentityInFull(request, r);
    ProcessInFull(r);
    if Identity(request, r) {
      LaunchInFull(request, r);
    } else {
      LaunchNeedsIdentity(request, r);
    }
    hide LaunchIdentity;
  }

  lemma LaunchNeedsIdentity(request: RunnerRequest, r: Value)
    ensures LaunchIdentity(request, r) ==> Identity(request, r)
  {
  }

  /** Termination needs a complete cleanup that leaves no process; integrity needs the supervisor's own record. */
  lemma LifecycleInFull(request: RunnerRequest, exit: Option<int>, r: Value)
    ensures var o := Evaluate(request, exit, Success(r));
            && (o.guestProcessTerminated <==>
                 && o.guestRuntimeStarted
                 && r.At("cleanup").At("complete") == Bool(true) && r.At("cleanup").At("leader_reaped") == Bool(true)
                 && r.At("cleanup").At("remaining_pids") == Arr([]))
            && (o.inputIntegrity <==>
                 && r.At("input_integrity").At("unchanged") == Bool(true)
                 && r.At("schema") == Str("nextcore.recovery-supervisor/1")
                 && r.At("target_major") == Num(PosInt(request.targetMajor))
                 && (if request.output.TextPath? then r.At("requested_output") == Str(request.output.text)
                     else !r.At("requested_output").Str?)
                 && r.At("output").Str? && r.At("output").s != "" && r.At("output").s[0] == '/'
                 && '\0' !in r.At("output").s)
  {
    hide Value.At, Identity, LaunchIdentity, PidObserved, Verified, Reason, Progress;
    hide Xnu, UserspaceReached, TargetMatch;
    IdentityInFull(request, r);
    LaunchNeedsIdentity(request, r);
  }

  /** The three boot flags: every claim at each of its places, and markers of the observation in use. */
  lemma BootFlagsInFull(request: RunnerRequest, exit: Option<int>, r: Value)
    ensures var o, raw, boot := Evaluate(request, exit, Success(r)), r.At("launch_report").At("raw"), r.At("boot");
            var seen := if raw.At("observation").Obj? then raw.At("observation") else raw;
            var kernel, userspace := seen.At("observed_markers").At("xnu"), seen.At("observed_markers").At("userspace");
            var target: u64 := request.targetMajor;
            && (o.xnuExecuted <==>
                 && o.guestRuntimeStarted
                 && raw.At("xnu_executed") == Bool(true) && seen.At("xnu_executed") == Bool(true)
                 && boot.At("xnu_executed") == Bool(true)
                 && exists x: u64 :: Seen(kernel, XnuOf(target), x))
            && (o.macosUserspaceReached <==>
                 && o.xnuExecuted
                 && seen.At("macos_userspace_reached") == Bool(true) && boot.At("userspace") == Bool(true)
                 && exists x: u64, u: u64 :: Seen(kernel, XnuOf(target), x) && Seen(userspace, Userspace, u) && x < u)
            && (o.guestTargetMatch <==>
                 && o.xnuExecuted
                 && raw.At("guest_kernel_major") == Num(PosInt(target))
                 && seen.At("guest_kernel_major") == Num(PosInt(target))
                 && boot.At("guest_kernel_major") == Num(PosInt(target))
                 && raw.At("guest_target_match") == Bool(true) && seen.At("guest_target_match") == Bool(true)
                 && boot.At("target_match") == Bool(true))
  {
    hide Value.At, Runtime, Verified, Reason, Progress, XnuOffset, UserspaceOffset, Seen, Cleanup, Intact, Observation;
    var raw := Raw(r);
    ObservationInUse(r);
    XnuOffsetExact(Markers(r), XnuOf(request.targetMajor));
    UserspaceExact(Markers(r), XnuOf(request.targetMajor));
  }

  lemma ObservationInUse(r: Value)
    ensures var raw := r.At("launch_report").At("raw");
            Observation(r) == if raw.At("observation").Obj? then raw.At("observation") else raw
  {
  }

  // ----- Progress -----

  /** Every stage of a started runtime's progress, and nothing for any other. */
  lemma ProgressInFull(request: RunnerRequest, exit: Option<int>, r: Value)
    ensures var o, raw := Evaluate(request, exit, Success(r)), r.At("launch_report").At("raw");
            var stage2, chain := raw.At("stage2"), raw.At("restore_chain");
            && o.recoveryProgress.Some?
            && var p := o.recoveryProgress.value;
            if !o.guestRuntimeStarted then p == RecoveryProgress(false, false, false, false, false, 0, false, false)
            else
              && (p.dfuUploadCompleted <==> raw.At("dfu_upload").At("transfer_complete") == Bool(true))
              && (p.ibecEndpointAdvertised <==> raw.At("transition").At("state") == Str("ibec-ready"))
              && (p.stage2BannerObserved <==>
                   && stage2.At("stage2_serial_started") == Bool(true)
                   && stage2.At("stage2_serial_start_byte_offset").Num?
                   && stage2.At("stage2_serial_start_byte_offset").number.PosInt?)
              && (p.stage2PromptObserved <==>
                   && stage2.At("observed") == Bool(true)
                   && stage2.At("byte_offset").Num? && stage2.At("byte_offset").number.PosInt?)
              && (p.restoreSequenceSent <==>
                   && chain.At("sequence_sent") == Bool(true) && chain.At("input_integrity") == Bool(true)
                   && "RestoreTrustCache" in CompletedRoles(chain.At("steps"))
                   && "RestoreRamDisk" in CompletedRoles(chain.At("steps"))
                   && "RestoreDeviceTree" in CompletedRoles(chain.At("steps"))
                   && "RestoreKernelCache" in CompletedRoles(chain.At("steps")))
              && p.restoreRoleStepCount == |CompletedRoles(chain.At("steps"))|
              && (p.bootxAcknowledged <==> chain.At("bootx_acknowledged") == Bool(true))
              && (p.firmwarePanicObserved <==>
                   || raw.At("guest_panic").At("observed") == Bool(true)
                   || stage2.At("panic_observed") == Bool(true)
                   || chain.At("post_bootx_panic") == Bool(true))
  {
    hide Value.At, Runtime, Verified, Reason, Xnu, UserspaceReached, TargetMatch, Cleanup, Intact;
    hide CompletedRoles, UploadedRoles, CountTrue;
    RolesReported(request, r);
    FirstFourRoles(Steps(r));
  }

  lemma FirstFourRoles(steps: Value)
    ensures UploadedRoles(steps)[0] <==> "RestoreTrustCache" in CompletedRoles(steps)
    ensures UploadedRoles(steps)[1] <==> "RestoreRamDisk" in CompletedRoles(steps)
    ensures UploadedRoles(steps)[2] <==> "RestoreDeviceTree" in CompletedRoles(steps)
    ensures UploadedRoles(steps)[3] <==> "RestoreKernelCache" in CompletedRoles(steps)
  {
    hide Uploaded;
    assert ROLES[0] in ROLES && ROLES[1] in ROLES && ROLES[2] in ROLES && ROLES[3] in ROLES;
  }

  // ----- The verdict -----

  /**
   Exactly the receipts that are verified: the five flags, a clean exit, claims that are true at every place, errors
   that are absent, the stages of the restore, no panic anywhere, and stage 2 below every kernel marker of the target.
   */
  lemma VerifiedInFull(request: RunnerRequest, exit: Option<int>, r: Value)
    ensures var o, raw := Evaluate(request, exit, Success(r)), r.At("launch_report").At("raw");
            var handoff, stage2, chain := raw.At("iboot_xnu_handoff"), raw.At("stage2"), raw.At("restore_chain");
            var seen := if raw.At("observation").Obj? then raw.At("observation") else raw;
            o.macosBootVerified <==>
              && exit == Some(0)
              && o.guestProcessTerminated && o.inputIntegrity && o.xnuExecuted && o.macosUserspaceReached
              && o.guestTargetMatch
              && r.At("launch_report").At("complete") == Bool(true) && r.At("worker").At("completed") == Bool(true)
              && (|| r.At("worker").At("returncode") == Num(PosInt(0))
                  || r.At("worker").At("returncode") == Num(NegInt(0)))
              && r.At("deadline").At("exceeded") == Bool(false) && r.At("cancel").At("requested") == Bool(false)
              && raw.At("error") == Null && r.At("error") == Null
              && raw.At("input_integrity") == Bool(true)
              && raw.At("macos_boot_verified") == Bool(true) && r.At("boot").At("macos_boot_verified") == Bool(true)
              && handoff.At("schema") == Str("26x86.iboot-xnu-handoff/1") && handoff.At("valid") == Bool(true)
              && handoff.At("mode") == Str("recovery")
              && handoff.At("target_major") == Num(PosInt(request.targetMajor))
              && handoff.At("claims").At("xnu_executed") == Bool(true)
              && handoff.At("claims").At("macos_userspace_reached") == Bool(true)
              && handoff.At("claims").At("macos_boot_verified") == Bool(true)
              && raw.At("dfu_upload").At("transfer_complete") == Bool(true)
              && raw.At("transition").At("state") == Str("ibec-ready")
              && stage2.At("observed") == Bool(true)
              && chain.At("sequence_sent") == Bool(true) && chain.At("input_integrity") == Bool(true)
              && "RestoreTrustCache" in CompletedRoles(chain.At("steps"))
              && "RestoreRamDisk" in CompletedRoles(chain.At("steps"))
              && "RestoreDeviceTree" in CompletedRoles(chain.At("steps"))
              && "RestoreKernelCache" in CompletedRoles(chain.At("steps"))
              && chain.At("bootx_acknowledged") == Bool(true)
              && raw.At("guest_panic").At("observed") != Bool(true) && stage2.At("panic_observed") != Bool(true)
              && chain.At("post_bootx_panic") != Bool(true)
              && stage2.At("byte_offset").Num? && stage2.At("byte_offset").number.PosInt?
              && forall x: u64 :: Seen(seen.At("observed_markers").At("xnu"), XnuOf(request.targetMajor), x) ==>
                   stage2.At("byte_offset").number.n < x
  {
    hide Value.At, Runtime, Reason, Xnu, UserspaceReached, TargetMatch, Cleanup, Intact;
    hide CompletedRoles, UploadedRoles, CountTrue, XnuOffset, Seen, Observation;
    ProgressInFull(request, exit, r);
    hide Progress;
    ObservationInUse(r);
    XnuOffsetExact(Markers(r), XnuOf(request.targetMajor));
    KernelNeedsMarker(request, r);
  }

  lemma KernelNeedsMarker(request: RunnerRequest, r: Value)
    ensures Xnu(request, r) ==> KernelOffset(request, r).Some?
    ensures Xnu(request, r) ==> Runtime(request, r)
  {
  }

  /** What the outcome reports of the run itself, and the reason when the boot is not verified. */
  lemma OutcomeInFull(request: RunnerRequest, exit: Option<int>, r: Value)
    requires request.backend.TcgRecovery?
    ensures var o, raw := Evaluate(request, exit, Success(r)), r.At("launch_report").At("raw");
            && o.exitCode == exit && o.engine == "qemu-vmapple-recovery" && o.report == Some(r)
            && o.failure ==
               if o.macosBootVerified then None
               else if !LaunchIdentity(request, r) then
                 Some("recovery receipt has no matching supervisor/launch identity")
               else if !o.guestRuntimeStarted then
                 Some("recovery QEMU process identity was not observed in this run")
               else if !o.guestProcessTerminated then Some("Linux guest process cleanup is unconfirmed")
               else if !o.inputIntegrity then Some("original recovery input integrity is unconfirmed")
               else if !(&& r.At("deadline").At("exceeded") == Bool(false)
                         && r.At("cancel").At("requested") == Bool(false)) then
                 Some("recovery was cancelled or exceeded its deadline")
               else if r.At("error").Str? then Some(r.At("error").s)
               else if raw.At("error").Str? then Some(raw.At("error").s)
               else if raw.At("transition_blocker").Str? then Some(raw.At("transition_blocker").s)
               else if raw.At("golden_gate_installation").At("blocker").Str? then
                 Some(raw.At("golden_gate_installation").At("blocker").s)
               else Some("recovery completed-unverified: target-matching XNU/userspace evidence is incomplete")
  {
    hide Value.At, Verified, Progress, Xnu, UserspaceReached, TargetMatch, PidObserved, Identity, LaunchIdentity;
    LaunchNeedsIdentity(request, r);
    ReasonInFull(Links(request, r), r);
  }

  lemma ReasonInFull(links: seq<bool>, r: Value)
    requires |links| == 5
    ensures var raw := r.At("launch_report").At("raw");
            Blame(links, BLAMES, FirstText(OwnErrors(r), UNVERIFIED)) ==
            if !links[0] then "recovery receipt has no matching supervisor/launch identity"
            else if !links[1] then "recovery QEMU process identity was not observed in this run"
            else if !links[2] then "Linux guest process cleanup is unconfirmed"
            else if !links[3] then "original recovery input integrity is unconfirmed"
            else if !links[4] then "recovery was cancelled or exceeded its deadline"
            else if r.At("error").Str? then r.At("error").s
            else if raw.At("error").Str? then raw.At("error").s
            else if raw.At("transition_blocker").Str? then raw.At("transition_blocker").s
            else if raw.At("golden_gate_installation").At("blocker").Str? then
              raw.At("golden_gate_installation").At("blocker").s
            else "recovery completed-unverified: target-matching XNU/userspace evidence is incomplete"
  {
    hide Value.At, Blame, FirstText;
    var values := OwnErrors(r);
    FirstOfFour(values, UNVERIFIED);
    FirstOfFive(links, BLAMES, FirstText(values, UNVERIFIED));
  }

  lemma FirstOfFour(values: seq<Value>, otherwise: string)
    requires |values| == 4
    ensures FirstText(values, otherwise) ==
            if values[0].Str? then values[0].s
            else if values[1].Str? then values[1].s
            else if values[2].Str? then values[2].s
            else if values[3].Str? then values[3].s
            else otherwise
  {
    var k := if values[0].Str? then 0 else if values[1].Str? then 1 else if values[2].Str? then 2
             else if values[3].Str? then 3 else 4;
    FirstTextExact(values, otherwise, k);
  }

  lemma FirstOfFive(links: seq<bool>, blames: seq<string>, intact: string)
    requires |links| == |blames| == 5
    ensures Blame(links, blames, intact) ==
            if !links[0] then blames[0]
            else if !links[1] then blames[1]
            else if !links[2] then blames[2]
            else if !links[3] then blames[3]
            else if !links[4] then blames[4]
            else intact
  {
    BlameStep(links, blames, intact);
    BlameStep(links[1..], blames[1..], intact);
    BlameStep(links[2..], blames[2..], intact);
    BlameStep(links[3..], blames[3..], intact);
    BlameStep(links[4..], blames[4..], intact);
  }
}
