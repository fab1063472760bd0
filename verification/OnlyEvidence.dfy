/**
 The verdicts read nothing but the listed items and a few denials: reports that agree on these get the same verdict,
 whatever else they say.
 */
module OnlyEvidence {
  import opened Wrappers
  import opened Json
  import opened Request
  import opened Evidence
  import opened RecoveryVerdict
  import opened FailClosed
  import RecoveryItems

  ghost predicate Agree(a: Value, b: Value, paths: set<KeyPath>) {
    forall path <- paths :: Lookup(a, path) == Lookup(b, path)
  }

  /** LookupUnfolds, read from right to left. */
  lemma Reads(v: Value)
    ensures forall k {:trigger v.At(k)} :: v.At(k) == Lookup(v, Top(k))
    ensures forall s, k {:trigger v.At(s).At(k)} :: v.At(s).At(k) == Lookup(v, In(s, k))
    ensures forall k {:trigger Raw(v).At(k)} :: Raw(v).At(k) == Lookup(v, InRaw(k))
    ensures forall s, k {:trigger Raw(v).At(s).At(k)} :: Raw(v).At(s).At(k) == Lookup(v, InRawSection(s, k))
  {
    LookupUnfolds(v);
  }

  // ----- The recovery receipt -----

  /** What a receipt must not say, or must not say otherwise. */
  const DENIALS: set<KeyPath> := {
    Top("requested_output"), Top("error"), InRaw("error"), InRawSection("guest_panic", "observed"),
    InRawSection("stage2", "panic_observed"), InRawSection("restore_chain", "post_bootx_panic")}

  /** The receipts agree on every listed item, those of the observation in use included, and on the denials. */
  ghost predicate SameEvidence(a: Value, b: Value) {
    && Agree(a, b, IDENTITY_EVIDENCE)
    && Agree(a, b, PROCESS_EVIDENCE)
    && Agree(a, b, LIFECYCLE_EVIDENCE)
    && Agree(a, b, BOOT_EVIDENCE)
    && Agree(a, b, CLAIM_EVIDENCE)
    && Agree(a, b, FIRMWARE_EVIDENCE)
    && Agree(a, b, RESTORE_EVIDENCE)
    && Agree(a, b, DENIALS)
    && Agree(Observation(a), Observation(b), OBSERVED_EVIDENCE)
  }

  lemma SameRequestedOutput(a: Value, b: Value)
    requires Agree(a, b, DENIALS)
    ensures a.At("requested_output") == b.At("requested_output")
  {
    hide Lookup, Raw;
    Reads(a);
    Reads(b);
  }

  lemma SameIdentity(request: RunnerRequest, a: Value, b: Value)
    requires Agree(a, b, IDENTITY_EVIDENCE) && a.At("requested_output") == b.At("requested_output")
    ensures Identity(request, a) == Identity(request, b) && LaunchIdentity(request, a) == LaunchIdentity(request, b)
  {
    hide Lookup, Raw;
    Reads(a);
    Reads(b);
  }

  lemma SamePids(a: Value, b: Value)
    requires Agree(a, b, PROCESS_EVIDENCE)
    ensures PidObserved(a) == PidObserved(b)
  {
    hide Lookup, Raw, OnlyProcess;
    Reads(a);
    Reads(b);
  }

  lemma SameLifecycle(request: RunnerRequest, a: Value, b: Value)
    requires Agree(a, b, LIFECYCLE_EVIDENCE) && Identity(request, a) == Identity(request, b)
    ensures Cleanup(request, a) == Cleanup(request, b) && Intact(request, a) == Intact(request, b)
    ensures Complete(a) == Complete(b) && Uninterrupted(a) == Uninterrupted(b)
    ensures Raw(a).At("runtime_started") == Raw(b).At("runtime_started")
  {
    hide Lookup, Raw, Identity;
    Reads(a);
    Reads(b);
  }

  lemma SameRuntime(request: RunnerRequest, a: Value, b: Value)
    requires SameEvidence(a, b)
    ensures Runtime(request, a) == Runtime(request, b)
    ensures Cleanup(request, a) == Cleanup(request, b) && Intact(request, a) == Intact(request, b)
    ensures Complete(a) == Complete(b) && Uninterrupted(a) == Uninterrupted(b)
  {
    hide Agree, Raw, LaunchIdentity, PidObserved, Cleanup, Intact, Complete, Uninterrupted;
    SameRequestedOutput(a, b);
    SameIdentity(request, a, b);
    SamePids(a, b);
    SameLifecycle(request, a, b);
  }

  lemma SameMarkers(request: RunnerRequest, a: Value, b: Value)
    requires SameEvidence(a, b)
    ensures Markers(a) == Markers(b) && KernelOffset(request, a) == KernelOffset(request, b)
    ensures Stage2First(request, a) == Stage2First(request, b)
  {
    hide Lookup, Raw, Observation, XnuOffset;
    Reads(a);
    Reads(b);
    Reads(Observation(a));
    Reads(Observation(b));
  }

  lemma SameBoot(request: RunnerRequest, a: Value, b: Value)
    requires SameEvidence(a, b)
    ensures Xnu(request, a) == Xnu(request, b) && UserspaceReached(request, a) == UserspaceReached(request, b)
  {
    hide Lookup, Raw, Observation, Runtime, KernelOffset, Markers, UserspaceOffset;
    SameRuntime(request, a, b);
    SameMarkers(request, a, b);
    Reads(a);
    Reads(b);
    Reads(Observation(a));
    Reads(Observation(b));
  }

  lemma SameTarget(request: RunnerRequest, a: Value, b: Value)
    requires SameEvidence(a, b)
    ensures TargetMatch(request, a) == TargetMatch(request, b)
  {
    hide Lookup, Raw, Observation, Xnu;
    SameBoot(request, a, b);
    Reads(a);
    Reads(b);
    Reads(Observation(a));
    Reads(Observation(b));
  }

  /** The steps on the way to the kernel that the verdict asks for. */
  predicate Progressed(p: RecoveryProgress) {
    && p.dfuUploadCompleted && p.ibecEndpointAdvertised && p.stage2PromptObserved && p.restoreSequenceSent
    && p.bootxAcknowledged && !p.firmwarePanicObserved
  }

  lemma SameProgress(request: RunnerRequest, a: Value, b: Value)
    requires SameEvidence(a, b)
    ensures Progressed(Progress(request, a)) == Progressed(Progress(request, b))
  {
    hide Lookup, Raw, Runtime, UploadedRoles, CountTrue, Observation;
    SameRuntime(request, a, b);
    Reads(a);
    Reads(b);
  }

  lemma SameClaims(request: RunnerRequest, a: Value, b: Value)
    requires SameEvidence(a, b)
    ensures HandoffIdentity(request, a) == HandoffIdentity(request, b)
    ensures Raw(a).At("iboot_xnu_handoff").At("claims") == Raw(b).At("iboot_xnu_handoff").At("claims")
    ensures Raw(a).At("input_integrity") == Raw(b).At("input_integrity") && Raw(a).At("error") == Raw(b).At("error")
    ensures Raw(a).At("macos_boot_verified") == Raw(b).At("macos_boot_verified") && a.At("error") == b.At("error")
    ensures a.At("boot").At("macos_boot_verified") == b.At("boot").At("macos_boot_verified")
  {
    hide Lookup, Raw, Observation;
    Reads(a);
    Reads(b);
  }

  /** The recovery verdict is a function of the listed items and the denials. */
  lemma RecoveryReadsOnlyEvidence(request: RunnerRequest, exit: Option<int>, a: Value, b: Value)
    requires request.backend.TcgRecovery? && SameEvidence(a, b)
    ensures Verdict.Evaluate(request, exit, Success(a)).macosBootVerified ==
            Verdict.Evaluate(request, exit, Success(b)).macosBootVerified
  {
    hide SameEvidence, Raw, Runtime, Cleanup, Intact, Complete, Uninterrupted, Progress, HandoffIdentity;
    hide Xnu, UserspaceReached, TargetMatch, Stage2First;
    SameRuntime(request, a, b);
    SameBoot(request, a, b);
    SameTarget(request, a, b);
    SameMarkers(request, a, b);
    SameProgress(request, a, b);
    SameClaims(request, a, b);
  }

  // ----- What the items have to say -----

  lemma ThisVerdict(request: RunnerRequest, exit: Option<int>, r: Value)
    requires request.backend.TcgRecovery?
    ensures Verdict.Evaluate(request, exit, Success(r)) == RecoveryVerdict.Evaluate(request, exit, Success(r))
  {
  }

  lemma VerifiedClaims(request: RunnerRequest, exit: Option<int>, r: Value)
    requires RecoveryVerdict.Evaluate(request, exit, Success(r)).macosBootVerified
    ensures forall path: KeyPath ::
              path in {In("launch_report", "identity_valid"), In("launch_report", "runtime_pid_observed"),
                       In("launch_report", "complete"), In("worker", "process_inventory_complete"),
                       In("worker", "completed"), In("cleanup", "complete"), In("cleanup", "leader_reaped"),
                       In("input_integrity", "unchanged"), In("boot", "xnu_executed"), In("boot", "userspace"),
                       In("boot", "target_match"), In("boot", "macos_boot_verified")} ==>
                Lookup(r, path) == Bool(true)
    ensures forall path: KeyPath ::
              path in {InRaw("runtime_started"), InRaw("xnu_executed"), InRaw("guest_target_match"),
                       InRaw("input_integrity"), InRaw("macos_boot_verified"),
                       InRawSection("iboot_xnu_handoff", "valid"), InClaims("xnu_executed"),
                       InClaims("macos_userspace_reached"), InClaims("macos_boot_verified"),
                       InRawSection("dfu_upload", "transfer_complete"), InRawSection("stage2", "observed"),
                       InRawSection("restore_chain", "sequence_sent"),
                       InRawSection("restore_chain", "input_integrity"),
                       InRawSection("restore_chain", "bootx_acknowledged")} ==>
                Lookup(r, path) == Bool(true)
  {
    hide Lookup, Value.At, RecoveryVerdict.Evaluate;
    RecoveryItems.VerifiedInFull(request, exit, r);
    RecoveryItems.RuntimeInFull(request, exit, r);
    RecoveryItems.LifecycleInFull(request, exit, r);
    RecoveryItems.BootFlagsInFull(request, exit, r);
    LookupUnfolds(r);
  }

  /** A verified receipt gives every listed item its one acceptable value and makes none of the denials. */
  lemma VerifiedItems(request: RunnerRequest, exit: Option<int>, r: Value)
    requires request.backend.TcgRecovery? && Verdict.Evaluate(request, exit, Success(r)).macosBootVerified
    ensures Lookup(r, Top("schema")) == Str("nextcore.recovery-supervisor/1")
    ensures Lookup(r, In("launch_report", "raw_schema")) == Lookup(r, InRaw("schema")) == Str("26x86.vmapple-gui/1")
    ensures Lookup(r, InRaw("machine_type")) == Str("iBoot(AArch64)")
    ensures Lookup(r, InRaw("personality")) == Str("iBoot") && Lookup(r, InRaw("guest_os")) == Str("macOS")
    ensures Lookup(r, InRaw("boot_mode")) == Lookup(r, InRawSection("iboot_xnu_handoff", "mode")) == Str("recovery")
    ensures Lookup(r, InRawSection("iboot_xnu_handoff", "schema")) == Str("26x86.iboot-xnu-handoff/1")
    ensures Lookup(r, InRawSection("transition", "state")) == Str("ibec-ready")
    ensures forall path: KeyPath ::
              path in {Top("target_major"), InRaw("target_major"), InRawSection("iboot_xnu_handoff", "target_major"),
                       InRaw("guest_kernel_major"), In("boot", "guest_kernel_major")} ==>
                Lookup(r, path) == Num(PosInt(request.targetMajor))
    ensures forall path: KeyPath ::
              path in {In("launch_report", "identity_valid"), In("launch_report", "runtime_pid_observed"),
                       In("launch_report", "complete"), In("worker", "process_inventory_complete"),
                       In("worker", "completed"), In("cleanup", "complete"), In("cleanup", "leader_reaped"),
                       In("input_integrity", "unchanged"), In("boot", "xnu_executed"), In("boot", "userspace"),
                       In("boot", "target_match"), In("boot", "macos_boot_verified")} ==>
                Lookup(r, path) == Bool(true)
    ensures forall path: KeyPath ::
              path in {InRaw("runtime_started"), InRaw("xnu_executed"), InRaw("guest_target_match"),
                       InRaw("input_integrity"), InRaw("macos_boot_verified"),
                       InRawSection("iboot_xnu_handoff", "valid"), InClaims("xnu_executed"),
                       InClaims("macos_userspace_reached"), InClaims("macos_boot_verified"),
                       InRawSection("dfu_upload", "transfer_complete"), InRawSection("stage2", "observed"),
                       InRawSection("restore_chain", "sequence_sent"),
                       InRawSection("restore_chain", "input_integrity"),
                       InRawSection("restore_chain", "bootx_acknowledged")} ==>
                Lookup(r, path) == Bool(true)
    ensures Lookup(r, In("deadline", "exceeded")) == Lookup(r, In("cancel", "requested")) == Bool(false)
    ensures Lookup(r, In("cleanup", "remaining_pids")) == Arr([])
    ensures Lookup(r, Top("error")) == Lookup(r, InRaw("error")) == Null
    ensures Lookup(r, InRawSection("guest_panic", "observed")) != Bool(true)
    ensures Lookup(r, InRawSection("stage2", "panic_observed")) != Bool(true)
    ensures Lookup(r, InRawSection("restore_chain", "post_bootx_panic")) != Bool(true)
    ensures request.output.TextPath? ==> Lookup(r, Top("requested_output")) == Str(request.output.text)
    ensures request.output.RawPath? ==> !Lookup(r, Top("requested_output")).Str?
  {
    hide Lookup, Value.At, Verdict.Evaluate, RecoveryVerdict.Evaluate;
    ThisVerdict(request, exit, r);
    RecoveryItems.VerifiedInFull(request, exit, r);
    RecoveryItems.RuntimeInFull(request, exit, r);
    RecoveryItems.LifecycleInFull(request, exit, r);
    RecoveryItems.BootFlagsInFull(request, exit, r);
    VerifiedClaims(request, exit, r);
    LookupUnfolds(r);
  }

  /** One affirmed denial is enough: an error at either place, a panic at any of three, another requested output. */
  lemma DenialsDeny(request: RunnerRequest, exit: Option<int>, r: Value)
    requires request.backend.TcgRecovery?
    requires || Lookup(r, Top("error")) != Null
             || Lookup(r, InRaw("error")) != Null
             || Lookup(r, InRawSection("guest_panic", "observed")) == Bool(true)
             || Lookup(r, InRawSection("stage2", "panic_observed")) == Bool(true)
             || Lookup(r, InRawSection("restore_chain", "post_bootx_panic")) == Bool(true)
             || (if request.output.TextPath? then Lookup(r, Top("requested_output")) != Str(request.output.text)
                 else Lookup(r, Top("requested_output")).Str?)
    ensures !Verdict.Evaluate(request, exit, Success(r)).macosBootVerified
  {
    hide Lookup, Verdict.Evaluate, Top, InRaw, InRawSection;
    if Verdict.Evaluate(request, exit, Success(r)).macosBootVerified {
      VerifiedItems(request, exit, r);
    }
  }

  // ----- The nested observation is read only for what it shows -----

  /** The path does not lead into a nested observation. */
  predicate Outside(path: KeyPath) {
    && path.Key?
    && (path.name == "launch_report" ==>
         && path.rest.Key?
         && (path.rest.name == "raw" ==> path.rest.rest.Key? && path.rest.rest.name != "observation"))
  }

  lemma ErasedOutside(report: Value, path: KeyPath)
    requires Outside(path)
    ensures Lookup(Erase(report, InRaw("observation")), path) == Lookup(report, path)
  {
    hide Erase, Lookup;
    var erased := Erase(report, InRaw("observation"));
    EraseBelow(report, "launch_report", In("raw", "observation"));
    EraseBelow(report.At("launch_report"), "raw", Top("observation"));
    ErasedIsGone(Raw(report), "observation");
    LookupStep(erased, path.name, path.rest);
    LookupStep(report, path.name, path.rest);
    if path.name == "launch_report" {
      var rest := path.rest;
      LookupStep(erased.At("launch_report"), rest.name, rest.rest);
      LookupStep(report.At("launch_report"), rest.name, rest.rest);
      if rest.name == "raw" {
        LookupStep(Raw(erased), rest.rest.name, rest.rest.rest);
        LookupStep(Raw(report), rest.rest.name, rest.rest.rest);
      }
    }
  }

  lemma ErasedIsGone(v: Value, name: string)
    ensures Erase(v, Top(name)).Get(name) == None
    ensures forall other :: other != name ==> Erase(v, Top(name)).At(other) == v.At(other)
  {
  }

  lemma ErasedObservation(report: Value)
    ensures Observation(Erase(report, InRaw("observation"))) == Raw(Erase(report, InRaw("observation")))
  {
    hide Erase;
    EraseInRaw(report, Top("observation"));
    ErasedIsGone(Raw(report), "observation");
  }

  predicate Listed(path: KeyPath) {
    || path in IDENTITY_EVIDENCE || path in PROCESS_EVIDENCE || path in LIFECYCLE_EVIDENCE || path in BOOT_EVIDENCE
    || path in CLAIM_EVIDENCE || path in FIRMWARE_EVIDENCE || path in RESTORE_EVIDENCE || path in DENIALS
  }

  lemma ListedIsOutside(path: KeyPath)
    requires Listed(path)
    ensures Outside(path)
  {
  }

  lemma ErasedKeepsObserved(report: Value)
    ensures Agree(Raw(Erase(report, InRaw("observation"))), Raw(report), OBSERVED_EVIDENCE)
  {
    hide Erase, Lookup;
    var raw := Raw(report);
    EraseInRaw(report, Top("observation"));
    ErasedIsGone(raw, "observation");
    forall item | item in OBSERVED_EVIDENCE
      ensures Lookup(Erase(raw, Top("observation")), item) == Lookup(raw, item)
    {
      ObservedNames(item);
      LookupStep(Erase(raw, Top("observation")), item.name, item.rest);
      LookupStep(raw, item.name, item.rest);
    }
  }

  lemma ErasedKeepsListed(report: Value, path: KeyPath)
    requires Listed(path)
    ensures Lookup(Erase(report, InRaw("observation")), path) == Lookup(report, path)
  {
    hide Erase, Lookup, Outside;
    ListedIsOutside(path);
    ErasedOutside(report, path);
  }

  /** A nested observation that shows what the launch record shows can be erased without changing the verdict. */
  lemma ObservationIsOptional(request: RunnerRequest, exit: Option<int>, report: Value)
    requires request.backend.TcgRecovery? && Agree(Observation(report), Raw(report), OBSERVED_EVIDENCE)
    ensures Verdict.Evaluate(request, exit, Success(Erase(report, InRaw("observation")))).macosBootVerified ==
            Verdict.Evaluate(request, exit, Success(report)).macosBootVerified
  {
    hide Verdict.Evaluate, Agree, Erase, Lookup, Observation, Raw;
    var erased := Erase(report, InRaw("observation"));
    assert SameEvidence(erased, report) by {
      ErasedAgrees(erased, report);
      ErasedObservation(report);
      ErasedKeepsObserved(report);
      AgreeThrough(Raw(erased), Raw(report), Observation(report), OBSERVED_EVIDENCE);
    }
    RecoveryReadsOnlyEvidence(request, exit, erased, report);
  }

  lemma AgreeThrough(a: Value, b: Value, c: Value, paths: set<KeyPath>)
    requires Agree(a, b, paths) && Agree(c, b, paths)
    ensures Agree(a, c, paths)
  {
    hide Lookup;
  }

  lemma ErasedAgrees(erased: Value, report: Value)
    requires erased == Erase(report, InRaw("observation"))
    ensures Agree(erased, report, IDENTITY_EVIDENCE) && Agree(erased, report, PROCESS_EVIDENCE)
    ensures Agree(erased, report, LIFECYCLE_EVIDENCE) && Agree(erased, report, BOOT_EVIDENCE)
    ensures Agree(erased, report, CLAIM_EVIDENCE) && Agree(erased, report, FIRMWARE_EVIDENCE)
    ensures Agree(erased, report, RESTORE_EVIDENCE) && Agree(erased, report, DENIALS)
  {
    hide Erase, Lookup;
    forall path | Listed(path) ensures Lookup(erased, path) == Lookup(report, path) {
      ErasedKeepsListed(report, path);
    }
  }

  // ----- The native and plain TCG report -----

  const RAW_DENIALS: set<KeyPath> := {Top("error"), Top("guest_inputs_modified")}

  /** A claim that is true, read from right to left. */
  lemma ReadsClaims(v: Value)
    ensures forall k {:trigger RawVerdict.Yes(v, k)} :: RawVerdict.Yes(v, k) <==> Lookup(v, Top(k)) == Bool(true)
  {
    hide Lookup;
    LookupUnfolds(v);
  }

  lemma SameRun(request: RunnerRequest, a: Value, b: Value)
    requires Agree(a, b, RAW_RECEIPT) && Lookup(a, StartClaim(request)) == Lookup(b, StartClaim(request))
    ensures RawVerdict.Identity(request, a) == RawVerdict.Identity(request, b)
    ensures RawVerdict.Runtime(request, a) == RawVerdict.Runtime(request, b)
    ensures RawVerdict.Terminated(request, a) == RawVerdict.Terminated(request, b)
  {
    hide Lookup, Raw, RawVerdict.Yes, RunnerBackend.Schema, RunnerBackend.Engine;
    Reads(a);
    Reads(b);
    ReadsClaims(a);
    ReadsClaims(b);
  }

  lemma SameReportMarkers(request: RunnerRequest, a: Value, b: Value)
    requires Agree(a, b, RAW_CLAIMS) && RawVerdict.Runtime(request, a) == RawVerdict.Runtime(request, b)
    ensures RawVerdict.Xnu(request, a) == RawVerdict.Xnu(request, b)
    ensures RawVerdict.UserspaceReached(request, a) == RawVerdict.UserspaceReached(request, b)
  {
    hide Lookup, Raw, RawVerdict.Yes, RawVerdict.Runtime, XnuOffset, UserspaceOffset;
    Reads(a);
    Reads(b);
    ReadsClaims(a);
    ReadsClaims(b);
  }

  lemma SameReportTarget(request: RunnerRequest, a: Value, b: Value)
    requires Agree(a, b, RAW_CLAIMS) && Agree(a, b, RAW_DENIALS)
    requires RawVerdict.Identity(request, a) == RawVerdict.Identity(request, b)
    ensures RawVerdict.TargetMatch(request, a) == RawVerdict.TargetMatch(request, b)
    ensures RawVerdict.Intact(request, a) == RawVerdict.Intact(request, b)
    ensures RawVerdict.Yes(a, "macos_boot_verified") == RawVerdict.Yes(b, "macos_boot_verified")
    ensures a.At("error") == b.At("error")
  {
    hide Lookup, Raw, RawVerdict.Yes, RawVerdict.Identity;
    Reads(a);
    Reads(b);
    ReadsClaims(a);
    ReadsClaims(b);
  }

  /** The same for the other backends. */
  lemma RawReadsOnlyEvidence(request: RunnerRequest, exit: Option<int>, a: Value, b: Value)
    requires !request.backend.TcgRecovery? && Agree(a, b, RawEvidence(request)) && Agree(a, b, RAW_DENIALS)
    ensures Verdict.Evaluate(request, exit, Success(a)).macosBootVerified ==
            Verdict.Evaluate(request, exit, Success(b)).macosBootVerified
  {
    hide Lookup, RawVerdict.Terminated, RawVerdict.Xnu, RawVerdict.UserspaceReached, RawVerdict.TargetMatch;
    hide RawVerdict.Intact, RawVerdict.Yes, RawVerdict.Identity, RawVerdict.Runtime;
    RawEvidenceParts(request, a, b);
    hide Agree, RawEvidence;
    SameRun(request, a, b);
    SameReportMarkers(request, a, b);
    SameReportTarget(request, a, b);
  }

  lemma RawEvidenceParts(request: RunnerRequest, a: Value, b: Value)
    requires Agree(a, b, RawEvidence(request))
    ensures Agree(a, b, RAW_RECEIPT) && Agree(a, b, RAW_CLAIMS)
    ensures Lookup(a, StartClaim(request)) == Lookup(b, StartClaim(request))
  {
    hide Lookup;
    assert StartClaim(request) in RawEvidence(request);
    assert forall path <- RAW_RECEIPT + RAW_CLAIMS :: path in RawEvidence(request);
  }
}
