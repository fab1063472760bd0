/**
 Verdicts fail closed: a report that lacks any one of the listed items is not verified, whatever else it says. Among the
 items are the markers and claims of the observation in use. A nested observation itself is no such item: without it the
 launch record is read in its place.
 */
module FailClosed {
  import opened Wrappers
  import opened Json
  import opened Request
  import opened Evidence
  import opened RecoveryVerdict
  import RawVerdict
  import Verdict

  /** Where an item stands in a report. */
  datatype KeyPath = Here | Key(name: string, rest: KeyPath)

  function Lookup(v: Value, path: KeyPath): Value
    decreases path
  {
    match path
    case Here => v
    case Key(name, rest) => Lookup(v.At(name), rest)
  }

  /** The report with the item removed, and nothing else touched. */
  function Erase(v: Value, path: KeyPath): Value {
    match path
    case Here => Null
    case Key(name, rest) =>
      if !v.Obj? || name !in v.fields then v
      else if rest.Here? then Obj(v.fields - {name})
      else Obj(v.fields[name := Erase(v.fields[name], rest)])
  }

  lemma {:induction false} ErasedReadsNull(v: Value, path: KeyPath)
    ensures Lookup(Erase(v, path), path) == Null
  {
    match path {
      case Here =>
      case Key(name, rest) =>
        if v.Obj? && name in v.fields && !rest.Here? {
          ErasedReadsNull(v.fields[name], rest);
        } else {
          NullReadsNull(rest);
        }
    }
  }

  lemma {:induction false} NullReadsNull(path: KeyPath)
    ensures Lookup(Null, path) == Null
  {
    if path.Key? {
      NullReadsNull(path.rest);
    }
  }

  function Top(k: string): KeyPath {
    Key(k, Here)
  }

  function In(section: string, k: string): KeyPath {
    Key(section, Top(k))
  }

  function InRaw(k: string): KeyPath {
    Key("launch_report", In("raw", k))
  }

  function InRawSection(section: string, k: string): KeyPath {
    Key("launch_report", Key("raw", In(section, k)))
  }

  function InClaims(k: string): KeyPath {
    Key("launch_report", Key("raw", Key("iboot_xnu_handoff", In("claims", k))))
  }

  lemma LookupUnfolds(v: Value)
    ensures forall k :: Lookup(v, Top(k)) == v.At(k)
    ensures forall s, k :: Lookup(v, In(s, k)) == v.At(s).At(k)
    ensures forall k :: Lookup(v, InRaw(k)) == Raw(v).At(k)
    ensures forall s, k :: Lookup(v, InRawSection(s, k)) == Raw(v).At(s).At(k)
    ensures forall k :: Lookup(v, InClaims(k)) == Raw(v).At("iboot_xnu_handoff").At("claims").At(k)
  {
    hide Lookup;
    forall w, k ensures Lookup(w, Top(k)) == w.At(k) {
      LookupStep(w, k, Here);
    }
    forall w, s, k ensures Lookup(w, In(s, k)) == w.At(s).At(k) {
      LookupStep(w, s, Top(k));
    }
    forall k ensures Lookup(v, InRaw(k)) == Raw(v).At(k) {
      LookupStep(v, "launch_report", In("raw", k));
    }
    forall s, k ensures Lookup(v, InRawSection(s, k)) == Raw(v).At(s).At(k) {
      LookupStep(v, "launch_report", Key("raw", In(s, k)));
      LookupStep(v.At("launch_report"), "raw", In(s, k));
    }
    forall k ensures Lookup(v, InClaims(k)) == Raw(v).At("iboot_xnu_handoff").At("claims").At(k) {
      LookupStep(v, "launch_report", Key("raw", Key("iboot_xnu_handoff", In("claims", k))));
      LookupStep(v.At("launch_report"), "raw", Key("iboot_xnu_handoff", In("claims", k)));
      LookupStep(Raw(v), "iboot_xnu_handoff", In("claims", k));
    }
  }

  lemma LookupStep(v: Value, name: string, rest: KeyPath)
    ensures Lookup(v, Key(name, rest)) == Lookup(v.At(name), rest)
    ensures Lookup(v, Here) == v && Lookup(v.At(name), Here) == v.At(name)
  {
  }

  // ----- The recovery receipt -----

  const IDENTITY_EVIDENCE: set<KeyPath> := {
    Top("schema"), Top("target_major"), Top("output"), In("launch_report", "raw_schema"),
    In("launch_report", "identity_valid"), InRaw("schema"), InRaw("target_major"), InRaw("output"),
    InRaw("machine_type"), InRaw("personality"), InRaw("guest_os"), InRaw("boot_mode")}

  const PROCESS_EVIDENCE: set<KeyPath> := {
    In("worker", "pid"), InRaw("pid"), In("worker", "process_inventory_complete"),
    In("launch_report", "runtime_pid_observed"), In("worker", "observed_processes")}

  const LIFECYCLE_EVIDENCE: set<KeyPath> := {
    InRaw("runtime_started"), In("cleanup", "complete"), In("cleanup", "leader_reaped"),
    In("cleanup", "remaining_pids"), In("input_integrity", "unchanged"), In("launch_report", "complete"),
    In("worker", "completed"), In("worker", "returncode"), In("deadline", "exceeded"), In("cancel", "requested")}

  const BOOT_EVIDENCE: set<KeyPath> := {
    InRaw("xnu_executed"), In("boot", "xnu_executed"), In("boot", "userspace"), InRaw("guest_kernel_major"),
    In("boot", "guest_kernel_major"), InRaw("guest_target_match"), In("boot", "target_match")}

  const CLAIM_EVIDENCE: set<KeyPath> := {
    InRaw("input_integrity"), InRaw("macos_boot_verified"), In("boot", "macos_boot_verified"),
    InRawSection("iboot_xnu_handoff", "schema"), InRawSection("iboot_xnu_handoff", "valid"),
    InRawSection("iboot_xnu_handoff", "mode"), InRawSection("iboot_xnu_handoff", "target_major"),
    InRawSection("iboot_xnu_handoff", "claims"), InClaims("xnu_executed"), InClaims("macos_userspace_reached"),
    InClaims("macos_boot_verified")}

  const FIRMWARE_EVIDENCE: set<KeyPath> := {
    InRawSection("dfu_upload", "transfer_complete"), InRawSection("transition", "state"),
    InRawSection("stage2", "observed"), InRawSection("stage2", "byte_offset")}

  const RESTORE_EVIDENCE: set<KeyPath> := {
    InRawSection("restore_chain", "sequence_sent"), InRawSection("restore_chain", "input_integrity"),
    InRawSection("restore_chain", "steps"), InRawSection("restore_chain", "bootx_acknowledged")}

  /** Items that lie at the same place in every receipt. */
  predicate FixedEvidence(request: RunnerRequest, path: KeyPath) {
    || path in IDENTITY_EVIDENCE
    || (request.output.TextPath? && path == Top("requested_output"))
    || path in PROCESS_EVIDENCE
    || path in LIFECYCLE_EVIDENCE
    || path in BOOT_EVIDENCE
    || path in CLAIM_EVIDENCE
    || path in FIRMWARE_EVIDENCE
    || path in RESTORE_EVIDENCE
  }

  /** What the observation in use has to show. */
  const OBSERVED_EVIDENCE: set<KeyPath> := {
    Top("observed_markers"), In("observed_markers", "xnu"), In("observed_markers", "userspace"), Top("xnu_executed"),
    Top("macos_userspace_reached"), Top("guest_kernel_major"), Top("guest_target_match")}

  /** Where an item of the observation in use stands: in the nested observation if there is one. */
  function InObservation(report: Value, item: KeyPath): KeyPath {
    Key("launch_report", Key("raw", if Raw(report).At("observation").Obj? then Key("observation", item) else item))
  }

  ghost predicate RecoveryEvidence(request: RunnerRequest, report: Value, path: KeyPath) {
    FixedEvidence(request, path) || exists item :: item in OBSERVED_EVIDENCE && path == InObservation(report, item)
  }

  lemma IdentityPresent(request: RunnerRequest, env: Value, path: KeyPath)
    requires LaunchIdentity(request, env)
    requires path in IDENTITY_EVIDENCE || (request.output.TextPath? && path == Top("requested_output"))
    ensures Lookup(env, path) != Null
  {
    hide Lookup, Raw;
    LookupUnfolds(env);
  }

  lemma ProcessPresent(env: Value, path: KeyPath)
    requires PidObserved(env) && path in PROCESS_EVIDENCE
    ensures Lookup(env, path) != Null
  {
    hide Lookup, OnlyProcess;
    LookupUnfolds(env);
  }

  lemma LifecyclePresent(request: RunnerRequest, env: Value, path: KeyPath)
    requires Runtime(request, env) && Cleanup(request, env) && Intact(request, env) && Complete(env)
    requires Uninterrupted(env)
    requires path in LIFECYCLE_EVIDENCE
    ensures Lookup(env, path) != Null
  {
    hide Lookup, LaunchIdentity, PidObserved, Identity;
    LookupUnfolds(env);
  }

  lemma BootPresent(request: RunnerRequest, env: Value, path: KeyPath)
    requires Xnu(request, env) && UserspaceReached(request, env) && TargetMatch(request, env)
    requires path in BOOT_EVIDENCE
    ensures Lookup(env, path) != Null
  {
    hide Lookup, Runtime, KernelOffset, UserspaceOffset, Markers, Observation;
    LookupUnfolds(env);
  }

  predicate ClaimsMade(request: RunnerRequest, env: Value) {
    var raw := Raw(env);
    var claims := raw.At("iboot_xnu_handoff").At("claims");
    && raw.At("input_integrity").IsTrue()
    && raw.At("macos_boot_verified").IsTrue()
    && env.At("boot").At("macos_boot_verified").IsTrue()
    && HandoffIdentity(request, env)
    && claims.At("xnu_executed").IsTrue()
    && claims.At("macos_userspace_reached").IsTrue()
    && claims.At("macos_boot_verified").IsTrue()
  }

  lemma ClaimPresent(request: RunnerRequest, env: Value, path: KeyPath)
    requires ClaimsMade(request, env) && path in CLAIM_EVIDENCE
    ensures Lookup(env, path) != Null
  {
    hide Lookup, Raw;
    LookupUnfolds(env);
  }

  lemma FirstRoleNeedsSteps(env: Value)
    ensures UploadedRoles(Steps(env))[0] ==> Steps(env).Arr?
  {
  }

  lemma FirmwarePresent(request: RunnerRequest, env: Value, path: KeyPath)
    requires Progress(request, env).dfuUploadCompleted && Progress(request, env).ibecEndpointAdvertised
    requires Progress(request, env).stage2PromptObserved
    requires path in FIRMWARE_EVIDENCE
    ensures Lookup(env, path) != Null
  {
    hide Lookup, Runtime, CountTrue, UploadedRoles;
    LookupUnfolds(env);
  }

  lemma RestorePresent(request: RunnerRequest, env: Value, path: KeyPath)
    requires Progress(request, env).restoreSequenceSent && Progress(request, env).bootxAcknowledged
    requires path in RESTORE_EVIDENCE
    ensures Lookup(env, path) != Null
  {
    hide Lookup, Runtime, CountTrue, UploadedRoles;
    FirstRoleNeedsSteps(env);
    LookupUnfolds(env);
  }

  lemma FixedEvidencePresent(request: RunnerRequest, exit: Option<int>, env: Value, path: KeyPath)
    requires RecoveryVerdict.Verified(request, exit, env) && FixedEvidence(request, path)
    ensures Lookup(env, path) != Null
  {
    hide PidObserved, LaunchIdentity, Cleanup, Intact, Complete, Uninterrupted, Xnu, UserspaceReached, TargetMatch;
    hide Progress, Stage2First, HandoffIdentity, Lookup;
    if path in IDENTITY_EVIDENCE || (request.output.TextPath? && path == Top("requested_output")) {
      IdentityPresent(request, env, path);
    } else if path in PROCESS_EVIDENCE {
      ProcessPresent(env, path);
    } else if path in LIFECYCLE_EVIDENCE {
      LifecyclePresent(request, env, path);
    } else if path in BOOT_EVIDENCE {
      BootPresent(request, env, path);
    } else if path in CLAIM_EVIDENCE {
      ClaimPresent(request, env, path);
    } else if path in FIRMWARE_EVIDENCE {
      FirmwarePresent(request, env, path);
    } else {
      RestorePresent(request, env, path);
    }
  }

  lemma ObservedPresent(request: RunnerRequest, env: Value, item: KeyPath)
    requires UserspaceReached(request, env) && TargetMatch(request, env) && item in OBSERVED_EVIDENCE
    ensures Lookup(Observation(env), item) != Null
  {
    hide Lookup, Runtime, Raw, Observation, UserspaceOffset, XnuOffset;
    LookupUnfolds(Observation(env));
    OffsetsNeedArrays(Markers(env), XnuOf(request.targetMajor));
  }

  lemma OffsetsNeedArrays(markers: Value, kind: Kind)
    ensures XnuOffset(markers, kind).Some? ==> markers.At("xnu").Arr?
    ensures UserspaceOffset(markers, XnuOffset(markers, kind)).Some? ==> markers.At("userspace").Arr?
  {
    XnuOffsetExact(markers, kind);
    UserspaceExact(markers, kind);
  }

  /** Erasing below a name is erasing in what the name holds. */
  lemma EraseBelow(v: Value, name: string, rest: KeyPath)
    requires rest.Key?
    ensures Erase(v, Key(name, rest)).At(name) == Erase(v.At(name), rest)
    ensures forall other :: other != name ==> Erase(v, Key(name, rest)).At(other) == v.At(other)
    ensures Erase(v, Key(name, rest)).Obj? == v.Obj?
  {
  }

  lemma EraseInRaw(report: Value, rest: KeyPath)
    requires rest.Key?
    ensures Raw(Erase(report, Key("launch_report", Key("raw", rest)))) == Erase(Raw(report), rest)
  {
    hide Erase;
    EraseBelow(report, "launch_report", Key("raw", rest));
    EraseBelow(report.At("launch_report"), "raw", rest);
  }

  lemma ObservedNames(item: KeyPath)
    requires item in OBSERVED_EVIDENCE
    ensures item.Key? && item.name != "observation"
  {
    assert |"observation"| == 11 && |"observed_markers"| == 16 && |"xnu_executed"| == 12;
    assert |"macos_userspace_reached"| == 23 && |"guest_kernel_major"| == 18 && |"guest_target_match"| == 18;
  }

  /** Erasing an item of the observation in use leaves that observation in use, without the item. */
  lemma EraseInObservation(report: Value, item: KeyPath)
    requires item in OBSERVED_EVIDENCE
    ensures Observation(Erase(report, InObservation(report, item))) == Erase(Observation(report), item)
  {
    var raw := Raw(report);
    ObservedNames(item);
    if raw.At("observation").Obj? {
      EraseInRaw(report, Key("observation", item));
      EraseBelow(raw, "observation", item);
    } else {
      EraseInRaw(report, item);
    }
  }

  /** A recovery receipt without one of its required items is never verified, whatever else it claims. */
  lemma RecoveryFailsClosed(request: RunnerRequest, exit: Option<int>, report: Value, path: KeyPath)
    requires request.backend.TcgRecovery? && RecoveryEvidence(request, report, path)
    ensures !Verdict.Evaluate(request, exit, Success(Erase(report, path))).macosBootVerified
  {
    hide FixedEvidence, Lookup, Erase, Observation, InObservation;
    hide Runtime, Xnu, Progress, TargetMatch, UserspaceReached;
    var erased := Erase(report, path);
    if RecoveryVerdict.Verified(request, exit, erased) {
      if FixedEvidence(request, path) {
        ErasedReadsNull(report, path);
        FixedEvidencePresent(request, exit, erased, path);
      } else {
        var item :| item in OBSERVED_EVIDENCE && path == InObservation(report, item);
        EraseInObservation(report, item);
        ErasedReadsNull(Observation(report), item);
        ObservedPresent(request, erased, item);
      }
    }
  }

  // ----- The native and plain TCG report -----

  function RawEvidence(request: RunnerRequest): set<KeyPath> {
    RAW_RECEIPT + RAW_CLAIMS + {StartClaim(request)}
  }

  function StartClaim(request: RunnerRequest): KeyPath {
    Top(if request.backend.Native? then "native_runtime_started" else "tcg_runtime_started")
  }

  const RAW_RECEIPT: set<KeyPath> := {
    Top("schema"), Top("engine"), Top("target_major"), Top("returncode"), Top("termination")}

  const RAW_CLAIMS: set<KeyPath> := {
    Top("observed_markers"), In("observed_markers", "xnu"), In("observed_markers", "userspace"), Top("xnu_executed"),
    Top("macos_userspace_reached"), Top("guest_target_match"), Top("guest_kernel_major"), Top("input_integrity"),
    Top("macos_boot_verified")}

  lemma RawReceiptPresent(request: RunnerRequest, r: Value, path: KeyPath)
    requires RawVerdict.Terminated(request, r) && (path in RAW_RECEIPT || path == StartClaim(request))
    ensures Lookup(r, path) != Null
  {
    hide Lookup, Raw, RunnerBackend.Schema, RunnerBackend.Engine;
    LookupUnfolds(r);
  }

  lemma RawClaimPresent(request: RunnerRequest, exit: Option<int>, r: Value, path: KeyPath)
    requires RawVerdict.Verified(request, exit, r) && path in RAW_CLAIMS
    ensures Lookup(r, path) != Null
  {
    hide Lookup, Raw, XnuOffset, UserspaceOffset, RawVerdict.Identity, RawVerdict.Terminated;
    LookupUnfolds(r);
    OffsetsNeedArrays(r.At("observed_markers"), AnyXnu);
  }

  lemma RawEvidencePresent(request: RunnerRequest, exit: Option<int>, r: Value, path: KeyPath)
    requires RawVerdict.Verified(request, exit, r) && path in RawEvidence(request)
    ensures Lookup(r, path) != Null
  {
    hide RawVerdict.Terminated, RawVerdict.Xnu, RawVerdict.UserspaceReached, RawVerdict.TargetMatch, RawVerdict.Intact;
    hide Lookup;
    if path in RAW_CLAIMS {
      RawClaimPresent(request, exit, r, path);
    } else {
      RawReceiptPresent(request, r, path);
    }
  }

  /** The same for the other backends' reports: in particular no set of claims stands in for the markers. */
  lemma RawFailsClosed(request: RunnerRequest, exit: Option<int>, report: Value, path: KeyPath)
    requires !request.backend.TcgRecovery? && path in RawEvidence(request)
    ensures !Verdict.Evaluate(request, exit, Success(Erase(report, path))).macosBootVerified
  {
    hide RawVerdict.Verified, RawEvidence, Erase, Lookup;
    var erased := Erase(report, path);
    ErasedReadsNull(report, path);
    if RawVerdict.Verified(request, exit, erased) {
      RawEvidencePresent(request, exit, erased, path);
    }
  }
}
