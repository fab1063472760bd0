/**
 The native and plain TCG verdict item by item: for every flag, exactly which values of the report raise it, and word
 for word what is said when the boot is not verified.
 */
module RawItems {
  import opened Wrappers
  import opened Bytes
  import opened Json
  import opened Request
  import opened Evidence
  import opened RawVerdict
  import opened FailClosed

  lemma YesInFull(r: Value, key: string)
    ensures Yes(r, key) <==> r.At(key) == Bool(true)
  {
  }

  /** The report's receipt: its schema and engine are the backend's, and its target the request's. */
  lemma IdentityInFull(request: RunnerRequest, r: Value)
    requires !request.backend.TcgRecovery?
    ensures Identity(request, r) <==>
              && r.At("schema") ==
                 Str(if request.backend.Native? then "26x86.macosvm-native/1" else "26x86.vmapple-tcg/1")
              && r.At("engine") == Str(if request.backend.Native? then "macosvm" else "qemu-vmapple-tcg")
              && r.At("target_major") == Num(PosInt(request.targetMajor))
  {
    hide Value.At;
  }

  /** The flags of the run: the receipt, the backend's own start claim, an exit of the guest, and unmodified inputs. */
  lemma RunFlagsInFull(request: RunnerRequest, exit: Option<int>, r: Value)
    requires !request.backend.TcgRecovery?
    ensures var o := Evaluate(request, exit, Success(r));
            && (o.guestRuntimeStarted <==>
                 && Identity(request, r)
                 && (if request.backend.Native? then r.At("native_runtime_started") == Bool(true)
                     else r.At("tcg_runtime_started") == Bool(true)))
            && (o.guestProcessTerminated <==>
                 && o.guestRuntimeStarted
                 && r.At("termination").Str? && r.At("termination").s != ""
                 && r.At("returncode").Num?
                 && match r.At("returncode").number
                    case PosInt(n) => n <= 0x7FFF_FFFF_FFFF_FFFF
                    case NegInt(_) => true
                    case Float(_) => false)
            && (o.inputIntegrity <==>
                 && Identity(request, r)
                 && r.At("input_integrity") == Bool(true) && r.At("guest_inputs_modified") != Bool(true))
  {
    hide Value.At, Yes, Identity, Verified, Reason, Xnu, UserspaceReached, TargetMatch;
    YesInFull(r, "native_runtime_started");
    YesInFull(r, "tcg_runtime_started");
    YesInFull(r, "input_integrity");
    YesInFull(r, "guest_inputs_modified");
  }

  /** The flags of the boot: each a claim, and markers that bear it out. */
  lemma BootFlagsInFull(request: RunnerRequest, exit: Option<int>, r: Value)
    requires !request.backend.TcgRecovery?
    ensures var o, markers := Evaluate(request, exit, Success(r)), r.At("observed_markers");
            && (o.xnuExecuted <==>
                 && o.guestRuntimeStarted
                 && r.At("xnu_executed") == Bool(true)
                 && exists x: u64 :: Seen(markers.At("xnu"), AnyXnu, x))
            && (o.macosUserspaceReached <==>
                 && o.guestRuntimeStarted
                 && r.At("macos_userspace_reached") == Bool(true)
                 && exists x: u64, u: u64 ::
                      Seen(markers.At("xnu"), AnyXnu, x) && Seen(markers.At("userspace"), Userspace, u) && x < u)
            && (o.guestTargetMatch <==>
                 && Identity(request, r)
                 && r.At("guest_target_match") == Bool(true)
                 && r.At("guest_kernel_major") == Num(PosInt(request.targetMajor))
                 && exists x: u64 :: Seen(markers.At("xnu"), XnuOf(request.targetMajor), x))
  {
    hide Value.At, Yes, Identity, Runtime, Verified, Reason, Terminated, Intact, XnuOffset, UserspaceOffset;
    YesInFull(r, "xnu_executed");
    YesInFull(r, "macos_userspace_reached");
    YesInFull(r, "guest_target_match");
    XnuOffsetExact(r.At("observed_markers"), AnyXnu);
    UserspaceExact(r.At("observed_markers"), AnyXnu);
    TargetMarker(r.At("observed_markers").At("xnu"), request.targetMajor);
  }

  lemma TargetMarker(xnu: Value, target: u64)
    ensures (exists x: u64 :: Seen(xnu, XnuOf(target), x)) <==>
              && xnu.Arr?
              && exists m :: m in xnu.items && IsXnuMarker(m) && HasMajor(m, target)
                   && m.At("byte_offset").AsU64().Some?
  {
    hide Value.At, IsXnuMarker, HasMajor;
    if xnu.Arr? {
      if m :| m in xnu.items && IsXnuMarker(m) && HasMajor(m, target) && m.At("byte_offset").AsU64().Some? {
        assert Seen(xnu, XnuOf(target), m.At("byte_offset").AsU64().value);
      }
    }
  }

  /** Exactly the reports that are verified, and what the outcome says of every other. */
  lemma OutcomeInFull(request: RunnerRequest, exit: Option<int>, r: Value)
    requires !request.backend.TcgRecovery?
    ensures var o := Evaluate(request, exit, Success(r));
            && o.exitCode == exit && o.report == Some(r) && o.recoveryProgress == None
            && o.engine == (if request.backend.Native? then "macosvm" else "qemu-vmapple-tcg")
            && (o.macosBootVerified <==>
                 && exit == Some(0)
                 && o.guestProcessTerminated && o.xnuExecuted && o.macosUserspaceReached && o.guestTargetMatch
                 && o.inputIntegrity
                 && r.At("macos_boot_verified") == Bool(true) && r.At("error") == Null)
            && o.failure ==
               if o.macosBootVerified then None
               else if r.At("error").Str? then Some(r.At("error").s)
               else if r.At("blocker").Str? then Some(r.At("blocker").s)
               else if !Identity(request, r) then Some("worker report has no matching backend/target receipt")
               else if !o.guestRuntimeStarted then Some("guest runtime was not started")
               else if !o.guestProcessTerminated then Some("guest process termination is unconfirmed")
               else if !o.inputIntegrity then Some("original input integrity is unconfirmed")
               else Some("target-matching XNU/userspace boot evidence is incomplete")
  {
    hide Value.At, Yes, Identity, Runtime, Terminated, Xnu, UserspaceReached, TargetMatch, Intact, Blame;
    YesInFull(r, "macos_boot_verified");
    FirstOfFour(Links(request, r), BLAMES, INCOMPLETE);
  }

  lemma FirstOfFour(links: seq<bool>, blames: seq<string>, intact: string)
    requires |links| == |blames| == 4
    ensures Blame(links, blames, intact) ==
            if !links[0] then blames[0]
            else if !links[1] then blames[1]
            else if !links[2] then blames[2]
            else if !links[3] then blames[3]
            else intact
  {
    BlameStep(links, blames, intact);
    BlameStep(links[1..], blames[1..], intact);
    BlameStep(links[2..], blames[2..], intact);
    BlameStep(links[3..], blames[3..], intact);
  }

  /** A verified report gives every listed item a value of the required kind, and makes neither denial. */
  lemma VerifiedItems(request: RunnerRequest, exit: Option<int>, r: Value)
    requires !request.backend.TcgRecovery? && Verdict.Evaluate(request, exit, Success(r)).macosBootVerified
    ensures Lookup(r, Top("schema")) ==
            Str(if request.backend.Native? then "26x86.macosvm-native/1" else "26x86.vmapple-tcg/1")
    ensures Lookup(r, Top("engine")) == Str(if request.backend.Native? then "macosvm" else "qemu-vmapple-tcg")
    ensures Lookup(r, Top("target_major")) == Lookup(r, Top("guest_kernel_major")) == Num(PosInt(request.targetMajor))
    ensures Lookup(r, Top(if request.backend.Native? then "native_runtime_started" else "tcg_runtime_started")) ==
            Bool(true)
    ensures Lookup(r, Top("termination")).Str? && Lookup(r, Top("termination")) != Str("")
    ensures Lookup(r, Top("returncode")).Num? && !Lookup(r, Top("returncode")).number.Float?
    ensures Lookup(r, Top("xnu_executed")) == Lookup(r, Top("macos_userspace_reached")) == Bool(true)
    ensures Lookup(r, Top("guest_target_match")) == Lookup(r, Top("input_integrity")) == Bool(true)
    ensures Lookup(r, Top("macos_boot_verified")) == Bool(true)
    ensures Lookup(r, In("observed_markers", "xnu")).Arr? && Lookup(r, In("observed_markers", "userspace")).Arr?
    ensures Lookup(r, Top("error")) == Null && Lookup(r, Top("guest_inputs_modified")) != Bool(true)
  {
    hide Lookup, Value.At, Evaluate;
    RunFlagsInFull(request, exit, r);
    BootFlagsInFull(request, exit, r);
    OutcomeInFull(request, exit, r);
    IdentityInFull(request, r);
    LookupUnfolds(r);
  }

  /** An error or modified inputs are enough to refuse a report. */
  lemma DenialsDeny(request: RunnerRequest, exit: Option<int>, r: Value)
    requires !request.backend.TcgRecovery?
    requires Lookup(r, Top("error")) != Null || Lookup(r, Top("guest_inputs_modified")) == Bool(true)
    ensures !Verdict.Evaluate(request, exit, Success(r)).macosBootVerified
  {
    hide Lookup, Verdict.Evaluate, Top;
    if Verdict.Evaluate(request, exit, Success(r)).macosBootVerified {
      VerifiedItems(request, exit, r);
    }
  }
}
