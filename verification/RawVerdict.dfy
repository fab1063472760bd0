/** The verdict on a native or plain TCG worker report. */
module RawVerdict {
  import opened Wrappers
  import opened Json
  import opened Request
  import opened Evidence

  predicate Yes(r: Value, key: string) {
    r.Get(key).Some? && r.Get(key).value.AsBool() == Some(true)
  }

  predicate Identity(request: RunnerRequest, r: Value) {
    && r.At("schema").AsStr() == Some(request.backend.Schema())
    && r.At("engine").AsStr() == Some(request.backend.Engine())
    && r.At("target_major").AsU64() == Some(request.targetMajor)
  }

  predicate Runtime(request: RunnerRequest, r: Value) {
    Identity(request, r) && Yes(r, if request.backend.Native? then "native_runtime_started" else "tcg_runtime_started")
  }

  predicate Terminated(request: RunnerRequest, r: Value) {
    && Runtime(request, r)
    && r.At("returncode").AsI64().Some?
    && r.At("termination").AsStr().Some? && r.At("termination").AsStr().value != ""
  }

  predicate Xnu(request: RunnerRequest, r: Value) {
    Runtime(request, r) && Yes(r, "xnu_executed") && XnuOffset(r.At("observed_markers"), AnyXnu).Some?
  }

  predicate UserspaceReached(request: RunnerRequest, r: Value) {
    var markers := r.At("observed_markers");
    && Runtime(request, r)
    && Yes(r, "macos_userspace_reached")
    && UserspaceOffset(markers, XnuOffset(markers, AnyXnu)).Some?
  }

  predicate TargetMatch(request: RunnerRequest, r: Value) {
    && Identity(request, r)
    && Yes(r, "guest_target_match")
    && r.At("guest_kernel_major").AsU64() == Some(request.targetMajor)
    && var xnu := r.At("observed_markers").At("xnu");
    && xnu.Arr?
    && exists m ::
         m in xnu.items && IsXnuMarker(m) && HasMajor(m, request.targetMajor) && m.At("byte_offset").AsU64().Some?
  }

  predicate Intact(request: RunnerRequest, r: Value) {
    Identity(request, r) && Yes(r, "input_integrity") && !Yes(r, "guest_inputs_modified")
  }

  predicate Verified(request: RunnerRequest, exit: Option<int>, r: Value) {
    && exit == Some(0)
    && Terminated(request, r)
    && Xnu(request, r)
    && UserspaceReached(request, r)
    && TargetMatch(request, r)
    && Intact(request, r)
    && Yes(r, "macos_boot_verified")
    && r.At("error").Null?
  }

  /** The chain of evidence, link by link in the order in which the links are blamed, and what is said of each. */
  function Links(request: RunnerRequest, r: Value): (links: seq<bool>)
    ensures |links| == 4
  {
    [Identity(request, r), Runtime(request, r), Terminated(request, r), Intact(request, r)]
  }

  const BLAMES := [
    "worker report has no matching backend/target receipt",
    "guest runtime was not started",
    "guest process termination is unconfirmed",
    "original input integrity is unconfirmed"]

  const INCOMPLETE := "target-matching XNU/userspace boot evidence is incomplete"

  function Reason(request: RunnerRequest, parsed: Result<Value, string>): string {
    if parsed.Failure? then parsed.error
    else if parsed.value.At("error").Str? then parsed.value.At("error").s
    else if parsed.value.At("blocker").Str? then parsed.value.At("blocker").s
    else Blame(Links(request, parsed.value), BLAMES, INCOMPLETE)
  }

  function Evaluate(request: RunnerRequest, exit: Option<int>, parsed: Result<Value, string>): RunOutcome {
    var r := Received(parsed);
    RunOutcome(
      exit,
      request.backend.Engine(),
      Runtime(request, r),
      Terminated(request, r),
      Xnu(request, r),
      UserspaceReached(request, r),
      TargetMatch(request, r),
      Intact(request, r),
      Verified(request, exit, r),
      None,
      if parsed.Success? then Some(parsed.value) else None,
      if Verified(request, exit, r) then None else Some(Reason(request, parsed)))
  }

  /**
   An error or blocker the worker names is quoted. A report that names none is blamed on link `k` exactly when that is
   its first broken link, so the reason identifies the link.
   */
  lemma FirstBrokenLinkIsBlamed(request: RunnerRequest, exit: Option<int>, report: Value, k: nat)
    requires k < 4
    ensures var error, blocker, failure :=
              report.At("error"), report.At("blocker"), Evaluate(request, exit, Success(report)).failure;
            var broken := FirstBroken(Links(request, report), k);
            && (broken ==>
                 failure == Some(if error.Str? then error.s else if blocker.Str? then blocker.s else BLAMES[k]))
            && (!error.Str? && !blocker.Str? && failure == Some(BLAMES[k]) ==> broken)
  {
    hide Blame, FirstBroken, Links, Identity, Runtime, Xnu, UserspaceReached, TargetMatch;
    BlamesDiffer();
    BlameExact(Links(request, report), BLAMES, INCOMPLETE, k);
    if FirstBroken(Links(request, report), k) {
      BrokenIsUnverified(request, exit, report, k);
    }
  }

  lemma BrokenIsUnverified(request: RunnerRequest, exit: Option<int>, r: Value, k: nat)
    requires FirstBroken(Links(request, r), k)
    ensures !Verified(request, exit, r)
  {
    hide Xnu, UserspaceReached, TargetMatch;
    assert k == 0 || k == 1 || k == 2 || k == 3;
  }

  lemma BlamesDiffer()
    ensures forall i, j :: 0 <= i < j < 4 ==> BLAMES[i] != BLAMES[j]
    ensures INCOMPLETE !in BLAMES
  {
    assert |BLAMES[0]| == 52 && |BLAMES[1]| == 29 && |BLAMES[2]| == 40 && |BLAMES[3]| == 39 && |INCOMPLETE| == 57;
  }

  /**
   A verified boot has a recognised kernel marker before a recognised userspace marker, and one of the target's major.
   */
  lemma VerifiedIsCausal(request: RunnerRequest, exit: Option<int>, parsed: Result<Value, string>)
    requires Evaluate(request, exit, parsed).macosBootVerified
    ensures exit == Some(0) && parsed.Success?
    ensures var markers := Received(parsed).At("observed_markers");
            && (exists x, u ::
                 Seen(markers.At("xnu"), AnyXnu, x) && Seen(markers.At("userspace"), Userspace, u) && x < u)
            && (exists x :: Seen(markers.At("xnu"), XnuOf(request.targetMajor), x))
  {
    var markers := Received(parsed).At("observed_markers");
    UserspaceExact(markers, AnyXnu);
    var xnu := markers.At("xnu");
    var m :| m in xnu.items && IsXnuMarker(m) && HasMajor(m, request.targetMajor) && m.At("byte_offset").AsU64().Some?;
    assert Seen(xnu, XnuOf(request.targetMajor), m.At("byte_offset").AsU64().value);
  }
}
