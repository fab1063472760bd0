/** When the native and plain TCG verdict orders userspace after the target's own kernel, and when it does not. */
module RawOrder {
  import opened Wrappers
  import opened Bytes
  import opened Json
  import opened Request
  import opened Evidence
  import opened RawVerdict
  import opened Records

  /** No userspace marker lies above any kernel marker of the target's own major. */
  ghost predicate UserspaceFirst(request: RunnerRequest, report: Value) {
    var markers := report.At("observed_markers");
    forall x: u64, u: u64 ::
      Seen(markers.At("xnu"), XnuOf(request.targetMajor), x) && Seen(markers.At("userspace"), Userspace, u) ==> u <= x
  }

  /** The smallest recognised offset of an array of kernel markers. */
  function KernelStart(xnu: Value, kind: Kind): Option<u64> {
    Smallest(Offsets(xnu, kind))
  }

  /**
   Some recognised kernel marker stands before every one of the target's own major, of which there is at least one.
   */
  predicate ForeignKernelFirst(target: u64, xnu: Value) {
    var own, any := KernelStart(xnu, XnuOf(target)), KernelStart(xnu, AnyXnu);
    own.Some? && any.Some? && any.value < own.value
  }

  /**
   Whatever else the report says, if it shows these kernel markers and is verified then userspace follows the target's.
   */
  ghost predicate OrdersUserspace(request: RunnerRequest, xnu: Value) {
    forall exit: Option<int>, report: Value ::
      report.At("observed_markers").At("xnu") == xnu && Evaluate(request, exit, Success(report)).macosBootVerified ==>
        !UserspaceFirst(request, report)
  }

  /**
   The verdict guarantees the order for exactly the kernel markers that no foreign one leads: the missing filter on the
   major, not the userspace markers, decides.
   */
  lemma OrdersUserspaceExactly(request: RunnerRequest, xnu: Value)
    requires !request.backend.TcgRecovery?
    ensures OrdersUserspace(request, xnu) <==> !ForeignKernelFirst(request.targetMajor, xnu)
  {
    hide Evaluate, UserspaceFirst, ForeignKernelFirst, LateReport;
    if ForeignKernelFirst(request.targetMajor, xnu) {
      var report := LateReportExists(request, xnu);
      assert Evaluate(request, Some(0), Success(report)).macosBootVerified && UserspaceFirst(request, report);
    }
    forall exit: Option<int>, report: Value
      | report.At("observed_markers").At("xnu") == xnu && Evaluate(request, exit, Success(report)).macosBootVerified
      ensures UserspaceFirst(request, report) ==> ForeignKernelFirst(request.targetMajor, xnu)
    {
      LateBootExactly(request, exit, report);
    }
  }

  /**
   A verified report places the target's kernel last exactly when the last userspace marker is not above the first
   kernel marker of the target, and then a foreign kernel marker leads.
   */
  lemma LateBootExactly(request: RunnerRequest, exit: Option<int>, report: Value)
    requires Evaluate(request, exit, Success(report)).macosBootVerified
    ensures var markers := report.At("observed_markers");
            var own := KernelStart(markers.At("xnu"), XnuOf(request.targetMajor));
            var last := Largest(Offsets(markers.At("userspace"), Userspace));
            && own.Some? && last.Some?
            && (UserspaceFirst(request, report) <==> last.value <= own.value)
            && (UserspaceFirst(request, report) ==> ForeignKernelFirst(request.targetMajor, markers.At("xnu")))
  {
    VerifiedIsCausal(request, exit, Success(report));
    hide Evaluate;
    var markers := report.At("observed_markers");
    var xnu, userspace := markers.At("xnu"), markers.At("userspace");
    forall o: u64
      ensures o in Offsets(xnu, XnuOf(request.targetMajor)) <==> Seen(xnu, XnuOf(request.targetMajor), o)
      ensures o in Offsets(xnu, AnyXnu) <==> Seen(xnu, AnyXnu, o)
      ensures o in Offsets(userspace, Userspace) <==> Seen(userspace, Userspace, o)
    {
      OffsetsMember(xnu, XnuOf(request.targetMajor), o);
      OffsetsMember(xnu, AnyXnu, o);
      OffsetsMember(userspace, Userspace, o);
    }
  }

  // ----- A verified report for any kernel markers that a foreign one leads -----

  /** Every claim the verdict asks for, together with the given markers. */
  function LateReport(request: RunnerRequest, markers: Value): Value {
    Obj(map[
      "schema" := Str(request.backend.Schema()),
      "engine" := Str(request.backend.Engine()),
      "target_major" := Num(PosInt(request.targetMajor)),
      "native_runtime_started" := Bool(true),
      "tcg_runtime_started" := Bool(true),
      "returncode" := Num(PosInt(0)),
      "termination" := Str("guest_exit"),
      "xnu_executed" := Bool(true),
      "macos_userspace_reached" := Bool(true),
      "guest_target_match" := Bool(true),
      "guest_kernel_major" := Num(PosInt(request.targetMajor)),
      "input_integrity" := Bool(true),
      "macos_boot_verified" := Bool(true),
      "observed_markers" := markers])
  }

  lemma LateReportRuns(request: RunnerRequest, markers: Value)
    requires !request.backend.TcgRecovery?
    ensures Terminated(request, LateReport(request, markers))
  {
    hide Rank, RunnerBackend.Schema, RunnerBackend.Engine;
    ReportRanks();
    var r := LateReport(request, markers);
    assert r.At("schema") == Str(request.backend.Schema()) && r.At("engine") == Str(request.backend.Engine());
    assert r.At("termination") == Str("guest_exit");
  }

  lemma LateReportClaims(request: RunnerRequest, markers: Value)
    ensures var r := LateReport(request, markers);
            && Yes(r, "xnu_executed") && Yes(r, "macos_userspace_reached") && Yes(r, "guest_target_match")
            && r.At("guest_kernel_major") == Num(PosInt(request.targetMajor))
            && Yes(r, "macos_boot_verified") && r.At("observed_markers") == markers
  {
    hide Rank, RunnerBackend.Schema, RunnerBackend.Engine;
    ReportRanks();
  }

  lemma LateReportIsIntact(request: RunnerRequest, markers: Value)
    ensures var r := LateReport(request, markers);
            Yes(r, "input_integrity") && !Yes(r, "guest_inputs_modified") && r.At("error") == Null
  {
    hide Rank, RunnerBackend.Schema, RunnerBackend.Engine;
    ReportRanks();
  }

  /** Userspace stands where the target's first kernel marker does, and the report is verified all the same. */
  lemma LateReportExists(request: RunnerRequest, xnu: Value) returns (report: Value)
    requires !request.backend.TcgRecovery? && ForeignKernelFirst(request.targetMajor, xnu)
    ensures report.At("observed_markers").At("xnu") == xnu
    ensures Evaluate(request, Some(0), Success(report)).macosBootVerified && UserspaceFirst(request, report)
  {
    hide LateReport, MarkersWith, Yes, Terminated, Runtime, Rank;
    var u := KernelStart(xnu, XnuOf(request.targetMajor)).value;
    var markers := MarkersWith(xnu, u);
    report := LateReport(request, markers);
    LateReportRuns(request, markers);
    LateReportClaims(request, markers);
    LateReportIsIntact(request, markers);
    LateMarkersAreFound(request.targetMajor, xnu, u);
    TerminatedMeans(request, report);
  }

  lemma TerminatedMeans(request: RunnerRequest, r: Value)
    requires Terminated(request, r)
    ensures Identity(request, r) && Runtime(request, r)
  {
  }

  lemma LateMarkersAreFound(target: u64, xnu: Value, u: u64)
    requires ForeignKernelFirst(target, xnu) && KernelStart(xnu, XnuOf(target)) == Some(u)
    ensures var markers := MarkersWith(xnu, u);
            && XnuOffset(markers, AnyXnu).Some?
            && UserspaceOffset(markers, XnuOffset(markers, AnyXnu)).Some?
            && xnu.Arr?
            && (exists m ::
                 m in xnu.items && IsXnuMarker(m) && HasMajor(m, target) && m.At("byte_offset").AsU64().Some?)
    ensures forall x: u64 :: Seen(xnu, XnuOf(target), x) ==> u <= x
    ensures forall v: u64 :: Seen(MarkersWith(xnu, u).At("userspace"), Userspace, v) ==> v == u
  {
    hide MarkersWith, UserspaceMarker;
    var markers := MarkersWith(xnu, u);
    XnuOffsetExact(markers, AnyXnu);
    XnuOffsetExact(markers, XnuOf(target));
    assert Seen(markers.At("userspace"), Userspace, u) by {
      assert UserspaceMarker(u) in markers.At("userspace").items;
    }
    UserspaceExact(markers, AnyXnu);
  }

  /** So for every such request some verified report puts userspace before the target's kernel. */
  lemma TargetKernelMayComeLast(request: RunnerRequest)
    requires !request.backend.TcgRecovery?
    ensures exists report: Value ::
              Evaluate(request, Some(0), Success(report)).macosBootVerified && UserspaceFirst(request, report)
  {
    hide Evaluate, UserspaceFirst;
    var xnu := ForeignLog(request.targetMajor);
    var report := LateReportExists(request, xnu);
  }

  /** The next release's kernel at the start of the log and the target's own at byte 300. */
  lemma ForeignLog(target: u16) returns (xnu: Value)
    ensures xnu == Arr([KernelMarker(0, target + 1), KernelMarker(300, target)])
    ensures ForeignKernelFirst(target, xnu)
  {
    hide KernelMarker;
    var foreign, own := KernelMarker(0, target + 1), KernelMarker(300, target);
    xnu := Arr([foreign, own]);
    forall o: u64
      ensures o in Offsets(xnu, XnuOf(target)) <==> o == 300
      ensures o == 0 ==> o in Offsets(xnu, AnyXnu)
    {
      OffsetsMember(xnu, XnuOf(target), o);
      OffsetsMember(xnu, AnyXnu, o);
      assert forall m <- xnu.items :: m == foreign || m == own;
      assert own in xnu.items && foreign in xnu.items;
    }
    assert 300 in Offsets(xnu, XnuOf(target));
    assert 0 in Offsets(xnu, AnyXnu);
  }
}
