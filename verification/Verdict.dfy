/** The evaluator a run uses, and what holds of every outcome whichever receipt it judged. */
module Verdict {
  import opened Wrappers
  import opened Json
  import opened Request
  import RawVerdict
  import RecoveryVerdict

  function Evaluate(request: RunnerRequest, exit: Option<int>, parsed: Result<Value, string>): RunOutcome {
    if request.backend.TcgRecovery? then RecoveryVerdict.Evaluate(request, exit, parsed)
    else RawVerdict.Evaluate(request, exit, parsed)
  }

  /** No failure, a verified boot and a stopped guest are the same thing; the state is never Running. */
  lemma VerifiedMeansStopped(request: RunnerRequest, exit: Option<int>, parsed: Result<Value, string>)
    ensures var o := Evaluate(request, exit, parsed);
            && (o.failure.None? <==> o.macosBootVerified)
            && (StateOf(o) == Stopped <==> o.macosBootVerified)
            && (StateOf(o).Faulted? <==> !o.macosBootVerified)
            && (o.failure.Some? ==> StateOf(o) == Faulted(o.failure.value))
  {
  }

  /** An unreadable report proves nothing about the guest and is reported verbatim. */
  lemma ParseErrorIsVerbatim(request: RunnerRequest, exit: Option<int>, error: string)
    ensures var o := Evaluate(request, exit, Failure(error));
            && !o.guestRuntimeStarted && !o.guestProcessTerminated && !o.xnuExecuted && !o.macosUserspaceReached
            && !o.guestTargetMatch && !o.inputIntegrity && !o.macosBootVerified
            && o.exitCode == exit && o.engine == request.backend.Engine()
            && o.recoveryProgress ==
               (if request.backend.TcgRecovery? then
                  Some(RecoveryProgress(false, false, false, false, false, 0, false, false))
                else None)
            && o.report == None && o.failure == Some(error)
  {
    assert Null.At("schema") == Null;
  }

  /** A nonzero or missing exit code, or a receipt of another backend or target, can never be verified. */
  lemma ForeignReceiptsProveNothing(request: RunnerRequest, exit: Option<int>, report: Value)
    requires exit != Some(0) || report.At("schema").AsStr() != Some(request.backend.Schema())
             || report.At("target_major").AsU64() != Some(request.targetMajor)
    ensures !Evaluate(request, exit, Success(report)).macosBootVerified
  {
    hide RawVerdict.Verified, RecoveryVerdict.Verified;
    if Evaluate(request, exit, Success(report)).macosBootVerified {
      if request.backend.TcgRecovery? {
        VerifiedReceiptMatches(request, exit, report);
      } else {
        VerifiedReportMatches(request, exit, report);
      }
    }
  }

  lemma VerifiedReportMatches(request: RunnerRequest, exit: Option<int>, report: Value)
    requires RawVerdict.Verified(request, exit, report)
    ensures exit == Some(0) && report.At("schema").AsStr() == Some(request.backend.Schema())
    ensures report.At("target_major").AsU64() == Some(request.targetMajor)
  {
    hide RunnerBackend.Schema, RawVerdict.Xnu, RawVerdict.UserspaceReached, RawVerdict.TargetMatch, RawVerdict.Intact;
  }

  lemma VerifiedReceiptMatches(request: RunnerRequest, exit: Option<int>, report: Value)
    requires request.backend.TcgRecovery? && RecoveryVerdict.Verified(request, exit, report)
    ensures exit == Some(0) && report.At("schema").AsStr() == Some(request.backend.Schema())
    ensures report.At("target_major").AsU64() == Some(request.targetMajor)
  {
    hide RecoveryVerdict.Progress, RecoveryVerdict.Stage2First, RecoveryVerdict.Xnu, RecoveryVerdict.UserspaceReached;
    hide RecoveryVerdict.TargetMatch, RecoveryVerdict.HandoffIdentity, RecoveryVerdict.Runtime;
  }
}
