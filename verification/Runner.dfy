/** From a finished worker to its verdict: the report is read within bounds, parsed and judged. */
module Runner {
  import opened Wrappers
  import opened Bytes
  import opened Json
  import opened Request
  import opened Reader
  import Invocation
  import Verdict
  import RecoveryVerdict
  import RecoveryWitness

  const MAX_REPORT_BYTES: u64 := 4 * 1024 * 1024
  const MAX_RECOVERY_REPORT_BYTES: u64 := 8 * 1024 * 1024 + 1

  function ReportLimit(request: RunnerRequest): u64 {
    if request.backend.TcgRecovery? then MAX_RECOVERY_REPORT_BYTES else MAX_REPORT_BYTES
  }

  function TooLarge(limit: u64): string {
    "worker report exceeds " + Invocation.Decimal(limit / (1024 * 1024)) + " MiB"
  }

  /** What the verdict is about: the whole stream when it fits, and only its size otherwise. */
  function Judged(content: seq<byte>, limit: u64, parse: seq<byte> -> Result<Value, string>): Result<Value, string> {
    if |content| > limit then Failure(TooLarge(limit)) else parse(content)
  }

  /** Judges the stream itself, whatever chunks it came in and although only a bounded part of it was kept. */
  method Judge(request: RunnerRequest, exit: Option<int>, input: Input, parse: seq<byte> -> Result<Value, string>)
    returns (r: Result<(RunOutcome, seq<byte>), string>)
    modifies input
    ensures r.Success? ==>
              && r.value.0 == Verdict.Evaluate(request, exit, Judged(old(input.rest), ReportLimit(request), parse))
              && r.value.1 == old(input.rest)
    ensures r.Success? ==>
              var content, recovery := old(input.rest), request.backend.TcgRecovery?;
              r.value.0 ==
              Verdict.Evaluate(
                request, exit,
                if |content| > (if recovery then 8_388_609 else 4_194_304) then
                  Failure("worker report exceeds " + (if recovery then "8" else "4") + " MiB")
                else parse(content))
    ensures !old(input.failed) ==> (r.Failure? <==> input.failed)
  {
    hide Verdict.Evaluate;
    var limit := ReportLimit(request);
    var read :- ReadReport(input, limit);
    var bytes := read.0;
    var parsed := if |bytes| > limit then Failure(TooLarge(limit)) else parse(bytes);
    r := Success((Verdict.Evaluate(request, exit, parsed), read.1));
  }

  /** An oversized report proves nothing, whatever it says, and the reason names the limit in MiB. */
  lemma OversizedReportProvesNothing(
    request: RunnerRequest, exit: Option<int>, content: seq<byte>, parse: seq<byte> -> Result<Value, string>)
    requires |content| > if request.backend.TcgRecovery? then 8_388_609 else 4_194_304
    ensures var o := Verdict.Evaluate(request, exit, Judged(content, ReportLimit(request), parse));
            && !o.macosBootVerified && !o.guestRuntimeStarted && !o.inputIntegrity
            && o.failure ==
               Some("worker report exceeds " + (if request.backend.TcgRecovery? then "8" else "4") + " MiB")
  {
    hide Verdict.Evaluate;
    Verdict.ParseErrorIsVerbatim(request, exit, TooLarge(ReportLimit(request)));
  }

  /**
   A matching supervisor receipt names the requested output exactly when that output is a text path; for any other
   path a missing name also matches. An accepted request has a text path, so its receipt always names it.
   */
  lemma ReceiptNamesTextOutput(platform: Invocation.Platform, request: RunnerRequest, env: Value)
    requires RecoveryVerdict.Identity(request, env)
    ensures request.output.TextPath? <==> env.At("requested_output").Str?
    ensures request.output.TextPath? ==> env.At("requested_output") == Str(request.output.text)
    ensures Invocation.InvocationOf(platform, request).Success? ==> request.output.TextPath?
  {
  }

  /** For a path that is no text a receipt that names no output is verified, but no such request is accepted. */
  lemma UnnamedOutputMatches(platform: Invocation.Platform, request: RunnerRequest)
    requires request.backend.TcgRecovery? && request.output.RawPath?
    ensures exists receipt: Value ::
              && receipt.At("requested_output") == Null
              && Verdict.Evaluate(request, Some(0), Success(receipt)).macosBootVerified
    ensures Invocation.InvocationOf(platform, request).Failure?
  {
    hide RecoveryVerdict.Evaluate, RecoveryWitness.Receipt;
    RecoveryWitness.ReceiptIsVerified(request);
    var receipt := RecoveryWitness.Receipt(request);
    assert Verdict.Evaluate(request, Some(0), Success(receipt)).macosBootVerified;
  }
}
