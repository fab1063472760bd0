/**
 An accepted request can be read back from its argument vector, field by field: the invocation loses nothing it should
 carry.
 */
module InvocationLaws {
  import opened Bytes
  import opened Request
  import opened Invocation

  // ----- The reader -----

  function Nth(s: seq<string>, i: nat): string {
    if i < |s| then s[i] else ""
  }

  function Behind(s: seq<string>, n: nat): seq<string> {
    if n <= |s| then s[n..] else []
  }

  function PathAt(s: seq<string>, i: nat): Path {
    TextPath(Nth(s, i))
  }

  function NumberAt(s: seq<string>, i: nat): u32 {
    var n := Undecimal(Nth(s, i));
    if 0 <= n <= U32_MAX then n else 0
  }

  /** The backend and the number of arguments it takes up. */
  function ReadBackend(args: seq<string>): (RunnerBackend, nat) {
    if Nth(args, 1) == "x86.recovery_supervisor" then
      var optional := Nth(args, 30) == "--optional-rpc-unavailable";
      (TcgRecovery(
         PathAt(args, 3), PathAt(args, 5), PathAt(args, 7), NumberAt(args, 19), NumberAt(args, 21), PathAt(args, 9),
         PathAt(args, 11), PathAt(args, 13), PathAt(args, 15), PathAt(args, 17), NumberAt(args, 23), NumberAt(args, 25),
         NumberAt(args, 27), optional),
       if optional then 31 else 30)
    else if Nth(args, 3) == "run-native" then (Native(PathAt(args, 5)), 6)
    else
      (Tcg(
         PathAt(args, 5), PathAt(args, 7), PathAt(args, 9),
         if Nth(args, 11) == "avpbooter" then Avpbooter else IbootStage2,
         NumberAt(args, 13), NumberAt(args, 15)),
       18)
  }

  function ReadWorker(host: RunnerHost, repository: Path, args: seq<string>): RunnerRequest {
    var (backend, n) := ReadBackend(args);
    var rest := Behind(args, n);
    RunnerRequest(
      host, backend, repository, PathAt(rest, 3), PathAt(rest, 5), NOT_CARRIED,
      if NumberAt(rest, 1) <= U16_MAX then NumberAt(rest, 1) else 0,
      if backend.TcgRecovery? then 0 else NumberAt(rest, 9),
      NumberAt(rest, 7),
      true)
  }

  function ReadBack(c: Command): RunnerRequest {
    match c.currentDir
    case Some(repository) => ReadWorker(Local(c.executable), repository, c.arguments)
    case None =>
      ReadWorker(Wsl(Nth(c.arguments, 1), PathAt(c.arguments, 5)), PathAt(c.arguments, 3), Behind(c.arguments, 6))
  }

  const NOT_CARRIED := TextPath("")

  /** The request without what an invocation does not carry: the receipt directory, and recovery's unused timeout. */
  function Carried(r: RunnerRequest): RunnerRequest {
    r.(hostReceiptDir := NOT_CARRIED,
       observationTimeoutSecs := if r.backend.TcgRecovery? then 0 else r.observationTimeoutSecs)
  }

  // ----- It reads what the builder wrote -----

  predicate TextBackend(b: RunnerBackend) {
    match b
    case Native(macosvm) => macosvm.TextPath?
    case Tcg(qemu, qemuImg, firmware, _, _, _) => qemu.TextPath? && qemuImg.TextPath? && firmware.TextPath?
    case _ => forall i :: 0 <= i < 8 ==> RecoveryPaths(b)[i].1.TextPath?
  }

  lemma NumberReadBack(s: seq<string>, i: nat, n: u32)
    requires i < |s| && s[i] == Decimal(n)
    ensures NumberAt(s, i) == n
  {
    DecimalRoundTrip(n);
  }

  lemma NativeReadBack(b: RunnerBackend, rest: seq<string>)
    requires b.Native? && TextBackend(b)
    ensures ReadBackend(BackendArguments(b) + rest) == (b, |BackendArguments(b)|)
  {
  }

  lemma TcgReadBack(b: RunnerBackend, rest: seq<string>)
    requires b.Tcg? && TextBackend(b)
    ensures ReadBackend(BackendArguments(b) + rest) == (b, |BackendArguments(b)|)
  {
    hide Decimal, Undecimal, NumberAt;
    var args := BackendArguments(b) + rest;
    NumberReadBack(args, 13, b.memoryMib);
    NumberReadBack(args, 15, b.smp);
  }

  lemma RecoveryArguments(b: RunnerBackend, i: nat)
    requires b.TcgRecovery? && i < 8
    ensures |BackendArguments(b)| == if b.optionalRpcUnavailable then 31 else 30
    ensures BackendArguments(b)[3 + 2 * i] == PathText(RecoveryPaths(b)[i].1)
    ensures i < 6 ==> BackendArguments(b)[19 + 2 * i] == Decimal(RecoveryNumbers(b)[i].1)
  {
    hide Decimal, RecoveryPaths, RecoveryNumbers;
    var paths, numbers := PathArguments(RecoveryPaths(b)), NumberArguments(RecoveryNumbers(b));
    assert BackendArguments(b)[3 + 2 * i] == paths[1 + 2 * i];
    if i < 6 {
      assert BackendArguments(b)[19 + 2 * i] == numbers[1 + 2 * i];
    }
  }

  lemma RecoveryPathReadBack(b: RunnerBackend, rest: seq<string>, i: nat)
    requires b.TcgRecovery? && TextBackend(b) && i < 8
    ensures PathAt(BackendArguments(b) + rest, 3 + 2 * i) == RecoveryPaths(b)[i].1
  {
    hide BackendArguments, PathText, RecoveryPaths;
    RecoveryArguments(b, i);
    PathTextOf(RecoveryPaths(b)[i].1);
  }

  lemma RecoveryNumberReadBack(b: RunnerBackend, rest: seq<string>, i: nat)
    requires b.TcgRecovery? && i < 6
    ensures NumberAt(BackendArguments(b) + rest, 19 + 2 * i) == RecoveryNumbers(b)[i].1
  {
    hide BackendArguments, RecoveryNumbers, NumberAt;
    RecoveryArguments(b, i);
    NumberReadBack(BackendArguments(b) + rest, 19 + 2 * i, RecoveryNumbers(b)[i].1);
  }

  lemma RecoveryReadBack(b: RunnerBackend, rest: seq<string>)
    requires b.TcgRecovery? && TextBackend(b) && |rest| > 0 && rest[0] == "--target"
    ensures ReadBackend(BackendArguments(b) + rest) == (b, |BackendArguments(b)|)
  {
    hide BackendArguments, TextBackend, PathAt, NumberAt;
    RecoveryMarks(b);
    RecoveryPathReadBack(b, rest, 0);
    RecoveryPathReadBack(b, rest, 1);
    RecoveryPathReadBack(b, rest, 2);
    RecoveryPathReadBack(b, rest, 3);
    RecoveryPathReadBack(b, rest, 4);
    RecoveryPathReadBack(b, rest, 5);
    RecoveryPathReadBack(b, rest, 6);
    RecoveryPathReadBack(b, rest, 7);
    RecoveryNumberReadBack(b, rest, 0);
    RecoveryNumberReadBack(b, rest, 1);
    RecoveryNumberReadBack(b, rest, 2);
    RecoveryNumberReadBack(b, rest, 3);
    RecoveryNumberReadBack(b, rest, 4);
  }

  lemma PathTextOf(p: Path)
    requires p.TextPath?
    ensures TextPath(PathText(p)) == p
  {
  }

  lemma RecoveryMarks(b: RunnerBackend)
    requires b.TcgRecovery?
    ensures |BackendArguments(b)| == if b.optionalRpcUnavailable then 31 else 30
    ensures BackendArguments(b)[1] == "x86.recovery_supervisor"
    ensures b.optionalRpcUnavailable ==> BackendArguments(b)[30] == "--optional-rpc-unavailable"
  {
    hide RecoveryPaths, RecoveryNumbers;
  }

  lemma BackendReadBack(b: RunnerBackend, rest: seq<string>)
    requires TextBackend(b) && |rest| > 0 && rest[0] == "--target"
    ensures ReadBackend(BackendArguments(b) + rest) == (b, |BackendArguments(b)|)
  {
    hide TextBackend, BackendArguments, ReadBackend;
    match b {
      case Native(_) => NativeReadBack(b, rest);
      case Tcg(_, _, _, _, _, _) => TcgReadBack(b, rest);
      case _ => RecoveryReadBack(b, rest);
    }
  }

  lemma WorkerReadBack(r: RunnerRequest)
    requires TextBackend(r.backend) && r.repository.TextPath? && r.vmJson.TextPath? && r.output.TextPath?
    requires r.researchOnly
    ensures ReadWorker(r.host, r.repository, WorkerArguments(r)) == Carried(r)
  {
    hide TextBackend, BackendArguments, ReadBackend, Decimal, Undecimal, NumberAt;
    var head, common, observation := BackendArguments(r.backend), CommonArguments(r), ObservationArguments(r);
    assert WorkerArguments(r) == head + (common + observation);
    BackendReadBack(r.backend, common + observation);
    var rest := Behind(WorkerArguments(r), |head|);
    assert rest == common + observation;
    NumberReadBack(rest, 1, r.targetMajor);
    NumberReadBack(rest, 7, r.durationSecs);
    if !r.backend.TcgRecovery? {
      NumberReadBack(rest, 9, r.observationTimeoutSecs);
    }
  }

  lemma AcceptedIsText(platform: Platform, r: RunnerRequest)
    requires Refusal(platform, r).None?
    ensures TextBackend(r.backend) && r.repository.TextPath? && r.vmJson.TextPath? && r.output.TextPath?
    ensures r.researchOnly
    ensures r.host.python.TextPath?
  {
    assert BackendRefusal(r.backend, r.durationSecs).None?;
    if r.backend.TcgRecovery? {
      forall i | 0 <= i < 8 ensures RecoveryPaths(r.backend)[i].1.TextPath? {
        assert IsText(RecoveryPaths(r.backend)[i].1);
      }
    }
  }

  // ----- The main results -----

  /** Reading the invocation back gives the whole request except what an invocation does not carry. */
  lemma InvocationReadBack(platform: Platform, r: RunnerRequest)
    requires InvocationOf(platform, r).Success?
    ensures ReadBack(InvocationOf(platform, r).value) == Carried(r)
  {
    hide WorkerArguments, ReadWorker, TextBackend, BackendRefusal;
    AcceptedIsText(platform, r);
    WorkerReadBack(r);
    if r.host.Wsl? {
      var prefix := [
        "--distribution", r.host.distribution, "--cd", PathText(r.repository), "--exec", PathText(r.host.python)];
      assert Behind(prefix + WorkerArguments(r), 6) == WorkerArguments(r);
    }
  }

  /** Two accepted requests have the same invocation exactly when they agree on everything it carries. */
  lemma InvocationIsInjective(platform: Platform, a: RunnerRequest, b: RunnerRequest)
    requires InvocationOf(platform, a).Success? && InvocationOf(platform, b).Success?
    ensures InvocationOf(platform, a) == InvocationOf(platform, b) <==> Carried(a) == Carried(b)
  {
    hide ReadBack, WorkerArguments, Refusal;
    InvocationReadBack(platform, a);
    InvocationReadBack(platform, b);
    if Carried(a) == Carried(b) {
      SameWorkerArguments(a, b);
    }
  }

  lemma SameWorkerArguments(a: RunnerRequest, b: RunnerRequest)
    requires Carried(a) == Carried(b)
    ensures WorkerArguments(a) == WorkerArguments(b)
  {
    hide BackendArguments, Decimal;
  }
}
