/** The argument vector a request turns into, and what can be read back from it. */
module Invocation {
  import opened Wrappers
  import opened Bytes
  import opened Request

  const RECOVERY_CLEANUP_GRACE_SECS: u32 := 5

  datatype Platform = AppleSiliconMac | Windows | Other

  datatype RunnerError = InvalidRequest(reason: string) | UnsupportedHost

  const BAD_PATH := InvalidRequest("paths must be nonempty UTF-8 without NUL")
  const NOT_ACKNOWLEDGED := InvalidRequest("explicit research_only acknowledgement required")
  const BAD_TARGET := InvalidRequest("target must be 26 or 27")
  const BAD_TIMEOUT := InvalidRequest("timeouts must be 1..86400 seconds")
  const BAD_TCG_SIZE := InvalidRequest("TCG memory/CPU count out of range")
  const BAD_RECOVERY_SIZE := InvalidRequest("recovery memory must be 512..1048576 MiB and CPU count 1..32")
  const BAD_RECOVERY_TIMEOUT := InvalidRequest(
    "recovery phase timeouts must be 1..300 seconds; total 30..86400 and greater than post duration "
    + "plus 5 seconds cleanup")
  const NOT_WINDOWS := InvalidRequest("WSL transport requires Windows host")
  const NO_DISTRIBUTION := InvalidRequest("WSL distribution must be explicit")

  datatype Command = Command(executable: Path, arguments: seq<string>, currentDir: Option<Path>)

  // ----- Decimal numbers -----

  /** `to_string` of an unsigned integer. */
  function Decimal(n: nat): (s: string)
    ensures |s| > 0
  {
    if n < 10 then [Digit(n)] else Decimal(n / 10) + [Digit(n % 10)]
  }

  function Digit(d: nat): char
    requires d < 10
  {
    '0' + d as char
  }

  function Undecimal(s: string): int {
    if s == [] then 0 else 10 * Undecimal(s[..|s| - 1]) + (s[|s| - 1] as int - '0' as int)
  }

  lemma {:induction false} DecimalRoundTrip(n: nat)
    ensures Undecimal(Decimal(n)) == n
  {
    var s := Decimal(n);
    if n < 10 {
      assert s[..|s| - 1] == [];
    } else {
      DecimalRoundTrip(n / 10);
      assert s[..|s| - 1] == Decimal(n / 10);
    }
  }

  // ----- What is refused, in the order of the checks -----

  predicate IsText(p: Path) {
    p.TextPath? && p.text != "" && '\0' !in p.text
  }

  function Refusal(platform: Platform, r: RunnerRequest): Option<RunnerError> {
    if !r.researchOnly then Some(NOT_ACKNOWLEDGED)
    else if r.targetMajor != 26 && r.targetMajor != 27 then Some(BAD_TARGET)
    else if || (!r.backend.TcgRecovery? && !(1 <= r.observationTimeoutSecs <= 86400))
            || !(1 <= r.durationSecs <= 86400) then
      Some(BAD_TIMEOUT)
    else if r.backend.Native? && (!platform.AppleSiliconMac? || !r.host.Local?) then Some(UnsupportedHost)
    else if !IsText(r.hostReceiptDir) || !IsText(r.repository) then Some(BAD_PATH)
    else if BackendRefusal(r.backend, r.durationSecs).Some? then BackendRefusal(r.backend, r.durationSecs)
    else if !IsText(r.vmJson) || !IsText(r.output) then Some(BAD_PATH)
    else HostRefusal(platform, r.host)
  }

  function BackendRefusal(b: RunnerBackend, duration: u32): Option<RunnerError> {
    match b
    case Native(macosvm) => if IsText(macosvm) then None else Some(BAD_PATH)
    case Tcg(qemu, qemuImg, firmware, _, memoryMib, smp) =>
      if !(128 <= memoryMib <= 262144) || !(1 <= smp <= 255) then Some(BAD_TCG_SIZE)
      else if !IsText(qemu) || !IsText(qemuImg) || !IsText(firmware) then Some(BAD_PATH)
      else None
    case TcgRecovery(_, _, _, memoryMib, smp, _, _, _, _, _, transition, restore, total, _) =>
      if !(512 <= memoryMib <= 1048576) || !(1 <= smp <= 32) then
        Some(BAD_RECOVERY_SIZE)
      else if || !(1 <= transition <= 300) || !(1 <= restore <= 300) || !(30 <= total <= 86400)
              || total <= duration + RECOVERY_CLEANUP_GRACE_SECS then
        Some(BAD_RECOVERY_TIMEOUT)
      else if exists i :: 0 <= i < 8 && !IsText(RecoveryPaths(b)[i].1) then Some(BAD_PATH)
      else None
  }

  function HostRefusal(platform: Platform, host: RunnerHost): Option<RunnerError> {
    match host
    case Local(python) => if IsText(python) then None else Some(BAD_PATH)
    case Wsl(distribution, python) =>
      if !platform.Windows? then Some(NOT_WINDOWS)
      else if distribution == "" || '\0' in distribution then Some(NO_DISTRIBUTION)
      else if !IsText(python) then Some(BAD_PATH)
      else None
  }

  // ----- The arguments -----

  function RecoveryPaths(b: RunnerBackend): (r: seq<(string, Path)>)
    requires b.TcgRecovery?
    ensures |r| == 8
  {
    [("--qemu", b.qemu), ("--qemu-img", b.qemuImg), ("--firmware", b.firmware), ("--build-manifest", b.buildManifest),
     ("--tss-helper", b.tssHelper), ("--original-ibss", b.originalIbss), ("--original-ibec", b.originalIbec),
     ("--restore-role-dir", b.restoreRoleDir)]
  }

  function RecoveryNumbers(b: RunnerBackend): (r: seq<(string, u32)>)
    requires b.TcgRecovery?
    ensures |r| == 6
  {
    [("--memory-mib", b.memoryMib), ("--smp", b.smp), ("--transition-timeout", b.transitionTimeoutSecs),
     ("--restore-timeout", b.restoreTimeoutSecs), ("--total-timeout", b.totalTimeoutSecs),
     ("--cleanup-grace", RECOVERY_CLEANUP_GRACE_SECS)]
  }

  function PathText(p: Path): string {
    if p.TextPath? then p.text else ""
  }

  /** Flags and paths, alternating. */
  function PathArguments(pairs: seq<(string, Path)>): (s: seq<string>)
    ensures |s| == 2 * |pairs|
  {
    seq(2 * |pairs|, i requires 0 <= i < 2 * |pairs| =>
      if i % 2 == 0 then pairs[i / 2].0 else PathText(pairs[i / 2].1))
  }

  /** Flags and decimal numbers, alternating. */
  function NumberArguments(pairs: seq<(string, u32)>): (s: seq<string>)
    ensures |s| == 2 * |pairs|
  {
    seq(2 * |pairs|, i requires 0 <= i < 2 * |pairs| => if i % 2 == 0 then pairs[i / 2].0 else Decimal(pairs[i / 2].1))
  }

  function FirmwareArgument(k: FirmwareKind): string {
    match k
    case Avpbooter => "avpbooter"
    case IbootStage2 => "iboot-stage2"
  }

  function BackendArguments(b: RunnerBackend): seq<string> {
    match b
    case Native(macosvm) => ["-m", "x86", "vmapple", "run-native", "--macosvm", PathText(macosvm)]
    case Tcg(qemu, qemuImg, firmware, kind, memoryMib, smp) =>
      ["-m", "x86", "vmapple", "run-tcg", "--qemu", PathText(qemu), "--qemu-img", PathText(qemuImg),
       "--firmware", PathText(firmware), "--firmware-kind", FirmwareArgument(kind),
       "--memory-mib", Decimal(memoryMib), "--smp", Decimal(smp), "--display", "none"]
    case _ =>
      ["-m", "x86.recovery_supervisor"] + PathArguments(RecoveryPaths(b)) + NumberArguments(RecoveryNumbers(b)) +
      if b.optionalRpcUnavailable then ["--optional-rpc-unavailable"] else []
  }

  function CommonArguments(r: RunnerRequest): seq<string> {
    ["--target", Decimal(r.targetMajor), "--vm-json", PathText(r.vmJson), "--output", PathText(r.output),
     "--duration", Decimal(r.durationSecs)]
  }

  function ObservationArguments(r: RunnerRequest): seq<string> {
    if r.backend.TcgRecovery? then []
    else ["--observation-timeout", Decimal(r.observationTimeoutSecs), "--research-only", "--json"]
  }

  function WorkerArguments(r: RunnerRequest): seq<string> {
    BackendArguments(r.backend) + CommonArguments(r) + ObservationArguments(r)
  }

  function CommandOf(r: RunnerRequest): Command {
    match r.host
    case Local(python) => Command(python, WorkerArguments(r), Some(r.repository))
    case Wsl(distribution, python) =>
      Command(
        TextPath("wsl.exe"),
        ["--distribution", distribution, "--cd", PathText(r.repository), "--exec", PathText(python)] +
          WorkerArguments(r),
        None)
  }

  function InvocationOf(platform: Platform, r: RunnerRequest): Result<Command, RunnerError> {
    match Refusal(platform, r)
    case Some(e) => Failure(e)
    case None => Success(CommandOf(r))
  }

  // ----- The builder -----

  method TextOf(p: Path) returns (r: Result<string, RunnerError>)
    ensures r == if IsText(p) then Success(PathText(p)) else Failure(BAD_PATH)
  {
    match p.ToStr() {
      case Some(s) =>
        if s != "" && '\0' !in s {
          return Success(s);
        }
      case None =>
    }
    r := Failure(BAD_PATH);
  }

  /** Extends one argument vector step by step, checking each path where it is used. */
  method Invoke(platform: Platform, r: RunnerRequest) returns (result: Result<Command, RunnerError>)
    ensures result == InvocationOf(platform, r)
  {
    if !r.researchOnly {
      return Failure(NOT_ACKNOWLEDGED);
    }
    if r.targetMajor != 26 && r.targetMajor != 27 {
      return Failure(BAD_TARGET);
    }
    var recovery := r.backend.TcgRecovery?;
    if (!recovery && !(1 <= r.observationTimeoutSecs <= 86400)) || !(1 <= r.durationSecs <= 86400) {
      return Failure(BAD_TIMEOUT);
    }
    if r.backend.Native? && (!platform.AppleSiliconMac? || !r.host.Local?) {
      return Failure(UnsupportedHost);
    }
    var _ :- TextOf(r.hostReceiptDir);
    var repository :- TextOf(r.repository);
    var arguments :- BuildBackend(r.backend, r.durationSecs);
    var vmJson :- TextOf(r.vmJson);
    var output :- TextOf(r.output);
    arguments := arguments + [
      "--target", Decimal(r.targetMajor), "--vm-json", vmJson, "--output", output,
      "--duration", Decimal(r.durationSecs)];
    if !recovery {
      arguments := arguments + [
        "--observation-timeout", Decimal(r.observationTimeoutSecs), "--research-only", "--json"];
    }
    assert arguments == WorkerArguments(r);
    match r.host {
      case Local(python) =>
        var _ :- TextOf(python);
        result := Success(Command(python, arguments, Some(r.repository)));
      case Wsl(distribution, python) =>
        if !platform.Windows? {
          return Failure(NOT_WINDOWS);
        }
        if distribution == "" || '\0' in distribution {
          return Failure(NO_DISTRIBUTION);
        }
        var interpreter :- TextOf(python);
        var prefix := ["--distribution", distribution, "--cd", repository, "--exec", interpreter];
        prefix := prefix + arguments;
        result := Success(Command(TextPath("wsl.exe"), prefix, None));
    }
  }

  method BuildBackend(b: RunnerBackend, duration: u32) returns (result: Result<seq<string>, RunnerError>)
    requires duration <= 86400
    ensures result == match BackendRefusal(b, duration)
                      case Some(e) => Failure(e)
                      case None => Success(BackendArguments(b))
  {
    hide Decimal, FirmwareArgument, PathArguments, NumberArguments;
    var arguments := ["-m", "x86", "vmapple"];
    match b {
      case Native(macosvm) =>
        var path :- TextOf(macosvm);
        arguments := arguments + ["run-native", "--macosvm", path];
        assert arguments == BackendArguments(b);
      case Tcg(qemu, qemuImg, firmware, kind, memoryMib, smp) =>
        if !(128 <= memoryMib <= 262144) || !(1 <= smp <= 255) {
          return Failure(BAD_TCG_SIZE);
        }
        var qemuText :- TextOf(qemu);
        var imgText :- TextOf(qemuImg);
        var firmwareText :- TextOf(firmware);
        arguments := arguments + [
          "run-tcg", "--qemu", qemuText, "--qemu-img", imgText, "--firmware", firmwareText,
          "--firmware-kind", FirmwareArgument(kind), "--memory-mib", Decimal(memoryMib), "--smp", Decimal(smp),
          "--display", "none"];
        assert arguments == BackendArguments(b);
      case _ =>
        arguments :- BuildRecovery(b, duration);
    }
    result := Success(arguments);
  }

  method BuildRecovery(b: RunnerBackend, duration: u32) returns (result: Result<seq<string>, RunnerError>)
    requires b.TcgRecovery? && duration <= 86400
    ensures result == match BackendRefusal(b, duration)
                      case Some(e) => Failure(e)
                      case None => Success(BackendArguments(b))
  {
    hide Decimal, PathArguments, NumberArguments, RecoveryPaths, RecoveryNumbers, IsText;
    if !(512 <= b.memoryMib <= 1048576) || !(1 <= b.smp <= 32) {
      return Failure(BAD_RECOVERY_SIZE);
    }
    // The sum is a u32: the caller has bounded the duration, so it cannot wrap.
    var needed: u32 := duration + RECOVERY_CLEANUP_GRACE_SECS;
    if || !(1 <= b.transitionTimeoutSecs <= 300) || !(1 <= b.restoreTimeoutSecs <= 300)
       || !(30 <= b.totalTimeoutSecs <= 86400) || b.totalTimeoutSecs <= needed {
      return Failure(BAD_RECOVERY_TIMEOUT);
    }
    var arguments := ["-m", "x86.recovery_supervisor"];
    var pairs := RecoveryPaths(b);
    arguments :- AppendPaths(arguments, pairs);
    arguments := AppendNumbers(arguments, RecoveryNumbers(b));
    if b.optionalRpcUnavailable {
      arguments := arguments + ["--optional-rpc-unavailable"];
    }
    assert arguments == BackendArguments(b);
    result := Success(arguments);
  }

  method AppendPaths(start: seq<string>, pairs: seq<(string, Path)>) returns (result: Result<seq<string>, RunnerError>)
    ensures result ==
            if exists i :: 0 <= i < |pairs| && !IsText(pairs[i].1) then Failure(BAD_PATH)
            else Success(start + PathArguments(pairs))
  {
    var arguments := start;
    for i := 0 to |pairs|
      invariant forall k :: 0 <= k < i ==> IsText(pairs[k].1)
      invariant arguments == start + PathArguments(pairs[..i])
    {
      var text :- TextOf(pairs[i].1);
      arguments := arguments + [pairs[i].0, text];
      assert PathArguments(pairs[..i + 1]) == PathArguments(pairs[..i]) + [pairs[i].0, text];
    }
    assert pairs[..|pairs|] == pairs;
    result := Success(arguments);
  }

  method AppendNumbers(start: seq<string>, pairs: seq<(string, u32)>) returns (arguments: seq<string>)
    ensures arguments == start + NumberArguments(pairs)
  {
    arguments := start;
    for i := 0 to |pairs|
      invariant arguments == start + NumberArguments(pairs[..i])
    {
      arguments := arguments + [pairs[i].0, Decimal(pairs[i].1)];
      assert NumberArguments(pairs[..i + 1]) == NumberArguments(pairs[..i]) + [pairs[i].0, Decimal(pairs[i].1)];
    }
    assert pairs[..|pairs|] == pairs;
  }
}
