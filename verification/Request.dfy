/** What a caller asks the host runner to do, and what it reports back. */
module Request {
  import opened Wrappers
  import opened Bytes
  import opened Json

  /** A path is text, or a byte string that is not. */
  datatype Path = TextPath(text: string) | RawPath(raw: seq<byte>) {
    function ToStr(): Option<string> {
      if TextPath? then Some(text) else None
    }
  }

  datatype RunnerHost = Local(python: Path) | Wsl(distribution: string, python: Path)

  datatype FirmwareKind = Avpbooter | IbootStage2

  datatype RunnerBackend =
    | Native(macosvm: Path)
    | Tcg(qemu: Path, qemuImg: Path, firmware: Path, firmwareKind: FirmwareKind, memoryMib: u32, smp: u32)
    | TcgRecovery(
        qemu: Path,
        qemuImg: Path,
        firmware: Path,
        memoryMib: u32,
        smp: u32,
        buildManifest: Path,
        tssHelper: Path,
        originalIbss: Path,
        originalIbec: Path,
        restoreRoleDir: Path,
        transitionTimeoutSecs: u32,
        restoreTimeoutSecs: u32,
        totalTimeoutSecs: u32,
        optionalRpcUnavailable: bool)
  {
    function Schema(): string {
      match this
      case Native(_) => "26x86.macosvm-native/1"
      case Tcg(_, _, _, _, _, _) => "26x86.vmapple-tcg/1"
      case _ => "nextcore.recovery-supervisor/1"
    }

    function Engine(): string {
      match this
      case Native(_) => "macosvm"
      case Tcg(_, _, _, _, _, _) => "qemu-vmapple-tcg"
      case _ => "qemu-vmapple-recovery"
    }
  }

  datatype RunnerRequest = RunnerRequest(
    host: RunnerHost,
    backend: RunnerBackend,
    repository: Path,
    vmJson: Path,
    output: Path,
    hostReceiptDir: Path,
    targetMajor: u16,
    observationTimeoutSecs: u32,
    durationSecs: u32,
    researchOnly: bool)

  datatype RecoveryProgress = RecoveryProgress(
    dfuUploadCompleted: bool,
    ibecEndpointAdvertised: bool,
    stage2BannerObserved: bool,
    stage2PromptObserved: bool,
    restoreSequenceSent: bool,
    restoreRoleStepCount: nat,
    bootxAcknowledged: bool,
    firmwarePanicObserved: bool)

  const NO_PROGRESS := RecoveryProgress(false, false, false, false, false, 0, false, false)

  /** The evaluated part of a run's receipt. What `run` itself fills in later (pid, time, digest) is not here. */
  datatype RunOutcome = RunOutcome(
    exitCode: Option<int>,
    engine: string,
    guestRuntimeStarted: bool,
    guestProcessTerminated: bool,
    xnuExecuted: bool,
    macosUserspaceReached: bool,
    guestTargetMatch: bool,
    inputIntegrity: bool,
    macosBootVerified: bool,
    recoveryProgress: Option<RecoveryProgress>,
    report: Option<Value>,
    failure: Option<string>)

  /** The parsed report, or null when it could not be read. */
  function Received(parsed: Result<Value, string>): Value {
    if parsed.Success? then parsed.value else Null
  }

  datatype GuestState = Stopped | Running | Paused | Faulted(reason: string)

  /** The worker has been reaped, so the guest is stopped or faulted. */
  function StateOf(outcome: RunOutcome): GuestState {
    match outcome.failure
    case Some(reason) => Faulted(reason)
    case None => Stopped
  }
}
