/** The invocation word for word: which requests are accepted, why others are not, each argument behind its flag. */
module InvocationWords {
  import opened Wrappers
  import opened Request
  import opened Invocation
  import opened InvocationLaws

  // ----- Numbers -----

  /** One digit per power of ten, the last one first, and no leading zero. */
  lemma {:induction false} DecimalInFull(n: nat)
    ensures n < 10 ==> Decimal(n) == ["0123456789"[n]]
    ensures n >= 10 ==> Decimal(n) == Decimal(n / 10) + ["0123456789"[n % 10]]
    ensures n > 0 ==> Decimal(n)[0] != '0'
    ensures forall c <- Decimal(n) :: '0' <= c <= '9'
  {
    if n >= 10 {
      DecimalInFull(n / 10);
    }
  }

  // ----- Acceptance -----

  /** Exactly the accepted requests. */
  lemma AcceptedInFull(platform: Platform, r: RunnerRequest)
    ensures forall p: Path :: IsText(p) <==> p.TextPath? && p.text != "" && '\0' !in p.text
    ensures InvocationOf(platform, r).Success? <==>
              && r.researchOnly
              && (r.targetMajor == 26 || r.targetMajor == 27)
              && 1 <= r.durationSecs <= 86400
              && (r.backend.TcgRecovery? || 1 <= r.observationTimeoutSecs <= 86400)
              && IsText(r.hostReceiptDir) && IsText(r.repository) && IsText(r.vmJson) && IsText(r.output)
              && IsText(r.host.python)
              && (r.host.Wsl? ==> platform.Windows? && r.host.distribution != "" && '\0' !in r.host.distribution)
              && match r.backend
                 case Native(macosvm) => platform.AppleSiliconMac? && r.host.Local? && IsText(macosvm)
                 case Tcg(qemu, qemuImg, firmware, _, memoryMib, smp) =>
                   && 128 <= memoryMib <= 262144 && 1 <= smp <= 255
                   && IsText(qemu) && IsText(qemuImg) && IsText(firmware)
                 case TcgRecovery(qemu, qemuImg, firmware, memoryMib, smp, manifest, helper, ibss, ibec, roles,
                                  transition, restore, total, _) =>
                   && 512 <= memoryMib <= 1048576 && 1 <= smp <= 32
                   && 1 <= transition <= 300 && 1 <= restore <= 300
                   && 30 <= total <= 86400 && r.durationSecs + 5 < total
                   && IsText(qemu) && IsText(qemuImg) && IsText(firmware) && IsText(manifest)
                   && IsText(helper) && IsText(ibss) && IsText(ibec) && IsText(roles)
  {
    if r.backend.TcgRecovery? {
      RecoveryPathsAreText(r.backend);
    }
  }

  lemma RecoveryPathsAreText(b: RunnerBackend)
    requires b.TcgRecovery?
    ensures (exists i :: 0 <= i < 8 && !IsText(RecoveryPaths(b)[i].1)) <==>
              !(&& IsText(b.qemu) && IsText(b.qemuImg) && IsText(b.firmware) && IsText(b.buildManifest)
                && IsText(b.tssHelper) && IsText(b.originalIbss) && IsText(b.originalIbec) && IsText(b.restoreRoleDir))
  {
    hide IsText;
    var paths := RecoveryPaths(b);
    assert paths[0].1 == b.qemu && paths[1].1 == b.qemuImg && paths[2].1 == b.firmware;
    assert paths[3].1 == b.buildManifest && paths[4].1 == b.tssHelper && paths[5].1 == b.originalIbss;
    assert paths[6].1 == b.originalIbec && paths[7].1 == b.restoreRoleDir;
  }

  /** The first reason to refuse a request, word for word. */
  lemma RefusedInFull(platform: Platform, r: RunnerRequest)
    requires InvocationOf(platform, r).Failure?
    ensures InvocationOf(platform, r).error ==
            if !r.researchOnly then InvalidRequest("explicit research_only acknowledgement required")
            else if r.targetMajor != 26 && r.targetMajor != 27 then InvalidRequest("target must be 26 or 27")
            else if || !(1 <= r.durationSecs <= 86400)
                    || (!r.backend.TcgRecovery? && !(1 <= r.observationTimeoutSecs <= 86400)) then
              InvalidRequest("timeouts must be 1..86400 seconds")
            else if r.backend.Native? && !(platform.AppleSiliconMac? && r.host.Local?) then UnsupportedHost
            else if !IsText(r.hostReceiptDir) || !IsText(r.repository) then
              InvalidRequest("paths must be nonempty UTF-8 without NUL")
            else if r.backend.Tcg? && !(128 <= r.backend.memoryMib <= 262144 && 1 <= r.backend.smp <= 255) then
              InvalidRequest("TCG memory/CPU count out of range")
            else if r.backend.TcgRecovery? && !(512 <= r.backend.memoryMib <= 1048576 && 1 <= r.backend.smp <= 32) then
              InvalidRequest("recovery memory must be 512..1048576 MiB and CPU count 1..32")
            else if && r.backend.TcgRecovery?
                    && !(&& 1 <= r.backend.transitionTimeoutSecs <= 300 && 1 <= r.backend.restoreTimeoutSecs <= 300
                         && 30 <= r.backend.totalTimeoutSecs <= 86400
                         && r.durationSecs + 5 < r.backend.totalTimeoutSecs) then
              InvalidRequest(
                "recovery phase timeouts must be 1..300 seconds; total 30..86400 and greater than post duration "
                + "plus 5 seconds cleanup")
            else if && r.host.Wsl? && !platform.Windows?
                    && BackendRefusal(r.backend, r.durationSecs).None? && IsText(r.vmJson) && IsText(r.output) then
              InvalidRequest("WSL transport requires Windows host")
            else if && r.host.Wsl? && (r.host.distribution == "" || '\0' in r.host.distribution)
                    && BackendRefusal(r.backend, r.durationSecs).None? && IsText(r.vmJson) && IsText(r.output) then
              InvalidRequest("WSL distribution must be explicit")
            else InvalidRequest("paths must be nonempty UTF-8 without NUL")
  {
    hide IsText, RecoveryPaths;
  }

  // ----- The argument vector -----

  // The worker's arguments stand alone on the host, and behind six others in a WSL distribution.
  lemma BehindHost(platform: Platform, r: RunnerRequest)
    requires InvocationOf(platform, r).Success?
    ensures var args, n := InvocationOf(platform, r).value.arguments, if r.host.Wsl? then 6 else 0;
            n <= |args| && args[n..] == WorkerArguments(r)
    ensures TextBackend(r.backend) && r.vmJson.TextPath? && r.output.TextPath?
  {
    hide WorkerArguments, Refusal, TextBackend;
    AcceptedIsText(platform, r);
  }

  /** What is run where: the interpreter in the repository, or the WSL launcher with six arguments of its own. */
  lemma HostInFull(platform: Platform, r: RunnerRequest)
    requires InvocationOf(platform, r).Success?
    ensures var c := InvocationOf(platform, r).value;
            && r.repository.TextPath? && r.host.python.TextPath?
            && match r.host
               case Local(python) => c.executable == python && c.currentDir == Some(r.repository)
               case Wsl(distribution, python) =>
                 && c.executable == TextPath("wsl.exe") && c.currentDir == None
                 && |c.arguments| >= 6
                 && c.arguments[..6] ==
                    ["--distribution", distribution, "--cd", r.repository.text, "--exec", python.text]
  {
    hide WorkerArguments, BackendRefusal;
    AcceptedIsText(platform, r);
  }

  /** A native worker, which never runs in WSL. */
  lemma NativeInFull(platform: Platform, r: RunnerRequest)
    requires InvocationOf(platform, r).Success? && r.backend.Native?
    ensures r.backend.macosvm.TextPath? && r.vmJson.TextPath? && r.output.TextPath?
    ensures InvocationOf(platform, r).value.arguments ==
            ["-m", "x86", "vmapple", "run-native",
             "--macosvm", r.backend.macosvm.text,
             "--target", Decimal(r.targetMajor),
             "--vm-json", r.vmJson.text,
             "--output", r.output.text,
             "--duration", Decimal(r.durationSecs),
             "--observation-timeout", Decimal(r.observationTimeoutSecs),
             "--research-only", "--json"]
  {
    hide Decimal, IsText;
    AcceptedIsText(platform, r);
  }

  /** A plain TCG worker. */
  lemma TcgInFull(platform: Platform, r: RunnerRequest)
    requires InvocationOf(platform, r).Success? && r.backend.Tcg?
    ensures r.backend.qemu.TextPath? && r.backend.qemuImg.TextPath? && r.backend.firmware.TextPath?
    ensures r.vmJson.TextPath? && r.output.TextPath?
    ensures var args, n := InvocationOf(platform, r).value.arguments, if r.host.Wsl? then 6 else 0;
            && n <= |args|
            && args[n..] ==
               ["-m", "x86", "vmapple", "run-tcg",
                "--qemu", r.backend.qemu.text,
                "--qemu-img", r.backend.qemuImg.text,
                "--firmware", r.backend.firmware.text,
                "--firmware-kind", if r.backend.firmwareKind.Avpbooter? then "avpbooter" else "iboot-stage2",
                "--memory-mib", Decimal(r.backend.memoryMib),
                "--smp", Decimal(r.backend.smp),
                "--display", "none"]
               + ["--target", Decimal(r.targetMajor),
                  "--vm-json", r.vmJson.text,
                  "--output", r.output.text,
                  "--duration", Decimal(r.durationSecs)]
               + ["--observation-timeout", Decimal(r.observationTimeoutSecs),
                  "--research-only", "--json"]
  {
    hide Decimal, IsText, Refusal, InvocationOf;
    BehindHost(platform, r);
  }

  lemma RecoveryPathsInFull(b: RunnerBackend)
    requires b.TcgRecovery? && TextBackend(b)
    ensures b.qemu.TextPath? && b.qemuImg.TextPath? && b.firmware.TextPath? && b.buildManifest.TextPath?
    ensures b.tssHelper.TextPath? && b.originalIbss.TextPath? && b.originalIbec.TextPath? && b.restoreRoleDir.TextPath?
    ensures PathArguments(RecoveryPaths(b)) ==
            ["--qemu", b.qemu.text,
             "--qemu-img", b.qemuImg.text,
             "--firmware", b.firmware.text,
             "--build-manifest", b.buildManifest.text,
             "--tss-helper", b.tssHelper.text,
             "--original-ibss", b.originalIbss.text,
             "--original-ibec", b.originalIbec.text,
             "--restore-role-dir", b.restoreRoleDir.text]
  {
    var paths := RecoveryPaths(b);
    assert paths[0].1 == b.qemu && paths[1].1 == b.qemuImg && paths[2].1 == b.firmware;
    assert paths[3].1 == b.buildManifest && paths[4].1 == b.tssHelper && paths[5].1 == b.originalIbss;
    assert paths[6].1 == b.originalIbec && paths[7].1 == b.restoreRoleDir;
  }

  lemma RecoveryNumbersInFull(b: RunnerBackend)
    requires b.TcgRecovery?
    ensures NumberArguments(RecoveryNumbers(b)) ==
            ["--memory-mib", Decimal(b.memoryMib),
             "--smp", Decimal(b.smp),
             "--transition-timeout", Decimal(b.transitionTimeoutSecs),
             "--restore-timeout", Decimal(b.restoreTimeoutSecs),
             "--total-timeout", Decimal(b.totalTimeoutSecs),
             "--cleanup-grace", "5"]
  {
    hide Decimal;
    DecimalInFull(5);
  }

  lemma NothingBehind(s: seq<string>, t: seq<string>)
    requires t == []
    ensures s + t == s
  {
  }

  /** The recovery supervisor: eight paths, six numbers and the optional switch. */
  lemma RecoveryInFull(platform: Platform, r: RunnerRequest)
    requires InvocationOf(platform, r).Success? && r.backend.TcgRecovery?
    ensures var b := r.backend;
            && b.qemu.TextPath? && b.qemuImg.TextPath? && b.firmware.TextPath? && b.buildManifest.TextPath?
            && b.tssHelper.TextPath? && b.originalIbss.TextPath? && b.originalIbec.TextPath?
            && b.restoreRoleDir.TextPath? && r.vmJson.TextPath? && r.output.TextPath?
            && var args, n := InvocationOf(platform, r).value.arguments, if r.host.Wsl? then 6 else 0;
            && n <= |args|
            && args[n..] ==
               ["-m", "x86.recovery_supervisor"]
               + ["--qemu", b.qemu.text,
                  "--qemu-img", b.qemuImg.text,
                  "--firmware", b.firmware.text,
                  "--build-manifest", b.buildManifest.text,
                  "--tss-helper", b.tssHelper.text,
                  "--original-ibss", b.originalIbss.text,
                  "--original-ibec", b.originalIbec.text,
                  "--restore-role-dir", b.restoreRoleDir.text]
               + ["--memory-mib", Decimal(b.memoryMib),
                  "--smp", Decimal(b.smp),
                  "--transition-timeout", Decimal(b.transitionTimeoutSecs),
                  "--restore-timeout", Decimal(b.restoreTimeoutSecs),
                  "--total-timeout", Decimal(b.totalTimeoutSecs),
                  "--cleanup-grace", "5"]
               + (if b.optionalRpcUnavailable then ["--optional-rpc-unavailable"] else [])
               + ["--target", Decimal(r.targetMajor),
                  "--vm-json", r.vmJson.text,
                  "--output", r.output.text,
                  "--duration", Decimal(r.durationSecs)]
  {
    hide Decimal, IsText, PathArguments, NumberArguments, RecoveryPaths, RecoveryNumbers, Refusal, InvocationOf;
    BehindHost(platform, r);
    RecoveryPathsInFull(r.backend);
    RecoveryNumbersInFull(r.backend);
    NothingBehind(BackendArguments(r.backend) + CommonArguments(r), ObservationArguments(r));
  }
}
