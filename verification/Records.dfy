/** Building the JSON objects of example reports, and telling their field names apart. */
module Records {
  import opened Bytes
  import opened Json

  function Int(n: u32): Value {
    Num(PosInt(n))
  }

  function KernelMarker(offset: u64, major: u64): (m: Value)
    ensures m.At("marker") == Str("Darwin Kernel")
    ensures m.At("byte_offset") == Num(PosInt(offset)) && m.At("kernel_major") == Num(PosInt(major))
  {
    Obj(map[
      "marker" := Str("Darwin Kernel"), "byte_offset" := Num(PosInt(offset)), "kernel_major" := Num(PosInt(major))])
  }

  function UserspaceMarker(offset: u64): (m: Value)
    ensures m.At("marker") == Str("launchd:") && m.At("byte_offset") == Num(PosInt(offset))
  {
    Obj(map["marker" := Str("launchd:"), "byte_offset" := Num(PosInt(offset))])
  }

  /** The given kernel markers and one userspace marker. */
  function MarkersWith(xnu: Value, u: u64): (markers: Value)
    ensures markers.At("xnu") == xnu && markers.At("userspace") == Arr([UserspaceMarker(u)])
  {
    Obj(map["xnu" := xnu, "userspace" := Arr([UserspaceMarker(u)])])
  }

  /**
   The length, the first and the last character code, three digits each, which is enough to distinguish the names used
   in one object: 6_115_097 is a name of 6 characters from 's' (115) to 'a' (97).
   */
  function Rank(name: string): int {
    if name == "" then 0 else 1_000_000 * |name| + 1000 * name[0] as int + name[|name| - 1] as int
  }

  /** The names of a native or plain TCG report. */
  lemma ReportRanks()
    ensures Rank("schema") == 6_115_097 && Rank("engine") == 6_101_101 && Rank("target_major") == 12_116_114
    ensures Rank("native_runtime_started") == 22_110_100 && Rank("tcg_runtime_started") == 19_116_100
    ensures Rank("returncode") == 10_114_101 && Rank("termination") == 11_116_110 && Rank("xnu_executed") == 12_120_100
    ensures Rank("macos_userspace_reached") == 23_109_100 && Rank("guest_target_match") == 18_103_104
    ensures Rank("guest_kernel_major") == 18_103_114 && Rank("input_integrity") == 15_105_121
    ensures Rank("macos_boot_verified") == 19_109_100 && Rank("observed_markers") == 16_111_115
    ensures Rank("error") == 5_101_114 && Rank("guest_inputs_modified") == 21_103_100
  {
  }

  /** The names of a supervisor receipt. */
  lemma ReceiptRanks()
    ensures Rank("schema") == 6_115_097 && Rank("target_major") == 12_116_114 && Rank("requested_output") == 16_114_116
    ensures Rank("output") == 6_111_116 && Rank("worker") == 6_119_114 && Rank("cleanup") == 7_099_112
    ensures Rank("input_integrity") == 15_105_121 && Rank("deadline") == 8_100_101 && Rank("cancel") == 6_099_108
    ensures Rank("launch_report") == 13_108_116 && Rank("boot") == 4_098_116 && Rank("error") == 5_101_114
  {
  }

  /** The names of the launch record inside a supervisor receipt. */
  lemma LaunchRanks()
    ensures Rank("schema") == 6_115_097 && Rank("target_major") == 12_116_114 && Rank("output") == 6_111_116
    ensures Rank("machine_type") == 12_109_101 && Rank("personality") == 11_112_121 && Rank("guest_os") == 8_103_115
    ensures Rank("boot_mode") == 9_098_101 && Rank("runtime_started") == 15_114_100 && Rank("pid") == 3_112_100
    ensures Rank("dfu_upload") == 10_100_100 && Rank("transition") == 10_116_110 && Rank("stage2") == 6_115_050
    ensures Rank("restore_chain") == 13_114_110 && Rank("input_integrity") == 15_105_121
    ensures Rank("xnu_executed") == 12_120_100 && Rank("guest_kernel_major") == 18_103_114
    ensures Rank("guest_target_match") == 18_103_104 && Rank("macos_boot_verified") == 19_109_100
    ensures Rank("iboot_xnu_handoff") == 17_105_102 && Rank("observed_markers") == 16_111_115
    ensures Rank("macos_userspace_reached") == 23_109_100 && Rank("error") == 5_101_114
    ensures Rank("observation") == 11_111_110 && Rank("guest_panic") == 11_103_099
  {
  }
}
