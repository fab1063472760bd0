/**
 The launch-plan codec is a bijection between encodable plans and accepted buffers, and the accepted buffers are
 prefix-free. Every parser gets three laws: it reads back what its encoder wrote (`...At`), whatever it accepts is what
 its encoder writes (`...Exact`), and cutting what it accepted short is a truncation (`...Cut`).
 */
module PlanLaws {
  import opened Wrappers
  import opened Bytes
  import opened Utf8
  import opened Plan

  /** `s` stands in `buf` at `p`. */
  predicate At(buf: seq<byte>, p: nat, s: seq<byte>) {
    p + |s| <= |buf| && buf[p..p + |s|] == s
  }

  lemma AtConcat(buf: seq<byte>, p: nat, s: seq<byte>, t: seq<byte>)
    ensures At(buf, p, s + t) <==> At(buf, p, s) && At(buf, p + |s|, t)
  {
    if p + |s| + |t| <= |buf| {
      var both := buf[p..p + |s| + |t|];
      assert both[..|s|] == buf[p..p + |s|] && both[|s|..] == buf[p + |s|..p + |s| + |t|];
      assert (s + t)[..|s|] == s && (s + t)[|s|..] == t;
      assert both == both[..|s|] + both[|s|..];
    }
  }

  lemma AtNothing(buf: seq<byte>, p: nat)
    requires p <= |buf|
    ensures At(buf, p, [])
  {
  }

  lemma AtPrefix(buf: seq<byte>, n: nat, p: nat, s: seq<byte>)
    requires At(buf, p, s) && p + |s| <= n <= |buf|
    ensures At(buf[..n], p, s)
  {
    assert buf[..n][p..p + |s|] == buf[p..p + |s|];
  }

  // What the encoder can write without losing information: every length and count fits 32 bits.

  predicate TextFits(t: Text) {
    |t| <= U32_MAX
  }

  predicate EntryFits(e: Entry) {
    TextFits(e.key) && TextFits(e.value)
  }

  predicate SmbiosFits(es: seq<Entry>) {
    |es| <= U32_MAX && forall e <- es :: EntryFits(e)
  }

  predicate Encodable(p: LaunchPlan) {
    && 1 <= p.spec.cpuCount <= 255
    && p.spec.memoryBytes >= 134_217_728
    && p.bootDisk != [] && TextFits(p.bootDisk)
    && SmbiosFits(p.smbios)
    && |p.devices| <= U32_MAX
  }

  // ----- Integers -----

  lemma U32At(buf: seq<byte>, p: nat, x: u32)
    requires At(buf, p, U32Le(x))
    ensures TakeU32(buf, p) == Success((x, p + 4))
  {
  }

  lemma U32Exact(buf: seq<byte>, p: nat)
    requires p <= |buf| && TakeU32(buf, p).Success?
    ensures TakeU32(buf, p).value.1 == p + 4 && At(buf, p, U32Le(TakeU32(buf, p).value.0))
  {
  }

  lemma U64At(buf: seq<byte>, p: nat, x: u64)
    requires At(buf, p, U64Le(x))
    ensures TakeU64(buf, p) == Success((x, p + 8))
  {
  }

  // ----- Texts -----

  lemma TextAt(buf: seq<byte>, p: nat, t: Text, notUtf8: PlanError)
    requires TextFits(t) && At(buf, p, TextBytes(t))
    ensures TakeText(buf, p, notUtf8) == Success((t, p + 4 + |t|))
  {
    hide U32Le, LeU32;
    AtConcat(buf, p, U32Le(|t|), t);
    U32At(buf, p, |t|);
  }

  lemma TextExact(buf: seq<byte>, p: nat, notUtf8: PlanError)
    requires p <= |buf| && TakeText(buf, p, notUtf8).Success?
    ensures var (t, q) := TakeText(buf, p, notUtf8).value;
            TextFits(t) && q == p + |TextBytes(t)| && At(buf, p, TextBytes(t))
  {
    hide U32Le, LeU32;
    U32Exact(buf, p);
    var t := TakeText(buf, p, notUtf8).value.0;
    AtConcat(buf, p, U32Le(|t|), t);
  }

  lemma TextCut(buf: seq<byte>, p: nat, n: nat, notUtf8: PlanError)
    requires p <= n <= |buf| && TakeText(buf, p, notUtf8).Success? && n < TakeText(buf, p, notUtf8).value.1
    ensures TakeText(buf[..n], p, notUtf8) == Failure(TRUNCATED)
  {
    if p + 4 <= n {
      assert buf[..n][p..p + 4] == buf[p..p + 4];
    }
  }

  lemma TextKept(buf: seq<byte>, p: nat, n: nat, notUtf8: PlanError)
    requires p <= n <= |buf| && TakeText(buf, p, notUtf8).Success? && TakeText(buf, p, notUtf8).value.1 <= n
    ensures TakeText(buf[..n], p, notUtf8) == TakeText(buf, p, notUtf8)
  {
    TextExact(buf, p, notUtf8);
    var t := TakeText(buf, p, notUtf8).value.0;
    AtPrefix(buf, n, p, TextBytes(t));
    TextAt(buf[..n], p, t, notUtf8);
  }

  // ----- Entries -----

  lemma EntryAt(buf: seq<byte>, p: nat, e: Entry)
    requires EntryFits(e) && At(buf, p, EntryBytes(e))
    ensures TakeEntry(buf, p) == Success((e, p + |EntryBytes(e)|))
  {
    hide At, TextBytes, TakeText;
    AtConcat(buf, p, TextBytes(e.key), TextBytes(e.value));
    TextAt(buf, p, e.key, BAD_KEY);
    TextAt(buf, p + |TextBytes(e.key)|, e.value, BAD_VALUE);
  }

  lemma EntryExact(buf: seq<byte>, p: nat)
    requires p <= |buf| && TakeEntry(buf, p).Success?
    ensures var (e, q) := TakeEntry(buf, p).value;
            EntryFits(e) && q == p + |EntryBytes(e)| && At(buf, p, EntryBytes(e))
  {
    TextExact(buf, p, BAD_KEY);
    var (k, q) := TakeText(buf, p, BAD_KEY).value;
    TextExact(buf, q, BAD_VALUE);
    var (v, _) := TakeText(buf, q, BAD_VALUE).value;
    AtConcat(buf, p, TextBytes(k), TextBytes(v));
  }

  lemma EntryCut(buf: seq<byte>, p: nat, n: nat)
    requires p <= n <= |buf| && TakeEntry(buf, p).Success? && n < TakeEntry(buf, p).value.1
    ensures TakeEntry(buf[..n], p) == Failure(TRUNCATED)
  {
    TextExact(buf, p, BAD_KEY);
    var q := TakeText(buf, p, BAD_KEY).value.1;
    if n < q {
      TextCut(buf, p, n, BAD_KEY);
    } else {
      TextKept(buf, p, n, BAD_KEY);
      TextCut(buf, q, n, BAD_VALUE);
    }
  }

  lemma {:induction false} EntriesAt(buf: seq<byte>, p: nat, es: seq<Entry>)
    requires p <= |buf| && (forall e <- es :: EntryFits(e)) && At(buf, p, EntriesBytes(es))
    ensures TakeEntries(buf, p, |es|) == Success((es, p + |EntriesBytes(es)|))
    decreases es
  {
    hide At, EntryBytes, TakeEntry, EntryFits;
    if es != [] {
      AtConcat(buf, p, EntryBytes(es[0]), EntriesBytes(es[1..]));
      EntryAt(buf, p, es[0]);
      EntriesAt(buf, p + |EntryBytes(es[0])|, es[1..]);
      assert [es[0]] + es[1..] == es;
    }
  }

  lemma {:induction false} EntriesExact(buf: seq<byte>, p: nat, n: nat)
    requires p <= |buf| && TakeEntries(buf, p, n).Success?
    ensures var (es, q) := TakeEntries(buf, p, n).value;
            |es| == n && (forall e <- es :: EntryFits(e)) && q == p + |EntriesBytes(es)| && At(buf, p, EntriesBytes(es))
    decreases n
  {
    hide At, EntryBytes, TakeEntry, EntryFits;
    if n == 0 {
      AtNothing(buf, p);
    } else {
      EntryExact(buf, p);
      var (e, q) := TakeEntry(buf, p).value;
      EntriesExact(buf, q, n - 1);
      var rest := TakeEntries(buf, q, n - 1).value.0;
      assert ([e] + rest)[1..] == rest;
      AtConcat(buf, p, EntryBytes(e), EntriesBytes(rest));
    }
  }

  lemma {:induction false} EntriesCut(buf: seq<byte>, p: nat, count: nat, n: nat)
    requires p <= n <= |buf| && TakeEntries(buf, p, count).Success? && n < TakeEntries(buf, p, count).value.1
    ensures TakeEntries(buf[..n], p, count) == Failure(TRUNCATED)
    decreases count
  {
    hide At, EntryBytes, TakeEntry, EntryFits;
    if count > 0 {
      EntryExact(buf, p);
      var (e, q) := TakeEntry(buf, p).value;
      if n < q {
        EntryCut(buf, p, n);
      } else {
        AtPrefix(buf, n, p, EntryBytes(e));
        EntryAt(buf[..n], p, e);
        EntriesCut(buf, q, count - 1, n);
      }
    }
  }

  // ----- Devices -----

  lemma DeviceAt(buf: seq<byte>, p: nat, d: Device)
    requires At(buf, p, DeviceBytes(d))
    ensures TakeDevice(buf, p) == Success((d, p + 16))
  {
    AtConcat(buf, p, U32Le(d.vendorId) + U32Le(d.deviceId), U64Le(d.mmioLen));
    AtConcat(buf, p, U32Le(d.vendorId), U32Le(d.deviceId));
    U32At(buf, p, d.vendorId);
    U32At(buf, p + 4, d.deviceId);
    U64At(buf, p + 8, d.mmioLen);
  }

  lemma DeviceExact(buf: seq<byte>, p: nat)
    requires p <= |buf|
    ensures TakeDevice(buf, p).Success? <==> p + 16 <= |buf|
    ensures TakeDevice(buf, p).Failure? ==> TakeDevice(buf, p).error == TRUNCATED
    ensures TakeDevice(buf, p).Success? ==>
              TakeDevice(buf, p).value.1 == p + 16 && At(buf, p, DeviceBytes(TakeDevice(buf, p).value.0))
  {
    if p + 16 <= |buf| {
      var d := TakeDevice(buf, p).value.0;
      assert At(buf, p, U32Le(d.vendorId)) && At(buf, p + 4, U32Le(d.deviceId)) && At(buf, p + 8, U64Le(d.mmioLen));
      AtConcat(buf, p, U32Le(d.vendorId), U32Le(d.deviceId));
      AtConcat(buf, p, U32Le(d.vendorId) + U32Le(d.deviceId), U64Le(d.mmioLen));
    }
  }

  lemma {:induction false} DevicesAt(buf: seq<byte>, p: nat, ds: seq<Device>)
    requires p <= |buf| && At(buf, p, DevicesBytes(ds))
    ensures TakeDevices(buf, p, |ds|) == Success((ds, p + |DevicesBytes(ds)|))
    decreases ds
  {
    hide At, DeviceBytes, TakeDevice;
    if ds != [] {
      AtConcat(buf, p, DeviceBytes(ds[0]), DevicesBytes(ds[1..]));
      DeviceAt(buf, p, ds[0]);
      DevicesAt(buf, p + 16, ds[1..]);
      assert [ds[0]] + ds[1..] == ds;
    }
  }

  lemma {:induction false} DevicesExact(buf: seq<byte>, p: nat, n: nat)
    requires p <= |buf| && TakeDevices(buf, p, n).Success?
    ensures var (ds, q) := TakeDevices(buf, p, n).value;
            |ds| == n && q == p + |DevicesBytes(ds)| && At(buf, p, DevicesBytes(ds))
    decreases n
  {
    if n > 0 {
      DeviceExact(buf, p);
      var (d, q) := TakeDevice(buf, p).value;
      DevicesExact(buf, q, n - 1);
      var rest := TakeDevices(buf, q, n - 1).value.0;
      assert ([d] + rest)[1..] == rest;
      AtConcat(buf, p, DeviceBytes(d), DevicesBytes(rest));
    }
  }

  lemma {:induction false} DevicesCut(buf: seq<byte>, p: nat, count: nat, n: nat)
    requires p <= n <= |buf| && TakeDevices(buf, p, count).Success? && n < TakeDevices(buf, p, count).value.1
    ensures TakeDevices(buf[..n], p, count) == Failure(TRUNCATED)
    decreases count
  {
    hide At, DeviceBytes, TakeDevice;
    if count > 0 {
      DeviceExact(buf, p);
      DeviceExact(buf[..n], p);
      var (d, q) := TakeDevice(buf, p).value;
      if q <= n {
        AtPrefix(buf, n, p, DeviceBytes(d));
        DeviceAt(buf[..n], p, d);
        DevicesCut(buf, q, count - 1, n);
      }
    }
  }

  // ----- The four sections of a plan -----

  /** Which specifications pass, and which of the two bounds is reported otherwise. */
  lemma SpecExactly(spec: GuestSpec)
    ensures ValidateSpec(spec).Pass? <==> 1 <= spec.cpuCount <= 255 && spec.memoryBytes >= 134_217_728
    ensures ValidateSpec(spec) == Fail(InvalidSpec("cpu_count out of range")) <==>
              spec.cpuCount == 0 || spec.cpuCount > 255
    ensures ValidateSpec(spec) == Fail(InvalidSpec("memory below 128 MiB")) <==>
              1 <= spec.cpuCount <= 255 && spec.memoryBytes < 134_217_728
  {
    assert |"cpu_count out of range"| == 22 && |"memory below 128 MiB"| == 20;
  }

  /** A plan is built exactly for a valid specification and a nonempty disk, and holds these and no list element. */
  lemma NewExactly(spec: GuestSpec, disk: Text)
    ensures New(spec, disk).Success? <==>
              1 <= spec.cpuCount <= 255 && spec.memoryBytes >= 134_217_728 && disk != []
    ensures New(spec, disk) ==
            if spec.cpuCount == 0 || 255 < spec.cpuCount then Failure(InvalidSpec("cpu_count out of range"))
            else if spec.memoryBytes < 134_217_728 then Failure(InvalidSpec("memory below 128 MiB"))
            else if disk == [] then Failure(InvalidSpec("empty boot disk"))
            else Success(LaunchPlan(spec, disk, [], []))
  {
    SpecExactly(spec);
  }

  lemma SpecAt(buf: seq<byte>, p: nat, spec: GuestSpec)
    requires ValidateSpec(spec).Pass? && At(buf, p, SpecBytes(spec))
    ensures TakeSpec(buf, p) == Success((spec, p + 12))
  {
    AtConcat(buf, p, U32Le(spec.cpuCount), U64Le(spec.memoryBytes));
    U32At(buf, p, spec.cpuCount);
    U64At(buf, p + 4, spec.memoryBytes);
  }

  lemma SpecExact(buf: seq<byte>, p: nat)
    requires p <= |buf| && TakeSpec(buf, p).Success?
    ensures var (spec, q) := TakeSpec(buf, p).value;
            ValidateSpec(spec).Pass? && q == p + 12 && At(buf, p, SpecBytes(spec))
  {
    var spec := TakeSpec(buf, p).value.0;
    assert At(buf, p, U32Le(spec.cpuCount)) && At(buf, p + 4, U64Le(spec.memoryBytes));
    AtConcat(buf, p, U32Le(spec.cpuCount), U64Le(spec.memoryBytes));
  }

  lemma SpecCut(buf: seq<byte>, p: nat, n: nat)
    requires p <= n <= |buf| && TakeSpec(buf, p).Success? && n < TakeSpec(buf, p).value.1
    ensures TakeSpec(buf[..n], p) == Failure(TRUNCATED)
  {
  }

  lemma BootDiskAt(buf: seq<byte>, p: nat, disk: Text)
    requires disk != [] && TextFits(disk) && At(buf, p, TextBytes(disk))
    ensures TakeBootDisk(buf, p) == Success((disk, p + |TextBytes(disk)|))
  {
    TextAt(buf, p, disk, BAD_BOOT);
  }

  lemma BootDiskExact(buf: seq<byte>, p: nat)
    requires p <= |buf| && TakeBootDisk(buf, p).Success?
    ensures var (disk, q) := TakeBootDisk(buf, p).value;
            disk != [] && TextFits(disk) && q == p + |TextBytes(disk)| && At(buf, p, TextBytes(disk))
  {
    TextExact(buf, p, BAD_BOOT);
  }

  lemma BootDiskCut(buf: seq<byte>, p: nat, n: nat)
    requires p <= n <= |buf| && TakeBootDisk(buf, p).Success? && n < TakeBootDisk(buf, p).value.1
    ensures TakeBootDisk(buf[..n], p) == Failure(TRUNCATED)
  {
    TextCut(buf, p, n, BAD_BOOT);
  }

  lemma SmbiosAt(buf: seq<byte>, p: nat, es: seq<Entry>)
    requires SmbiosFits(es) && At(buf, p, SmbiosBytes(es))
    ensures TakeSmbios(buf, p) == Success((es, p + |SmbiosBytes(es)|))
  {
    hide At, U32Le, EntryFits, TakeEntries, EntriesBytes;
    AtConcat(buf, p, U32Le(|es|), EntriesBytes(es));
    U32At(buf, p, |es|);
    EntriesAt(buf, p + 4, es);
  }

  lemma SmbiosExact(buf: seq<byte>, p: nat)
    requires p <= |buf| && TakeSmbios(buf, p).Success?
    ensures var (es, q) := TakeSmbios(buf, p).value;
            SmbiosFits(es) && q == p + |SmbiosBytes(es)| && At(buf, p, SmbiosBytes(es))
  {
    hide At, U32Le, EntryFits, TakeEntries, EntriesBytes;
    var (n, q) := TakeU32(buf, p).value;
    U32Exact(buf, p);
    EntriesExact(buf, q, n);
    var es := TakeEntries(buf, q, n).value.0;
    AtConcat(buf, p, U32Le(|es|), EntriesBytes(es));
  }

  lemma SmbiosCut(buf: seq<byte>, p: nat, n: nat)
    requires p <= n <= |buf| && TakeSmbios(buf, p).Success? && n < TakeSmbios(buf, p).value.1
    ensures TakeSmbios(buf[..n], p) == Failure(TRUNCATED)
  {
    hide LeU32, TakeEntries;
    var (count, q) := TakeU32(buf, p).value;
    if q <= n {
      assert buf[..n][p..q] == buf[p..q];
      EntriesCut(buf, q, count, n);
    }
  }

  lemma DeviceMapAt(buf: seq<byte>, p: nat, ds: seq<Device>)
    requires |ds| <= U32_MAX && At(buf, p, DeviceMapBytes(ds))
    ensures TakeDeviceMap(buf, p) == Success((ds, p + |DeviceMapBytes(ds)|))
  {
    hide At, U32Le, TakeDevices, DevicesBytes;
    AtConcat(buf, p, U32Le(|ds|), DevicesBytes(ds));
    U32At(buf, p, |ds|);
    DevicesAt(buf, p + 4, ds);
  }

  lemma DeviceMapExact(buf: seq<byte>, p: nat)
    requires p <= |buf| && TakeDeviceMap(buf, p).Success?
    ensures var (ds, q) := TakeDeviceMap(buf, p).value;
            |ds| <= U32_MAX && q == p + |DeviceMapBytes(ds)| && At(buf, p, DeviceMapBytes(ds))
  {
    hide At, U32Le, TakeDevices, DevicesBytes;
    var (n, q) := TakeU32(buf, p).value;
    U32Exact(buf, p);
    DevicesExact(buf, q, n);
    var ds := TakeDevices(buf, q, n).value.0;
    AtConcat(buf, p, U32Le(|ds|), DevicesBytes(ds));
  }

  lemma DeviceMapCut(buf: seq<byte>, p: nat, n: nat)
    requires p <= n <= |buf| && TakeDeviceMap(buf, p).Success? && n < TakeDeviceMap(buf, p).value.1
    ensures TakeDeviceMap(buf[..n], p) == Failure(TRUNCATED)
  {
    hide LeU32, TakeDevices;
    var (count, q) := TakeU32(buf, p).value;
    if q <= n {
      assert buf[..n][p..q] == buf[p..q];
      DevicesCut(buf, q, count, n);
    }
  }

  // ----- Plans -----

  lemma PlanAt(buf: seq<byte>, plan: LaunchPlan)
    requires Encodable(plan) && At(buf, 0, PlanBytes(plan))
    ensures TakePlan(buf) == Success((plan, |PlanBytes(plan)|))
  {
    hide At, SpecBytes, TextBytes, SmbiosBytes, DeviceMapBytes, TakeSpec;
    hide TakeBootDisk, TakeSmbios, TakeDeviceMap, SmbiosFits, TextFits, ValidateSpec;
    SpecExactly(plan.spec);
    var a, b := SpecBytes(plan.spec), TextBytes(plan.bootDisk);
    var c, d := SmbiosBytes(plan.smbios), DeviceMapBytes(plan.devices);
    AtConcat(buf, 0, a + b + c, d);
    AtConcat(buf, 0, a + b, c);
    AtConcat(buf, 0, a, b);
    SpecAt(buf, 0, plan.spec);
    BootDiskAt(buf, |a|, plan.bootDisk);
    SmbiosAt(buf, |a + b|, plan.smbios);
    DeviceMapAt(buf, |a + b + c|, plan.devices);
  }

  lemma PlanExact(buf: seq<byte>)
    requires TakePlan(buf).Success?
    ensures var (plan, q) := TakePlan(buf).value;
            Encodable(plan) && q == |PlanBytes(plan)| && At(buf, 0, PlanBytes(plan))
  {
    hide At, SpecBytes, TextBytes, SmbiosBytes, DeviceMapBytes, TakeSpec;
    hide TakeBootDisk, TakeSmbios, TakeDeviceMap, SmbiosFits, TextFits, ValidateSpec;
    var (plan, _) := TakePlan(buf).value;
    SpecExactly(plan.spec);
    var a, b := SpecBytes(plan.spec), TextBytes(plan.bootDisk);
    var c, d := SmbiosBytes(plan.smbios), DeviceMapBytes(plan.devices);
    SpecExact(buf, 0);
    BootDiskExact(buf, |a|);
    SmbiosExact(buf, |a + b|);
    DeviceMapExact(buf, |a + b + c|);
    AtConcat(buf, 0, a, b);
    AtConcat(buf, 0, a + b, c);
    AtConcat(buf, 0, a + b + c, d);
  }

  lemma PlanCut(buf: seq<byte>, n: nat)
    requires TakePlan(buf).Success? && n < TakePlan(buf).value.1
    ensures TakePlan(buf[..n]) == Failure(TRUNCATED)
  {
    hide At, SpecBytes, TextBytes, SmbiosBytes, DeviceMapBytes, TakeSpec;
    hide TakeBootDisk, TakeSmbios, TakeDeviceMap, SmbiosFits, TextFits, ValidateSpec;
    var (spec, p1) := TakeSpec(buf, 0).value;
    var (disk, p2) := TakeBootDisk(buf, p1).value;
    var (smbios, p3) := TakeSmbios(buf, p2).value;
    SpecExact(buf, 0);
    BootDiskExact(buf, p1);
    SmbiosExact(buf, p2);
    if n < p1 {
      SpecCut(buf, 0, n);
    } else {
      AtPrefix(buf, n, 0, SpecBytes(spec));
      SpecAt(buf[..n], 0, spec);
      if n < p2 {
        BootDiskCut(buf, p1, n);
      } else {
        AtPrefix(buf, n, p1, TextBytes(disk));
        BootDiskAt(buf[..n], p1, disk);
        if n < p3 {
          SmbiosCut(buf, p2, n);
        } else {
          AtPrefix(buf, n, p2, SmbiosBytes(smbios));
          SmbiosAt(buf[..n], p2, smbios);
          DeviceMapCut(buf, p3, n);
        }
      }
    }
  }

  // ----- The main results -----

  /**
   Decoding undoes encoding exactly on the encodable plans: elsewhere a field is rejected or a length is truncated.
   */
  lemma DecodeAfterEncode(plan: LaunchPlan)
    ensures DecodePlan(PlanBytes(plan)) == Success(plan) <==>
              && 1 <= plan.spec.cpuCount <= 255 && plan.spec.memoryBytes >= 134_217_728
              && 0 < |plan.bootDisk| <= 0xFFFF_FFFF
              && |plan.smbios| <= 0xFFFF_FFFF && |plan.devices| <= 0xFFFF_FFFF
              && forall e <- plan.smbios :: |e.key| <= 0xFFFF_FFFF && |e.value| <= 0xFFFF_FFFF
    ensures DecodePlan(PlanBytes(plan)) == Success(plan) <==> Encodable(plan)
  {
    hide PlanBytes, DecodePlan;
    DecodeEncodable(plan);
    assert (forall e <- plan.smbios :: EntryFits(e)) <==>
      (forall e <- plan.smbios :: |e.key| <= 0xFFFF_FFFF && |e.value| <= 0xFFFF_FFFF);
  }

  lemma DecodeEncodable(plan: LaunchPlan)
    ensures DecodePlan(PlanBytes(plan)) == Success(plan) <==> Encodable(plan)
  {
    if Encodable(plan) {
      PlanAt(PlanBytes(plan), plan);
    }
    if DecodePlan(PlanBytes(plan)) == Success(plan) {
      PlanExact(PlanBytes(plan));
    }
  }

  // A specification is refused by the decoder for the reason it fails validation.
  lemma SpecRefused(buf: seq<byte>, p: nat, spec: GuestSpec)
    requires ValidateSpec(spec).Fail? && At(buf, p, SpecBytes(spec))
    ensures TakeSpec(buf, p) == Failure(ValidateSpec(spec).error)
  {
    AtConcat(buf, p, U32Le(spec.cpuCount), U64Le(spec.memoryBytes));
    U32At(buf, p, spec.cpuCount);
    U64At(buf, p + 4, spec.memoryBytes);
  }

  /** The wire form of a plan without lists decodes to what `new` makes of it: the same plan or the same refusal. */
  lemma DecodeAgreesWithNew(spec: GuestSpec, disk: Text)
    requires TextFits(disk)
    ensures DecodePlan(PlanBytes(LaunchPlan(spec, disk, [], []))) == New(spec, disk)
    ensures New(spec, disk).Success? <==>
              1 <= spec.cpuCount <= 255 && spec.memoryBytes >= 134_217_728 && disk != []
  {
    NewExactly(spec, disk);
    SpecExactly(spec);
    hide At, SpecBytes, TextBytes, SmbiosBytes, DeviceMapBytes;
    hide TakeSpec, TakeText, TakeSmbios, TakeDeviceMap, ValidateSpec;
    var plan := LaunchPlan(spec, disk, [], []);
    if New(spec, disk).Success? {
      DecodeAfterEncode(plan);
    } else {
      var buf := PlanBytes(plan);
      var a, b, c, d := SpecBytes(spec), TextBytes(disk), SmbiosBytes([]), DeviceMapBytes([]);
      Whole(buf);
      AtConcat(buf, 0, a + b + c, d);
      AtConcat(buf, 0, a + b, c);
      AtConcat(buf, 0, a, b);
      if ValidateSpec(spec).Fail? {
        SpecRefused(buf, 0, spec);
      } else {
        SpecAt(buf, 0, spec);
        TextAt(buf, |a|, disk, BAD_BOOT);
      }
    }
  }

  lemma Whole(buf: seq<byte>)
    ensures At(buf, 0, buf)
  {
  }

  /**
   Encoding undoes decoding on every accepted buffer: there is no second way to write a plan, and only valid plans are
   accepted.
   */
  lemma EncodeAfterDecode(buf: seq<byte>)
    requires DecodePlan(buf).Success?
    ensures Encodable(DecodePlan(buf).value)
    ensures var plan := DecodePlan(buf).value;
            1 <= plan.spec.cpuCount <= 255 && plan.spec.memoryBytes >= 134_217_728 && plan.bootDisk != []
    ensures PlanBytes(DecodePlan(buf).value) == buf
  {
    PlanExact(buf);
    assert buf[0..|buf|] == buf;
  }

  /** Cutting an accepted buffer anywhere is a truncation, and extending it leaves trailing bytes. */
  lemma PlansArePrefixFree(buf: seq<byte>, other: seq<byte>)
    requires DecodePlan(buf).Success?
    ensures other < buf ==> DecodePlan(other) == Failure(InvalidSpec("truncated plan"))
    ensures buf < other ==> DecodePlan(other) == Failure(InvalidSpec("trailing bytes"))
  {
    if other < buf {
      PlanCut(buf, |other|);
      assert buf[..|other|] == other;
    }
    if buf < other {
      EncodeAfterDecode(buf);
      assert other[0..|buf|] == buf;
      PlanAt(other, DecodePlan(buf).value);
    }
  }

  /** What a plan costs on the wire: no accepted buffer can claim more list elements than it has room for. */
  lemma ConsumptionBound(buf: seq<byte>)
    requires DecodePlan(buf).Success?
    ensures var plan := DecodePlan(buf).value;
            24 + |plan.bootDisk| + 8 * |plan.smbios| + 16 * |plan.devices| <= |buf|
  {
    EncodeAfterDecode(buf);
    var plan := DecodePlan(buf).value;
    EntriesSize(plan.smbios);
    DevicesSize(plan.devices);
  }

  /**
   The same for every buffer, accepted or not: however many elements a count claims, the decoder stops before it has
   pushed more than the buffer has room for.
   */
  lemma ReadBound(buf: seq<byte>)
    ensures 8 * SmbiosRead(buf) + 16 * DeviceMapRead(buf) <= |buf|
    ensures SmbiosRead(buf) > 0 ==> 21 + 8 * SmbiosRead(buf) <= |buf|
    ensures DeviceMapRead(buf) > 0 ==> 25 + 8 * SmbiosRead(buf) + 16 * DeviceMapRead(buf) <= |buf|
    ensures DecodePlan(buf).Success? ==>
              SmbiosRead(buf) == |DecodePlan(buf).value.smbios| && DeviceMapRead(buf) == |DecodePlan(buf).value.devices|
  {
    hide TakeSpec, TakeBootDisk, TakeU32, TakeEntries, TakeDevices, EntriesRead, DevicesRead;
    if TakeSpec(buf, 0).Success? {
      SpecExact(buf, 0);
      var p := TakeSpec(buf, 0).value.1;
      if TakeBootDisk(buf, p).Success? {
        BootDiskExact(buf, p);
        var p2 := TakeBootDisk(buf, p).value.1;
        if TakeU32(buf, p2).Success? {
          U32Exact(buf, p2);
          var (n, p3) := TakeU32(buf, p2).value;
          EntriesReadBound(buf, p3, n);
          if TakeEntries(buf, p3, n).Success? {
            var p4 := TakeEntries(buf, p3, n).value.1;
            if TakeU32(buf, p4).Success? {
              U32Exact(buf, p4);
              DevicesReadBound(buf, TakeU32(buf, p4).value.1, TakeU32(buf, p4).value.0);
            }
          }
        }
      }
    }
  }

  lemma {:induction false} EntriesReadBound(buf: seq<byte>, p: nat, n: nat)
    requires p <= |buf|
    ensures p + 8 * EntriesRead(buf, p, n) <= |buf|
    ensures TakeEntries(buf, p, n).Success? <==> EntriesRead(buf, p, n) == n
    ensures TakeEntries(buf, p, n).Success? ==>
              |TakeEntries(buf, p, n).value.0| == n && p + 8 * n <= TakeEntries(buf, p, n).value.1
    decreases n
  {
    hide TakeText, IsUtf8;
    if n > 0 && TakeEntry(buf, p).Success? {
      TextExact(buf, p, BAD_KEY);
      TextExact(buf, TakeText(buf, p, BAD_KEY).value.1, BAD_VALUE);
      EntriesReadBound(buf, TakeEntry(buf, p).value.1, n - 1);
    }
  }

  /** Devices have a fixed size, so the number read is known in advance. */
  lemma {:induction false} DevicesReadBound(buf: seq<byte>, p: nat, n: nat)
    requires p <= |buf|
    ensures DevicesRead(buf, p, n) == if (|buf| - p) / 16 < n then (|buf| - p) / 16 else n
    ensures TakeDevices(buf, p, n).Success? <==> DevicesRead(buf, p, n) == n
    ensures TakeDevices(buf, p, n).Success? ==> |TakeDevices(buf, p, n).value.0| == n
    decreases n
  {
    hide TakeDevice;
    DeviceExact(buf, p);
    if n > 0 && TakeDevice(buf, p).Success? {
      DevicesReadBound(buf, TakeDevice(buf, p).value.1, n - 1);
    }
  }

  lemma {:induction false} EntriesSize(es: seq<Entry>)
    ensures |EntriesBytes(es)| >= 8 * |es|
  {
    if es != [] {
      EntriesSize(es[1..]);
    }
  }

  lemma {:induction false} DevicesSize(ds: seq<Device>)
    ensures |DevicesBytes(ds)| == 16 * |ds|
  {
    if ds != [] {
      DevicesSize(ds[1..]);
    }
  }
}
