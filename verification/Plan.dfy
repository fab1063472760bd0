/** The guest launch plan and its hand-written binary form. */
module Plan {
  import opened Wrappers
  import opened Bytes
  import opened Utf8

  datatype PlanError = InvalidSpec(reason: string)

  const TRUNCATED := InvalidSpec("truncated plan")
  const TRAILING := InvalidSpec("trailing bytes")
  const MIN_MEMORY: u64 := 128 * 1024 * 1024

  datatype GuestSpec = GuestSpec(cpuCount: u32, memoryBytes: u64)

  datatype Entry = Entry(key: Text, value: Text)

  datatype Device = Device(vendorId: u32, deviceId: u32, mmioLen: u64)

  datatype LaunchPlan = LaunchPlan(spec: GuestSpec, bootDisk: Text, smbios: seq<Entry>, devices: seq<Device>)

  function ValidateSpec(spec: GuestSpec): Outcome<PlanError> {
    if spec.cpuCount == 0 || spec.cpuCount > 255 then Fail(InvalidSpec("cpu_count out of range"))
    else if spec.memoryBytes < MIN_MEMORY then Fail(InvalidSpec("memory below 128 MiB"))
    else Pass
  }

  function New(spec: GuestSpec, bootDisk: Text): Result<LaunchPlan, PlanError> {
    match ValidateSpec(spec)
    case Fail(e) => Failure(e)
    case Pass =>
      if bootDisk == [] then Failure(InvalidSpec("empty boot disk")) else Success(LaunchPlan(spec, bootDisk, [], []))
  }

  // ----- Encoding -----

  /** `n as u32`. */
  function Truncated32(n: nat): u32 {
    n % (U32_MAX + 1)
  }

  function TextBytes(t: Text): (s: seq<byte>)
    ensures |s| == 4 + |t|
  {
    U32Le(Truncated32(|t|)) + t
  }

  function EntryBytes(e: Entry): seq<byte> {
    TextBytes(e.key) + TextBytes(e.value)
  }

  function EntriesBytes(es: seq<Entry>): seq<byte> {
    if es == [] then [] else EntryBytes(es[0]) + EntriesBytes(es[1..])
  }

  function DeviceBytes(d: Device): (s: seq<byte>)
    ensures |s| == 16
  {
    U32Le(d.vendorId) + U32Le(d.deviceId) + U64Le(d.mmioLen)
  }

  function DevicesBytes(ds: seq<Device>): seq<byte> {
    if ds == [] then [] else DeviceBytes(ds[0]) + DevicesBytes(ds[1..])
  }

  function SpecBytes(spec: GuestSpec): (s: seq<byte>)
    ensures |s| == 12
  {
    U32Le(spec.cpuCount) + U64Le(spec.memoryBytes)
  }

  function SmbiosBytes(es: seq<Entry>): seq<byte> {
    U32Le(Truncated32(|es|)) + EntriesBytes(es)
  }

  function DeviceMapBytes(ds: seq<Device>): seq<byte> {
    U32Le(Truncated32(|ds|)) + DevicesBytes(ds)
  }

  function PlanBytes(p: LaunchPlan): seq<byte> {
    SpecBytes(p.spec) + TextBytes(p.bootDisk) + SmbiosBytes(p.smbios) + DeviceMapBytes(p.devices)
  }

  lemma {:induction false} EntriesSnoc(es: seq<Entry>, e: Entry)
    ensures EntriesBytes(es + [e]) == EntriesBytes(es) + EntryBytes(e)
  {
    hide EntryBytes;
    if es == [] {
      assert es + [e] == [e];
    } else {
      EntriesSnoc(es[1..], e);
      assert (es + [e])[1..] == es[1..] + [e];
    }
  }

  lemma {:induction false} DevicesSnoc(ds: seq<Device>, d: Device)
    ensures DevicesBytes(ds + [d]) == DevicesBytes(ds) + DeviceBytes(d)
  {
    hide DeviceBytes;
    if ds == [] {
      assert ds + [d] == [d];
    } else {
      DevicesSnoc(ds[1..], d);
      assert (ds + [d])[1..] == ds[1..] + [d];
    }
  }

  /** Appends field after field to one growing buffer. */
  method Encode(p: LaunchPlan) returns (out: seq<byte>)
    ensures out == PlanBytes(p)
  {
    out := [];
    out := out + U32Le(p.spec.cpuCount);
    out := out + U64Le(p.spec.memoryBytes);
    out := out + U32Le(Truncated32(|p.bootDisk|));
    out := out + p.bootDisk;
    assert out == SpecBytes(p.spec) + TextBytes(p.bootDisk);
    out := out + U32Le(Truncated32(|p.smbios|));
    ghost var head := out;
    for i := 0 to |p.smbios|
      invariant out == head + EntriesBytes(p.smbios[..i])
    {
      var e := p.smbios[i];
      ghost var before := out;
      out := out + U32Le(Truncated32(|e.key|));
      out := out + e.key;
      out := out + U32Le(Truncated32(|e.value|));
      out := out + e.value;
      EntryAppended(before, e);
      EntriesStep(p.smbios, i);
      Assoc(head, EntriesBytes(p.smbios[..i]), EntryBytes(e));
    }
    assert p.smbios[..|p.smbios|] == p.smbios;
    Assoc(SpecBytes(p.spec) + TextBytes(p.bootDisk), U32Le(Truncated32(|p.smbios|)), EntriesBytes(p.smbios));
    assert out == SpecBytes(p.spec) + TextBytes(p.bootDisk) + SmbiosBytes(p.smbios);
    ghost var front := out;
    out := out + U32Le(Truncated32(|p.devices|));
    head := out;
    for i := 0 to |p.devices|
      invariant out == head + DevicesBytes(p.devices[..i])
    {
      var d := p.devices[i];
      ghost var before := out;
      out := out + U32Le(d.vendorId);
      out := out + U32Le(d.deviceId);
      out := out + U64Le(d.mmioLen);
      DeviceAppended(before, d);
      DevicesStep(p.devices, i);
      Assoc(head, DevicesBytes(p.devices[..i]), DeviceBytes(d));
    }
    assert p.devices[..|p.devices|] == p.devices;
    Assoc(front, U32Le(Truncated32(|p.devices|)), DevicesBytes(p.devices));
  }

  lemma Assoc(a: seq<byte>, b: seq<byte>, c: seq<byte>)
    ensures (a + b) + c == a + (b + c)
  {
  }

  lemma EntryAppended(before: seq<byte>, e: Entry)
    ensures before + U32Le(Truncated32(|e.key|)) + e.key + U32Le(Truncated32(|e.value|)) + e.value ==
            before + EntryBytes(e)
  {
  }

  lemma DeviceAppended(before: seq<byte>, d: Device)
    ensures before + U32Le(d.vendorId) + U32Le(d.deviceId) + U64Le(d.mmioLen) == before + DeviceBytes(d)
  {
  }

  lemma EntriesStep(es: seq<Entry>, i: nat)
    requires i < |es|
    ensures EntriesBytes(es[..i + 1]) == EntriesBytes(es[..i]) + EntryBytes(es[i])
  {
    EntriesSnoc(es[..i], es[i]);
    assert es[..i + 1] == es[..i] + [es[i]];
  }

  lemma DevicesStep(ds: seq<Device>, i: nat)
    requires i < |ds|
    ensures DevicesBytes(ds[..i + 1]) == DevicesBytes(ds[..i]) + DeviceBytes(ds[i])
  {
    DevicesSnoc(ds[..i], ds[i]);
    assert ds[..i + 1] == ds[..i] + [ds[i]];
  }

  // ----- Decoding: every parser reads at a cursor and returns the cursor behind what it consumed -----

  type Parsed<T> = Result<(T, nat), PlanError>

  function Take(buf: seq<byte>, p: nat, n: nat): (r: Parsed<seq<byte>>)
    requires p <= |buf|
    ensures r.Success? ==> r.value.1 <= |buf|
  {
    if p + n > |buf| then Failure(TRUNCATED) else Success((buf[p..p + n], p + n))
  }

  function TakeU32(buf: seq<byte>, p: nat): (r: Parsed<u32>)
    requires p <= |buf|
    ensures r.Success? ==> r.value.1 <= |buf|
  {
    var (s, q) :- Take(buf, p, 4);
    Success((LeU32(s), q))
  }

  function TakeU64(buf: seq<byte>, p: nat): (r: Parsed<u64>)
    requires p <= |buf|
    ensures r.Success? ==> r.value.1 <= |buf|
  {
    var (s, q) :- Take(buf, p, 8);
    Success((LeU64(s), q))
  }

  function TakeText(buf: seq<byte>, p: nat, notUtf8: PlanError): (r: Parsed<Text>)
    requires p <= |buf|
    ensures r.Success? ==> r.value.1 <= |buf|
  {
    var (n, q) :- TakeU32(buf, p);
    var (s, q2) :- Take(buf, q, n);
    if IsUtf8(s) then Success((s, q2)) else Failure(notUtf8)
  }

  const BAD_BOOT := InvalidSpec("boot disk not utf-8")
  const BAD_KEY := InvalidSpec("smbios key not utf-8")
  const BAD_VALUE := InvalidSpec("smbios value not utf-8")

  function TakeEntry(buf: seq<byte>, p: nat): (r: Parsed<Entry>)
    requires p <= |buf|
    ensures r.Success? ==> r.value.1 <= |buf|
  {
    var (k, q) :- TakeText(buf, p, BAD_KEY);
    var (v, q2) :- TakeText(buf, q, BAD_VALUE);
    Success((Entry(k, v), q2))
  }

  function TakeEntries(buf: seq<byte>, p: nat, n: nat): (r: Parsed<seq<Entry>>)
    requires p <= |buf|
    ensures r.Success? ==> r.value.1 <= |buf|
    decreases n
  {
    if n == 0 then Success(([], p))
    else
      var (e, q) :- TakeEntry(buf, p);
      var (es, q2) :- TakeEntries(buf, q, n - 1);
      Success(([e] + es, q2))
  }

  function TakeDevice(buf: seq<byte>, p: nat): (r: Parsed<Device>)
    requires p <= |buf|
    ensures r.Success? ==> r.value.1 <= |buf|
  {
    var (vid, q) :- TakeU32(buf, p);
    var (did, q2) :- TakeU32(buf, q);
    var (len, q3) :- TakeU64(buf, q2);
    Success((Device(vid, did, len), q3))
  }

  function TakeDevices(buf: seq<byte>, p: nat, n: nat): (r: Parsed<seq<Device>>)
    requires p <= |buf|
    ensures r.Success? ==> r.value.1 <= |buf|
    decreases n
  {
    if n == 0 then Success(([], p))
    else
      var (d, q) :- TakeDevice(buf, p);
      var (ds, q2) :- TakeDevices(buf, q, n - 1);
      Success(([d] + ds, q2))
  }

  function TakeSpec(buf: seq<byte>, p: nat): (r: Parsed<GuestSpec>)
    requires p <= |buf|
    ensures r.Success? ==> r.value.1 <= |buf|
  {
    var (cpu, q) :- TakeU32(buf, p);
    var (mem, q2) :- TakeU64(buf, q);
    match ValidateSpec(GuestSpec(cpu, mem))
    case Fail(e) => Failure(e)
    case Pass => Success((GuestSpec(cpu, mem), q2))
  }

  function TakeBootDisk(buf: seq<byte>, p: nat): (r: Parsed<Text>)
    requires p <= |buf|
    ensures r.Success? ==> r.value.1 <= |buf|
  {
    var (disk, q) :- TakeText(buf, p, BAD_BOOT);
    if disk == [] then Failure(InvalidSpec("empty boot disk")) else Success((disk, q))
  }

  function TakeSmbios(buf: seq<byte>, p: nat): (r: Parsed<seq<Entry>>)
    requires p <= |buf|
    ensures r.Success? ==> r.value.1 <= |buf|
  {
    var (n, q) :- TakeU32(buf, p);
    TakeEntries(buf, q, n)
  }

  function TakeDeviceMap(buf: seq<byte>, p: nat): (r: Parsed<seq<Device>>)
    requires p <= |buf|
    ensures r.Success? ==> r.value.1 <= |buf|
  {
    var (n, q) :- TakeU32(buf, p);
    TakeDevices(buf, q, n)
  }

  function TakePlan(buf: seq<byte>): (r: Parsed<LaunchPlan>)
    ensures r.Success? ==> r.value.1 <= |buf|
  {
    var (spec, p1) :- TakeSpec(buf, 0);
    var (disk, p2) :- TakeBootDisk(buf, p1);
    var (smbios, p3) :- TakeSmbios(buf, p2);
    var (devices, p4) :- TakeDeviceMap(buf, p3);
    Success((LaunchPlan(spec, disk, smbios, devices), p4))
  }

  function DecodePlan(buf: seq<byte>): Result<LaunchPlan, PlanError> {
    var (plan, p) :- TakePlan(buf);
    if p != |buf| then Failure(TRAILING) else Success(plan)
  }

  /**
   Advances one cursor through the buffer and pushes list elements as they are read: `entries` and `devices` of them,
   whether or not the buffer is accepted in the end.
   */
  method Decode(buf: seq<byte>)
    returns (r: Result<LaunchPlan, PlanError>, ghost entries: nat, ghost devices: nat)
    ensures r == DecodePlan(buf)
    ensures entries == SmbiosRead(buf) && devices == DeviceMapRead(buf)
  {
    entries, devices := 0, 0;
    var p: nat := 0;
    var cpu :- TakeU32(buf, p);
    p := cpu.1;
    var mem :- TakeU64(buf, p);
    p := mem.1;
    var spec := GuestSpec(cpu.0, mem.0);
    var valid := ValidateSpec(spec);
    if valid.Fail? {
      r := Failure(valid.error);
      return;
    }
    var disk :- TakeText(buf, p, BAD_BOOT);
    p := disk.1;
    var plan :- New(spec, disk.0);
    var smbios: (seq<Entry>, nat);
    smbios, entries :- ReadSmbios(buf, p);
    p := smbios.1;
    plan := plan.(smbios := smbios.0);
    var deviceMap: (seq<Device>, nat);
    deviceMap, devices :- ReadDeviceMap(buf, p);
    p := deviceMap.1;
    plan := plan.(devices := deviceMap.0);
    if p != |buf| {
      r := Failure(TRAILING);
      return;
    }
    r := Success(plan);
  }

  method ReadSmbios(buf: seq<byte>, start: nat) returns (r: Parsed<seq<Entry>>, ghost pushed: nat)
    requires start <= |buf|
    ensures r == TakeSmbios(buf, start)
    ensures pushed ==
            match TakeU32(buf, start) case Failure(_) => 0 case Success((n, p)) => EntriesRead(buf, p, n)
  {
    hide TakeText;
    pushed := 0;
    var count :- TakeU32(buf, start);
    var p: nat := count.1;
    var entries: seq<Entry> := [];
    ghost var all := TakeEntries(buf, p, count.0);
    PushedOntoNothing(all, Success(([], 0)));
    for i := 0 to count.0
      invariant p <= |buf|
      invariant all == PushedEntries(entries, TakeEntries(buf, p, count.0 - i))
      invariant pushed == i && EntriesRead(buf, count.1, count.0) == pushed + EntriesRead(buf, p, count.0 - i)
    {
      EntriesAdvance(buf, p, count.0 - i, entries);
      var key :- TakeText(buf, p, BAD_KEY);
      var value :- TakeText(buf, key.1, BAD_VALUE);
      assert TakeEntry(buf, p) == Success((Entry(key.0, value.0), value.1));
      p := value.1;
      entries := entries + [Entry(key.0, value.0)];
      pushed := pushed + 1;
    }
    assert entries + [] == entries;
    r := Success((entries, p));
  }

  method ReadDeviceMap(buf: seq<byte>, start: nat) returns (r: Parsed<seq<Device>>, ghost pushed: nat)
    requires start <= |buf|
    ensures r == TakeDeviceMap(buf, start)
    ensures pushed ==
            match TakeU32(buf, start) case Failure(_) => 0 case Success((n, p)) => DevicesRead(buf, p, n)
  {
    hide TakeU32, TakeU64;
    pushed := 0;
    var count :- TakeU32(buf, start);
    var p: nat := count.1;
    var devices: seq<Device> := [];
    ghost var all := TakeDevices(buf, p, count.0);
    PushedOntoNothing(Success(([], 0)), all);
    for i := 0 to count.0
      invariant p <= |buf|
      invariant all == PushedDevices(devices, TakeDevices(buf, p, count.0 - i))
      invariant pushed == i && DevicesRead(buf, count.1, count.0) == pushed + DevicesRead(buf, p, count.0 - i)
    {
      DevicesAdvance(buf, p, count.0 - i, devices);
      var vid :- TakeU32(buf, p);
      var did :- TakeU32(buf, vid.1);
      var len :- TakeU64(buf, did.1);
      assert TakeDevice(buf, p) == Success((Device(vid.0, did.0, len.0), len.1));
      p := len.1;
      devices := devices + [Device(vid.0, did.0, len.0)];
      pushed := pushed + 1;
    }
    assert devices + [] == devices;
    r := Success((devices, p));
  }

  // ----- How many list elements are read before the decoder stops, whether it accepts the buffer or not -----

  function EntriesRead(buf: seq<byte>, p: nat, n: nat): nat
    requires p <= |buf|
    decreases n
  {
    if n == 0 then 0
    else match TakeEntry(buf, p) case Failure(_) => 0 case Success((_, q)) => 1 + EntriesRead(buf, q, n - 1)
  }

  function DevicesRead(buf: seq<byte>, p: nat, n: nat): nat
    requires p <= |buf|
    decreases n
  {
    if n == 0 then 0
    else match TakeDevice(buf, p) case Failure(_) => 0 case Success((_, q)) => 1 + DevicesRead(buf, q, n - 1)
  }

  /** The SMBIOS entries the decoder reads from a buffer. */
  function SmbiosRead(buf: seq<byte>): nat {
    match TakeSpec(buf, 0)
    case Failure(_) => 0
    case Success((_, p)) =>
      match TakeBootDisk(buf, p)
      case Failure(_) => 0
      case Success((_, p2)) =>
        match TakeU32(buf, p2) case Failure(_) => 0 case Success((n, p3)) => EntriesRead(buf, p3, n)
  }

  /** The devices the decoder reads from a buffer. */
  function DeviceMapRead(buf: seq<byte>): nat {
    match TakeSpec(buf, 0)
    case Failure(_) => 0
    case Success((_, p)) =>
      match TakeBootDisk(buf, p)
      case Failure(_) => 0
      case Success((_, p2)) =>
        match TakeSmbios(buf, p2)
        case Failure(_) => 0
        case Success((_, p3)) =>
          match TakeU32(buf, p3) case Failure(_) => 0 case Success((n, p4)) => DevicesRead(buf, p4, n)
  }

  // What remains to be read, behind the elements that are already in the list.
  function PushedEntries(done: seq<Entry>, r: Parsed<seq<Entry>>): Parsed<seq<Entry>> {
    match r case Failure(e) => Failure(e) case Success((es, q)) => Success((done + es, q))
  }

  function PushedDevices(done: seq<Device>, r: Parsed<seq<Device>>): Parsed<seq<Device>> {
    match r case Failure(e) => Failure(e) case Success((ds, q)) => Success((done + ds, q))
  }

  lemma PushedOntoNothing(es: Parsed<seq<Entry>>, ds: Parsed<seq<Device>>)
    ensures PushedEntries([], es) == es && PushedDevices([], ds) == ds
  {
    assert es.Success? ==> [] + es.value.0 == es.value.0;
    assert ds.Success? ==> [] + ds.value.0 == ds.value.0;
  }

  lemma EntriesAdvance(buf: seq<byte>, p: nat, n: nat, done: seq<Entry>)
    requires p <= |buf| && n > 0
    ensures match TakeEntry(buf, p)
            case Failure(e) => PushedEntries(done, TakeEntries(buf, p, n)) == Failure(e)
            case Success((x, q)) =>
              PushedEntries(done, TakeEntries(buf, p, n)) == PushedEntries(done + [x], TakeEntries(buf, q, n - 1))
  {
    if TakeEntry(buf, p).Success? {
      var (x, q) := TakeEntry(buf, p).value;
      if TakeEntries(buf, q, n - 1).Success? {
        assert done + ([x] + TakeEntries(buf, q, n - 1).value.0) == (done + [x]) + TakeEntries(buf, q, n - 1).value.0;
      }
    }
  }

  lemma DevicesAdvance(buf: seq<byte>, p: nat, n: nat, done: seq<Device>)
    requires p <= |buf| && n > 0
    ensures match TakeDevice(buf, p)
            case Failure(e) => PushedDevices(done, TakeDevices(buf, p, n)) == Failure(e)
            case Success((x, q)) =>
              PushedDevices(done, TakeDevices(buf, p, n)) == PushedDevices(done + [x], TakeDevices(buf, q, n - 1))
  {
    if TakeDevice(buf, p).Success? {
      var (x, q) := TakeDevice(buf, p).value;
      if TakeDevices(buf, q, n - 1).Success? {
        assert done + ([x] + TakeDevices(buf, q, n - 1).value.0) == (done + [x]) + TakeDevices(buf, q, n - 1).value.0;
      }
    }
  }
}
