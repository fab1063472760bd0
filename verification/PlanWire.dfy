/** The launch plan on the wire: every byte of an encoded plan, and every reason to refuse a buffer. */
module PlanWire {
  import opened Wrappers
  import opened Bytes
  import opened Utf8
  import opened Plan
  import opened PlanLaws

  // ----- What is written -----

  /** The whole buffer in the order of the fields; a list starts with its count. */
  lemma EncodedInFull(p: LaunchPlan)
    ensures PlanBytes(p) ==
            U32Le(p.spec.cpuCount) + U64Le(p.spec.memoryBytes)
            + U32Le(|p.bootDisk| % 0x1_0000_0000) + p.bootDisk
            + U32Le(|p.smbios| % 0x1_0000_0000) + EntriesBytes(p.smbios)
            + U32Le(|p.devices| % 0x1_0000_0000) + DevicesBytes(p.devices)
  {
    hide U32Le, U64Le, EntriesBytes, DevicesBytes;
    var front := U32Le(p.spec.cpuCount) + U64Le(p.spec.memoryBytes);
    var disk := front + U32Le(|p.bootDisk| % 0x1_0000_0000) + p.bootDisk;
    Assoc(front, U32Le(|p.bootDisk| % 0x1_0000_0000), p.bootDisk);
    Assoc(disk, U32Le(|p.smbios| % 0x1_0000_0000), EntriesBytes(p.smbios));
    var lists := disk + U32Le(|p.smbios| % 0x1_0000_0000) + EntriesBytes(p.smbios);
    Assoc(lists, U32Le(|p.devices| % 0x1_0000_0000), DevicesBytes(p.devices));
  }

  /** An entry is its key and its value, each behind its length. */
  lemma EntriesInFull(es: seq<Entry>, i: nat)
    requires i < |es|
    ensures EntriesBytes([]) == []
    ensures EntriesBytes(es[..i + 1]) ==
            EntriesBytes(es[..i]) + U32Le(|es[i].key| % 0x1_0000_0000) + es[i].key
            + U32Le(|es[i].value| % 0x1_0000_0000) + es[i].value
  {
    hide EntriesBytes, U32Le;
    EntriesStep(es, i);
    EntryAppended(EntriesBytes(es[..i]), es[i]);
    assert EntriesBytes([]) == [] by {
      EntriesOfNone();
    }
  }

  lemma EntriesOfNone()
    ensures EntriesBytes([]) == []
  {
  }

  /** Device `i` takes the sixteen bytes behind the devices before it. */
  lemma {:induction false} DevicesInFull(ds: seq<Device>, i: nat)
    requires i < |ds|
    ensures |DevicesBytes(ds)| == 16 * |ds|
    ensures DevicesBytes(ds)[16 * i..16 * i + 16] ==
            U32Le(ds[i].vendorId) + U32Le(ds[i].deviceId) + U64Le(ds[i].mmioLen)
  {
    hide U32Le, U64Le;
    DevicesSize(ds);
    var rest := DevicesBytes(ds[1..]);
    assert DevicesBytes(ds) == DeviceBytes(ds[0]) + rest;
    if i > 0 {
      DevicesInFull(ds[1..], i - 1);
      assert DevicesBytes(ds)[16 * i..16 * i + 16] == rest[16 * (i - 1)..16 * (i - 1) + 16];
    }
  }

  // ----- What is read, and why it is refused -----

  /** The front of a buffer: specification and boot disk, with every reason to stop there. */
  lemma FrontInFull(buf: seq<byte>)
    ensures |buf| < 12 ==> DecodePlan(buf) == Failure(InvalidSpec("truncated plan"))
    ensures |buf| >= 12 ==>
              var cpu, memory := LeU32(buf[0..4]), LeU64(buf[4..12]);
              && (!(1 <= cpu <= 255) ==> DecodePlan(buf) == Failure(InvalidSpec("cpu_count out of range")))
              && (1 <= cpu <= 255 && memory < 134_217_728 ==>
                   DecodePlan(buf) == Failure(InvalidSpec("memory below 128 MiB")))
    ensures |buf| >= 12 && 1 <= LeU32(buf[0..4]) <= 255 && LeU64(buf[4..12]) >= 134_217_728 ==>
              if |buf| < 16 || |buf| < 16 + LeU32(buf[12..16]) then
                DecodePlan(buf) == Failure(InvalidSpec("truncated plan"))
              else
                var n := LeU32(buf[12..16]);
                && (!IsUtf8(buf[16..16 + n]) ==> DecodePlan(buf) == Failure(InvalidSpec("boot disk not utf-8")))
                && (n == 0 ==> DecodePlan(buf) == Failure(InvalidSpec("empty boot disk")))
                && (DecodePlan(buf).Success? ==>
                     && DecodePlan(buf).value.spec == GuestSpec(LeU32(buf[0..4]), LeU64(buf[4..12]))
                     && DecodePlan(buf).value.bootDisk == buf[16..16 + n])
  {
    hide TakeSmbios, TakeDeviceMap, LeU32, LeU64, IsUtf8, ValidateSpec;
    if |buf| >= 12 {
      SpecExactly(GuestSpec(LeU32(buf[0..4]), LeU64(buf[4..12])));
      if |buf| >= 16 && LeU32(buf[12..16]) == 0 {
        assert buf[16..16] == [];
        EmptyIsUtf8();
      }
    }
  }

  lemma EmptyIsUtf8()
    ensures IsUtf8([])
  {
  }

  /** A length and that many bytes of text, or the reason why not. */
  lemma TextInFull(buf: seq<byte>, p: nat, notUtf8: PlanError)
    requires p <= |buf|
    ensures TakeText(buf, p, notUtf8) ==
            if |buf| < p + 4 || |buf| < p + 4 + LeU32(buf[p..p + 4]) then Failure(InvalidSpec("truncated plan"))
            else
              var n := LeU32(buf[p..p + 4]);
              if !IsUtf8(buf[p + 4..p + 4 + n]) then Failure(notUtf8)
              else Success((buf[p + 4..p + 4 + n], p + 4 + n))
  {
    hide LeU32, IsUtf8;
  }

  /** An entry: the key's own reasons come first, and the two texts are told apart. */
  lemma EntryInFull(buf: seq<byte>, p: nat)
    requires p <= |buf|
    ensures var key := TakeText(buf, p, InvalidSpec("smbios key not utf-8"));
            if key.Failure? then TakeEntry(buf, p) == Failure(key.error)
            else
              var value := TakeText(buf, key.value.1, InvalidSpec("smbios value not utf-8"));
              if value.Failure? then TakeEntry(buf, p) == Failure(value.error)
              else TakeEntry(buf, p) == Success((Entry(key.value.0, value.value.0), value.value.1))
  {
    hide TakeText;
  }

  /** A device: sixteen bytes, which cannot be wrong. */
  lemma DeviceInFull(buf: seq<byte>, p: nat)
    requires p <= |buf|
    ensures TakeDevice(buf, p) ==
            if |buf| < p + 16 then Failure(InvalidSpec("truncated plan"))
            else
              var vendor, device := LeU32(buf[p..p + 4]), LeU32(buf[p + 4..p + 8]);
              Success((Device(vendor, device, LeU64(buf[p + 8..p + 16])), p + 16))
  {
    hide LeU32, LeU64;
  }

  /** A list fails exactly with the error of its first element that cannot be read. */
  lemma {:induction false} ListStopsAtFirstError(buf: seq<byte>, p: nat, n: nat, error: PlanError)
    requires p <= |buf|
    ensures TakeEntries(buf, p, n) == Failure(error) <==> exists k: nat, q: nat :: k < n && StopsAt(buf, p, k, q, error)
    decreases n
  {
    hide TakeEntry;
    if n > 0 && TakeEntry(buf, p).Failure? {
      if TakeEntry(buf, p) == Failure(error) {
        assert StopsAt(buf, p, 0, p, error);
      }
    } else if n > 0 {
      var q := TakeEntry(buf, p).value.1;
      ListStopsAtFirstError(buf, q, n - 1, error);
      if k: nat, at: nat :| k < n - 1 && StopsAt(buf, q, k, at, error) {
        assert StopsAt(buf, p, k + 1, at, error);
      }
      if k: nat, at: nat :| k < n && StopsAt(buf, p, k, at, error) {
        assert StopsAt(buf, q, k - 1, at, error);
      }
    }
  }

  /** `k` entries are read from `p` to `q`, and the next one fails with `error`. */
  ghost predicate StopsAt(buf: seq<byte>, p: nat, k: nat, q: nat, error: PlanError)
    requires p <= |buf|
  {
    && TakeEntries(buf, p, k).Success? && TakeEntries(buf, p, k).value.1 == q
    && TakeEntry(buf, q) == Failure(error)
  }

  // ----- Trailing bytes -----

  predicate OwnReason(error: PlanError) {
    error.reason != "trailing bytes"
  }

  lemma Reasons()
    ensures OwnReason(TRUNCATED) && OwnReason(BAD_BOOT) && OwnReason(BAD_KEY) && OwnReason(BAD_VALUE)
    ensures OwnReason(InvalidSpec("cpu_count out of range")) && OwnReason(InvalidSpec("memory below 128 MiB"))
    ensures OwnReason(InvalidSpec("empty boot disk"))
  {
    assert |"trailing bytes"| == 14 && "trailing bytes"[2] == 'a';
    assert |TRUNCATED.reason| == 14 && TRUNCATED.reason[2] == 'u';
    assert |BAD_BOOT.reason| == 19 && |BAD_KEY.reason| == 20 && |BAD_VALUE.reason| == 22;
    assert |"cpu_count out of range"| == 22 && |"memory below 128 MiB"| == 20 && |"empty boot disk"| == 15;
  }

  lemma EntryReason(buf: seq<byte>, p: nat)
    requires p <= |buf|
    ensures TakeEntry(buf, p).Failure? ==> OwnReason(TakeEntry(buf, p).error)
  {
    hide OwnReason, TakeText;
    Reasons();
    TextInFull(buf, p, BAD_KEY);
    if TakeText(buf, p, BAD_KEY).Success? {
      TextInFull(buf, TakeText(buf, p, BAD_KEY).value.1, BAD_VALUE);
    }
  }

  lemma {:induction false} EntriesReason(buf: seq<byte>, p: nat, n: nat)
    requires p <= |buf|
    ensures TakeEntries(buf, p, n).Failure? ==> OwnReason(TakeEntries(buf, p, n).error)
    decreases n
  {
    hide OwnReason, TakeEntry;
    EntryReason(buf, p);
    if n > 0 && TakeEntry(buf, p).Success? {
      EntriesReason(buf, TakeEntry(buf, p).value.1, n - 1);
    }
  }

  lemma {:induction false} DevicesReason(buf: seq<byte>, p: nat, n: nat)
    requires p <= |buf|
    ensures TakeDevices(buf, p, n).Failure? ==> OwnReason(TakeDevices(buf, p, n).error)
    decreases n
  {
    hide OwnReason, TakeDevice;
    Reasons();
    DeviceExact(buf, p);
    if n > 0 && TakeDevice(buf, p).Success? {
      DevicesReason(buf, TakeDevice(buf, p).value.1, n - 1);
    }
  }

  lemma PlanReason(buf: seq<byte>)
    ensures TakePlan(buf).Failure? ==> OwnReason(TakePlan(buf).error)
  {
    hide OwnReason, TakeEntries, TakeDevices, IsUtf8, LeU32, LeU64;
    Reasons();
    forall p: nat, n: nat | p <= |buf|
      ensures TakeEntries(buf, p, n).Failure? ==> OwnReason(TakeEntries(buf, p, n).error)
    {
      EntriesReason(buf, p, n);
    }
    forall p: nat, n: nat | p <= |buf|
      ensures TakeDevices(buf, p, n).Failure? ==> OwnReason(TakeDevices(buf, p, n).error)
    {
      DevicesReason(buf, p, n);
    }
  }

  /** Trailing bytes are reported exactly for the proper extensions of accepted buffers. */
  lemma TrailingExactly(buf: seq<byte>)
    ensures DecodePlan(buf) == Failure(InvalidSpec("trailing bytes")) <==>
              exists n :: 0 <= n < |buf| && DecodePlan(buf[..n]).Success?
  {
    hide TakePlan, PlanBytes, Encodable;
    PlanReason(buf);
    if TakePlan(buf).Success? && TakePlan(buf).value.1 < |buf| {
      PlanExact(buf);
      var (plan, n) := TakePlan(buf).value;
      assert buf[..n] == PlanBytes(plan);
      DecodeAfterEncode(plan);
    }
    forall n | 0 <= n < |buf| && DecodePlan(buf[..n]).Success?
      ensures DecodePlan(buf) == Failure(InvalidSpec("trailing bytes"))
    {
      PlansArePrefixFree(buf[..n], buf);
    }
  }
}
