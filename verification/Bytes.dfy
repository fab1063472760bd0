/** Bytes, fixed-width unsigned integers and their little-endian forms. */
module Bytes {
  const U16_MAX := 0xFFFF
  const U32_MAX := 0xFFFF_FFFF
  const U64_MAX := 0xFFFF_FFFF_FFFF_FFFF

  type byte = x: int | 0 <= x < 256
  type u16 = x: int | 0 <= x <= U16_MAX
  type u32 = x: int | 0 <= x <= U32_MAX
  type u64 = x: int | 0 <= x <= U64_MAX

  /** The number of values `width` bytes can hold. */
  function Capacity(width: nat): (c: nat)
    ensures c > 0
  {
    if width == 0 then 1 else 256 * Capacity(width - 1)
  }

  function LeBytes(n: nat, width: nat): (s: seq<byte>)
    ensures |s| == width
  {
    if width == 0 then [] else [n % 256] + LeBytes(n / 256, width - 1)
  }

  function LeValue(s: seq<byte>): (n: nat)
    ensures n < Capacity(|s|)
  {
    if s == [] then 0 else s[0] + 256 * LeValue(s[1..])
  }

  lemma {:induction false} LeValueOfBytes(n: nat, width: nat)
    requires n < Capacity(width)
    ensures LeValue(LeBytes(n, width)) == n
  {
    if width > 0 {
      LeValueOfBytes(n / 256, width - 1);
      assert LeBytes(n, width)[1..] == LeBytes(n / 256, width - 1);
    }
  }

  lemma {:induction false} LeBytesOfValue(s: seq<byte>)
    ensures LeBytes(LeValue(s), |s|) == s
  {
    if s != [] {
      LeBytesOfValue(s[1..]);
      assert s == [s[0]] + s[1..];
    }
  }

  lemma Widths()
    ensures Capacity(2) == U16_MAX + 1
    ensures Capacity(4) == U32_MAX + 1
    ensures Capacity(8) == U64_MAX + 1
  {
    assert Capacity(1) == 256;
    assert Capacity(2) == 256 * 256;
    assert Capacity(3) == 256 * 256 * 256;
    assert Capacity(4) == 256 * 256 * 256 * 256;
    assert Capacity(5) == 256 * Capacity(4);
    assert Capacity(6) == 256 * Capacity(5);
    assert Capacity(7) == 256 * Capacity(6);
  }

  // The typed forms. Each pair is a bijection, which the contracts record.

  function U16Le(x: u16): (s: seq<byte>)
    ensures |s| == 2 && LeValue(s) == x
  {
    Widths();
    LeValueOfBytes(x, 2);
    LeBytes(x, 2)
  }

  function U32Le(x: u32): (s: seq<byte>)
    ensures |s| == 4 && LeValue(s) == x
  {
    Widths();
    LeValueOfBytes(x, 4);
    LeBytes(x, 4)
  }

  function U64Le(x: u64): (s: seq<byte>)
    ensures |s| == 8 && LeValue(s) == x
  {
    Widths();
    LeValueOfBytes(x, 8);
    LeBytes(x, 8)
  }

  function LeU16(s: seq<byte>): (x: u16)
    requires |s| == 2
    ensures U16Le(x) == s
  {
    Widths();
    LeBytesOfValue(s);
    LeValue(s)
  }

  function LeU32(s: seq<byte>): (x: u32)
    requires |s| == 4
    ensures U32Le(x) == s
  {
    Widths();
    LeBytesOfValue(s);
    LeValue(s)
  }

  function LeU64(s: seq<byte>): (x: u64)
    requires |s| == 8
    ensures U64Le(x) == s
  {
    Widths();
    LeBytesOfValue(s);
    LeValue(s)
  }

  /** Little-endian: the first byte counts ones, and each later byte counts 256 times as much as the one before it. */
  lemma LittleEndian(s: seq<byte>)
    ensures |s| == 2 ==> LeU16(s) == s[0] as int + 0x100 * s[1] as int
    ensures |s| == 4 ==>
              LeU32(s) == s[0] as int + 0x100 * s[1] as int + 0x1_0000 * s[2] as int + 0x100_0000 * s[3] as int
    ensures |s| == 8 ==>
              LeU64(s) ==
              s[0] as int + 0x100 * s[1] as int + 0x1_0000 * s[2] as int + 0x100_0000 * s[3] as int
              + 0x1_0000_0000 * s[4] as int + 0x100_0000_0000 * s[5] as int + 0x1_0000_0000_0000 * s[6] as int
              + 0x100_0000_0000_0000 * s[7] as int
  {
    if |s| == 2 {
      TwoMore(s);
    } else if |s| == 4 {
      TwoMore(s);
      TwoMore(s[2..]);
    } else if |s| == 8 {
      TwoMore(s);
      TwoMore(s[2..]);
      TwoMore(s[2..][2..]);
      TwoMore(s[2..][2..][2..]);
    }
  }

  lemma TwoMore(s: seq<byte>)
    requires |s| >= 2
    ensures LeValue(s) == s[0] as int + 0x100 * s[1] as int + 0x1_0000 * LeValue(s[2..])
  {
    assert s[1..][1..] == s[2..];
  }

  /** `a & !b` on unsigned integers. */
  function AndNot(a: nat, b: nat): nat {
    if a == 0 then 0 else (if a % 2 == 1 && b % 2 == 0 then 1 else 0) + 2 * AndNot(a / 2, b / 2)
  }

  /** The all-ones mask of `bits` bits. */
  function Ones(bits: nat): nat {
    if bits == 0 then 0 else 2 * Ones(bits - 1) + 1
  }

  lemma {:induction false} AndNotOnes(a: nat, bits: nat)
    ensures AndNot(a, Ones(bits)) == 0 <==> a <= Ones(bits)
  {
    if a != 0 {
      if bits == 0 {
        AndNotNothing(a);
      } else {
        AndNotOnes(a / 2, bits - 1);
      }
    }
  }

  lemma {:induction false} AndNotNothing(a: nat)
    ensures AndNot(a, 0) == a
  {
    if a != 0 {
      AndNotNothing(a / 2);
    }
  }

  function Zeros(n: nat): (s: seq<byte>)
    ensures |s| == n && forall i :: 0 <= i < n ==> s[i] == 0
  {
    seq(n, _ => 0)
  }

  lemma SliceOfSlice(s: seq<byte>, from: nat, to: nat, start: nat, end: nat)
    requires from <= to <= |s| && start <= end <= to - from
    ensures s[from..to][start..end] == s[from + start..from + end]
  {
    var inner, direct := s[from..to][start..end], s[from + start..from + end];
    assert |inner| == |direct|;
    forall i | 0 <= i < |inner| ensures inner[i] == direct[i] {
    }
  }

  /** `b` with `s` written over it from index `start` on. */
  function Patched(b: seq<byte>, start: nat, s: seq<byte>): (r: seq<byte>)
    requires start + |s| <= |b|
    ensures |r| == |b|
  {
    b[..start] + s + b[start + |s|..]
  }

  /** Writing right behind what was just written is one longer write. */
  lemma PatchedTwice(b: seq<byte>, start: nat, s: seq<byte>, t: seq<byte>)
    requires start + |s| + |t| <= |b|
    ensures Patched(Patched(b, start, s), start + |s|, t) == Patched(b, start, s + t)
  {
  }

  /** Overwrites `a[start..start + |s|]` with `s`, as Rust's `copy_from_slice` on a sub-slice. */
  method CopyInto(a: array<byte>, start: nat, s: seq<byte>)
    requires start + |s| <= a.Length
    modifies a
    ensures a[..] == Patched(old(a[..]), start, s)
  {
    for i := 0 to |s|
      invariant forall k :: 0 <= k < i ==> a[start + k] == s[k]
      invariant forall k :: 0 <= k < start || start + |s| <= k < a.Length ==> a[k] == old(a[k])
    {
      a[start + i] := s[i];
    }
    assert a[..] == a[..start] + a[start..start + |s|] + a[start + |s|..];
  }

  /** Continues a write that has put `done` at the front of `blank`. */
  method WriteField(a: array<byte>, start: nat, s: seq<byte>, ghost blank: seq<byte>, ghost done: seq<byte>)
    requires |blank| == a.Length && start == |done| && start + |s| <= a.Length
    requires a[..] == Patched(blank, 0, done)
    modifies a
    ensures a[..] == Patched(blank, 0, done + s)
  {
    CopyInto(a, start, s);
    PatchedTwice(blank, 0, done, s);
  }
}
