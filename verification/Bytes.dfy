/** Octets, the firmware's fixed-width unsigned integers, and the two byte orders
    it uses: big-endian on the radio, little-endian in firmware packages. */
module Bytes {

  type byte = x: int | 0 <= x < 0x100
  type u16 = x: int | 0 <= x < 0x1_0000
  type u32 = x: int | 0 <= x < 0x1_0000_0000
  type u64 = x: int | 0 <= x < 0x1_0000_0000_0000_0000

  const U32_MAX := 0xFFFF_FFFF

  datatype Option<+T> = None | Some(value: T)

  // Big-endian, as written by btTlvAppendU16 and btTlvAppendU32.

  function BeU16(v: u16): (r: seq<byte>)
    ensures |r| == 2
  {
    [v / 0x100, v % 0x100]
  }

  function BeU32(v: u32): (r: seq<byte>)
    ensures |r| == 4
  {
    [v / 0x100_0000, v / 0x1_0000 % 0x100, v / 0x100 % 0x100, v % 0x100]
  }

  function FromBeU16(b: seq<byte>): u16
    requires |b| == 2
  {
    b[0] as int * 0x100 + b[1]
  }

  function FromBeU32(b: seq<byte>): u32
    requires |b| == 4
  {
    b[0] as int * 0x100_0000 + b[1] as int * 0x1_0000 + b[2] as int * 0x100 + b[3]
  }

  /** Reading inverts writing ... */
  lemma BeU16Inverse(v: u16)
    ensures FromBeU16(BeU16(v)) == v
  {
  }

  lemma BeU32Inverse(v: u32)
    ensures FromBeU32(BeU32(v)) == v
  {
    Digits(v);
  }

  /** ... and every two- or four-byte string is the writing of exactly one value. */
  lemma BeU16Unique(b: seq<byte>)
    requires |b| == 2
    ensures BeU16(FromBeU16(b)) == b
  {
  }

  lemma BeU32Unique(b: seq<byte>)
    requires |b| == 4
    ensures BeU32(FromBeU32(b)) == b
  {
    FromDigits(b[0], b[1], b[2], b[3]);
    assert BeU32(FromBeU32(b)) == b;
  }

  /** The four base-256 digits of a number. */
  lemma Digits(v: int)
    requires 0 <= v < 0x1_0000_0000
    ensures v == v / 0x100_0000 * 0x100_0000 + v / 0x1_0000 % 0x100 * 0x1_0000 + v / 0x100 % 0x100 * 0x100 + v % 0x100
  {
    assert v / 0x1_0000 == v / 0x100 / 0x100;
    assert v / 0x100_0000 == v / 0x1_0000 / 0x100;
  }

  lemma FromDigits(a: int, b: int, c: int, d: int)
    requires 0 <= a < 0x100 && 0 <= b < 0x100 && 0 <= c < 0x100 && 0 <= d < 0x100
    ensures var x := a * 0x100_0000 + b * 0x1_0000 + c * 0x100 + d;
            x / 0x100_0000 == a && x / 0x1_0000 % 0x100 == b && x / 0x100 % 0x100 == c && x % 0x100 == d
  {
    var x := a * 0x100_0000 + b * 0x1_0000 + c * 0x100 + d;
    assert x / 0x100 == a * 0x1_0000 + b * 0x100 + c;
    assert x / 0x1_0000 == a * 0x100 + b;
  }

  // Little-endian, as used by the package header and the worker transfer offset.

  function LeU16(v: u16): (r: seq<byte>)
    ensures |r| == 2
  {
    [v % 0x100, v / 0x100]
  }

  function LeU32(v: u32): (r: seq<byte>)
    ensures |r| == 4
  {
    [v % 0x100, v / 0x100 % 0x100, v / 0x1_0000 % 0x100, v / 0x100_0000]
  }

  function FromLeU16(b: seq<byte>): u16
    requires |b| == 2
  {
    b[0] + b[1] as int * 0x100
  }

  function FromLeU32(b: seq<byte>): u32
    requires |b| == 4
  {
    b[0] + b[1] as int * 0x100 + b[2] as int * 0x1_0000 + b[3] as int * 0x100_0000
  }

  lemma LeU16Inverse(v: u16)
    ensures FromLeU16(LeU16(v)) == v
  {
  }

  lemma LeU32Inverse(v: u32)
    ensures FromLeU32(LeU32(v)) == v
  {
    Digits(v);
  }

  /** memcpy into a buffer: `src` replaces the bytes from `at` on. */
  method MemCpy(dst: array<byte>, at: nat, src: seq<byte>)
    requires at + |src| <= dst.Length
    modifies dst
    ensures dst[..] == old(dst[..])[..at] + src + old(dst[..])[at + |src|..]
  {
    var k := 0;
    while k < |src|
      invariant 0 <= k <= |src|
      invariant forall i :: 0 <= i < k ==> dst[at + i] == src[i]
      invariant forall i :: 0 <= i < dst.Length && !(at <= i < at + k) ==> dst[i] == old(dst[i])
    {
      dst[at + k] := src[k];
      k := k + 1;
    }
  }

  /** memset(dst, 0, ...). */
  method MemZero(dst: array<byte>)
    modifies dst
    ensures forall i :: 0 <= i < dst.Length ==> dst[i] == 0
  {
    for k := 0 to dst.Length
      invariant forall i :: 0 <= i < k ==> dst[i] == 0
    {
      dst[k] := 0;
    }
  }

  // Which byte comes first.

  /** The number that octets stand for, the most significant first. */
  function BeValue(b: seq<byte>): int {
    if b == [] then 0 else BeValue(b[..|b| - 1]) * 256 + b[|b| - 1] as int
  }

  /** The least significant first. */
  function LeValue(b: seq<byte>): int {
    if b == [] then 0 else b[0] as int + 256 * LeValue(b[1..])
  }

  lemma BeOrder(v: u16, w: u32)
    ensures BeValue(BeU16(v)) == v && BeValue(BeU32(w)) == w
  {
    var (a, b) := (BeU16(v), BeU32(w));
    var (a1, b1, b2, b3) := (a[..1], b[..1], b[..2], b[..3]);
    assert a1[..0] == [] && b3[..2] == b2 && b2[..1] == b1 && b1[..0] == [];
    assert BeValue(a1) == BeValue([]) * 256 + a[0] as int;
    assert BeValue(b1) == BeValue([]) * 256 + b[0] as int;
    assert BeValue(b2) == BeValue(b1) * 256 + b[1] as int;
    assert BeValue(b3) == BeValue(b2) * 256 + b[2] as int;
    Digits(w);
  }

  lemma LeOrder16(v: u16)
    ensures LeValue(LeU16(v)) == v
  {
    var a := LeU16(v);
    assert a[1..][1..] == [];
    assert LeValue(a[1..]) == a[1];
  }

  lemma LeFour(b: seq<byte>)
    requires |b| == 4
    ensures LeValue(b) == b[0] as int + 256 * (b[1] as int + 256 * (b[2] as int + 256 * b[3] as int))
  {
    var (c, d, e) := (b[1..], b[2..], b[3..]);
    assert c[1..] == d && d[1..] == e && e[1..] == [];
    assert LeValue(e) == b[3] as int + 256 * LeValue([]);
    assert LeValue(d) == b[2] as int + 256 * LeValue(e);
    assert LeValue(c) == b[1] as int + 256 * LeValue(d);
  }

  lemma LeOrder32(w: u32)
    ensures LeValue(LeU32(w)) == w
  {
    LeFour(LeU32(w));
    Digits(w);
  }

  lemma LeValueOf32(b: seq<byte>)
    requires |b| == 4
    ensures LeValue(b) == FromLeU32(b)
  {
    LeFour(b);
  }
}
