/** The key-value store behind the settings (the Preferences library over NVS): typed
    values under keys, reads that fall back to a default when the key is missing or holds
    another type, and byte reads that refuse a value longer than the buffer. */
module Nvs {
  import opened Bytes

  type i32 = x: int | -0x8000_0000 <= x < 0x8000_0000

  /** The keys of the "plant" namespace; the last ones carry a worker's slot, and a pot. */
  datatype Key =
    | NAME | DSINT | PDELAY | MPTIME | START | END | TZ | LANG | UTC64 | EPOCH64 | WCOUNT | SSID | PASSWORD
    | WMAC(slot: nat) | WNAME(slot: nat) | WPC(slot: nat) | WTHARR(slot: nat) | WDURARR(slot: nat)
    | WINTARR(slot: nat) | WLASTARR(slot: nat) | WPNM(slot: nat, pot: nat)

  datatype Value = UInt(n: u32) | UChar(c: byte) | Int(i: i32) | Str(s: seq<byte>) | Blob(b: seq<byte>)

  type Store = map<Key, Value>

  function GetUInt(st: Store, k: Key, default_: u32): u32 {
    if k in st && st[k].UInt? then st[k].n else default_
  }

  function GetUChar(st: Store, k: Key, default_: byte): byte {
    if k in st && st[k].UChar? then st[k].c else default_
  }

  function GetInt(st: Store, k: Key, default_: i32): i32 {
    if k in st && st[k].Int? then st[k].i else default_
  }

  function GetString(st: Store, k: Key, default_: seq<byte>): seq<byte> {
    if k in st && st[k].Str? then st[k].s else default_
  }

  /** getBytesLength. */
  function BytesLength(st: Store, k: Key): nat {
    if k in st && st[k].Blob? then |st[k].b| else 0
  }

  /** getBytes into a buffer that holds `buffer`: the count it returns, and the buffer
      after it. */
  function GetBytes(st: Store, k: Key, buffer: seq<byte>): (r: (nat, seq<byte>))
    ensures |r.1| == |buffer|
  {
    var n := BytesLength(st, k);
    if n == 0 || n > |buffer| then (0, buffer) else (n, st[k].b + buffer[n..])
  }

  // Arrays as the little-endian bytes they are in memory.

  function Bytes16(vs: seq<u16>): (b: seq<byte>)
    ensures |b| == 2 * |vs|
  {
    if vs == [] then [] else LeU16(vs[0]) + Bytes16(vs[1..])
  }

  function Words16(b: seq<byte>): (vs: seq<u16>)
    requires |b| % 2 == 0
    ensures |vs| == |b| / 2
  {
    if b == [] then [] else [FromLeU16(b[..2])] + Words16(b[2..])
  }

  lemma {:induction false} Words16Inverse(vs: seq<u16>)
    ensures Words16(Bytes16(vs)) == vs
  {
    hide LeU16, FromLeU16, Bytes16, Words16;
    if vs != [] {
      LeU16Inverse(vs[0]);
      Words16Inverse(vs[1..]);
      Bytes16Front(vs);
      Words16Front(Bytes16(vs));
    }
  }

  lemma {:induction false} Bytes16Front(vs: seq<u16>)
    requires vs != []
    ensures Bytes16(vs)[..2] == LeU16(vs[0]) && Bytes16(vs)[2..] == Bytes16(vs[1..])
  {
    hide LeU16;
    assert Bytes16(vs) == LeU16(vs[0]) + Bytes16(vs[1..]);
  }

  lemma {:induction false} Words16Front(b: seq<byte>)
    requires |b| % 2 == 0 && b != []
    ensures Words16(b) == [FromLeU16(b[..2])] + Words16(b[2..])
  {
    hide FromLeU16;
  }

  function Bytes32(vs: seq<u32>): (b: seq<byte>)
    ensures |b| == 4 * |vs|
  {
    if vs == [] then [] else LeU32(vs[0]) + Bytes32(vs[1..])
  }

  function Words32(b: seq<byte>): (vs: seq<u32>)
    requires |b| % 4 == 0
    ensures |vs| == |b| / 4
  {
    if b == [] then [] else [FromLeU32(b[..4])] + Words32(b[4..])
  }

  lemma {:induction false} Words32Inverse(vs: seq<u32>)
    ensures Words32(Bytes32(vs)) == vs
  {
    hide LeU32, FromLeU32;
    if vs != [] {
      LeU32Inverse(vs[0]);
      Words32Inverse(vs[1..]);
      assert Bytes32(vs)[..4] == LeU32(vs[0]) && Bytes32(vs)[4..] == Bytes32(vs[1..]);
    }
  }

  function Bytes64(v: u64): (b: seq<byte>)
    ensures |b| == 8
  {
    LeU32(v % 0x1_0000_0000) + LeU32(v / 0x1_0000_0000)
  }

  function Word64(b: seq<byte>): u64
    requires |b| == 8
  {
    FromLeU32(b[..4]) + FromLeU32(b[4..]) as int * 0x1_0000_0000
  }

  lemma Word64Inverse(v: u64)
    ensures Word64(Bytes64(v)) == v
  {
    hide LeU32, FromLeU32;
    LeU32Inverse(v % 0x1_0000_0000);
    LeU32Inverse(v / 0x1_0000_0000);
    assert Bytes64(v)[..4] == LeU32(v % 0x1_0000_0000) && Bytes64(v)[4..] == LeU32(v / 0x1_0000_0000);
  }

  // Saving: put what is not already there.

  /** What a read of this kind of value finds, with the default the writer passes: values
      outside every valid range, and the empty string. */
  predicate Unchanged(st: Store, k: Key, v: Value) {
    match v
    case UInt(n) => GetUInt(st, k, if k == DSINT then 0 else U32_MAX) == n
    case UChar(c) => GetUChar(st, k, if k.WPC? then 0 else 0xFF) == c
    case Int(i) => GetInt(st, k, 0x7FFF_FFFF) == i
    case Str(s) => GetString(st, k, []) == s
    case Blob(b) => k in st && st[k] == v  // getBytes gives the whole size, and the same bytes
  }

  function PutIfChanged(st: Store, k: Key, v: Value): Store {
    if Unchanged(st, k, v) then st else st[k := v]
  }

  /** The puts of a plan in order. */
  function Save(st: Store, plan: seq<(Key, Value)>): Store
    decreases |plan|
  {
    if plan == [] then st
    else
      var init, last := plan[..|plan| - 1], plan[|plan| - 1];
      PutIfChanged(Save(st, init), last.0, last.1)
  }

  function SaveAll(st: Store, plan: seq<(Key, Value)>): Store
    decreases |plan|
  {
    if plan == [] then st
    else
      var init, last := plan[..|plan| - 1], plan[|plan| - 1];
      SaveAll(st, init)[last.0 := last.1]
  }

  lemma SaveOne(st: Store, plan: seq<(Key, Value)>, k: Key, v: Value)
    ensures Save(st, plan + [(k, v)]) == PutIfChanged(Save(st, plan), k, v)
  {
  }

  ghost predicate DistinctKeys(plan: seq<(Key, Value)>) {
    forall i, j :: 0 <= i < j < |plan| ==> plan[i].0 != plan[j].0
  }

  lemma {:induction false} SaveTouchesOnlyPlan(st: Store, plan: seq<(Key, Value)>, k: Key)
    requires forall i :: 0 <= i < |plan| ==> plan[i].0 != k
    ensures k in Save(st, plan) <==> k in st
    ensures k in st ==> Save(st, plan)[k] == st[k]
  {
    if plan != [] { SaveTouchesOnlyPlan(st, plan[..|plan| - 1], k); }
  }

  /** After a save every planned key reads back as planned; skipping what is unchanged
      loses nothing. */
  lemma {:induction false} SaveTakes(st: Store, plan: seq<(Key, Value)>, i: nat)
    requires DistinctKeys(plan) && i < |plan|
    ensures Unchanged(Save(st, plan), plan[i].0, plan[i].1)
  {
    var init, last := plan[..|plan| - 1], plan[|plan| - 1];
    if i < |plan| - 1 {
      SaveTakes(st, init, i);
    }
  }

  /** A string key that was stored stays stored. */
  lemma {:induction false} SaveKeepsString(st: Store, plan: seq<(Key, Value)>, k: Key)
    requires k in st && st[k].Str?
    requires forall i :: 0 <= i < |plan| && plan[i].0 == k ==> plan[i].1.Str?
    ensures k in Save(st, plan) && Save(st, plan)[k].Str?
  {
    if plan != [] { SaveKeepsString(st, plan[..|plan| - 1], k); }
  }
}
