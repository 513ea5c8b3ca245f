/** The tag-length-value bodies of main/src/bluetooth_common.cpp: the builder over a
    fixed 64-byte buffer, the iterator, and the field readers. */
module Tlv {
  import opened Bytes

  const MAX_BODY_SIZE := 64

  datatype Field = Field(typ: byte, value: seq<byte>)

  /** A field whose length fits the length byte. */
  type WireField = f: Field | |f.value| < 0x100 witness Field(0, [])

  // The wire format, declaratively.

  function EncodeField(f: WireField): (r: seq<byte>)
    ensures |r| == 2 + |f.value|
  {
    [f.typ, |f.value|] + f.value
  }

  function Encode(fs: seq<WireField>): seq<byte> {
    if fs == [] then [] else EncodeField(fs[0]) + Encode(fs[1..])
  }

  /** The first field of `b`, if a whole one is there. */
  function FrontField(b: seq<byte>): (r: Option<WireField>)
    ensures r.Some? ==> 2 + |r.value.value| <= |b|
  {
    if |b| < 2 || 2 + b[1] as int > |b| then None else Some(Field(b[0], b[2..2 + b[1] as int]))
  }

  /** The fields of `b` when it is a concatenation of whole fields. */
  function Parse(b: seq<byte>): Option<seq<WireField>>
    decreases |b|
  {
    if b == [] then Some([])
    else
      match FrontField(b)
      case None => None
      case Some(f) =>
        match Parse(b[2 + |f.value|..])
        case None => None
        case Some(fs) => Some([f] + fs)
  }

  /** The leftmost field of the given type. */
  function Leftmost(fs: seq<WireField>, typ: byte): (r: Option<WireField>)
    ensures r.None? ==> forall f <- fs :: f.typ != typ
    ensures r.Some? ==> exists i :: 0 <= i < |fs| && fs[i] == r.value && r.value.typ == typ
                                    && forall j :: 0 <= j < i ==> fs[j].typ != typ
  {
    if fs == [] then None
    else if fs[0].typ == typ then Some(fs[0])
    else
      var r := Leftmost(fs[1..], typ);
      assert r.Some? ==> exists i :: 1 <= i < |fs| && fs[i] == r.value && forall j :: 0 <= j < i ==> fs[j].typ != typ by {
        if r.Some? {
          var i :| 0 <= i < |fs[1..]| && fs[1..][i] == r.value && forall j :: 0 <= j < i ==> fs[1..][j].typ != typ;
          assert forall j :: 0 <= j < i + 1 ==> j == 0 || fs[j] == fs[1..][j - 1];
        }
      }
      r
  }

  // The two directions of the codec.

  lemma FrontOfEncoding(f: WireField, rest: seq<byte>)
    ensures FrontField(EncodeField(f) + rest) == Some(f)
    ensures (EncodeField(f) + rest)[2 + |f.value|..] == rest
  {
  }

  /** Iterating over an encoded field list gives the list back. */
  lemma {:induction false} ParseInvertsEncode(fs: seq<WireField>)
    ensures Parse(Encode(fs)) == Some(fs)
  {
    if fs != [] {
      FrontOfEncoding(fs[0], Encode(fs[1..]));
      ParseInvertsEncode(fs[1..]);
      assert [fs[0]] + fs[1..] == fs;
    }
  }

  lemma FrontFieldBytes(b: seq<byte>)
    requires FrontField(b).Some?
    ensures var f := FrontField(b).value; b == EncodeField(f) + b[2 + |f.value|..]
  {
  }

  /** Re-encoding what was parsed gives the same bytes. */
  lemma {:induction false} EncodeInvertsParse(b: seq<byte>)
    requires Parse(b).Some?
    ensures Encode(Parse(b).value) == b
    decreases |b|
  {
    if b != [] {
      var f := FrontField(b).value;
      var rest := b[2 + |f.value|..];
      EncodeInvertsParse(rest);
      FrontFieldBytes(b);
      assert ([f] + Parse(rest).value)[1..] == Parse(rest).value;
    }
  }

  /** A byte string parses exactly when it is a concatenation of whole fields. */
  lemma ParsesIffConcatenation(b: seq<byte>)
    ensures Parse(b).Some? <==> exists fs: seq<WireField> :: Encode(fs) == b
  {
    if Parse(b).Some? {
      EncodeInvertsParse(b);
    }
    if fs: seq<WireField> :| Encode(fs) == b {
      ParseInvertsEncode(fs);
    }
  }

  // The builder.

  class BodyBuilder {
    const data: array<byte>
    var len: nat

    ghost predicate Valid()
      reads this
    {
      data.Length == MAX_BODY_SIZE && len <= MAX_BODY_SIZE
    }

    /** The bytes written so far. */
    ghost function Body(): seq<byte>
      requires Valid()
      reads this, data
    {
      data[..len]
    }

    /** btBodyBegin. */
    constructor (msgType: byte)
      ensures Valid() && fresh(data) && Body() == [msgType]
    {
      data := new byte[MAX_BODY_SIZE];
      len := 1;
      new;
      data[0] := msgType;
    }

    method Append(typ: byte, value: seq<byte>) returns (ok: bool)
      requires Valid() && |value| < 0x100
      modifies this`len, data
      ensures Valid()
      ensures ok <==> old(len) + 2 + |value| <= MAX_BODY_SIZE
      ensures Body() == if ok then old(Body()) + EncodeField(Field(typ, value)) else old(Body())
    {
      if len + 2 + |value| > MAX_BODY_SIZE { return false; }
      ghost var before := data[..];
      data[len] := typ;
      data[len + 1] := |value|;
      len := len + 2;
      assert data[..len] == before[..len - 2] + [typ, |value|];
      if |value| != 0 {
        MemCpy(data, len, value);
        len := len + |value|;
      }
      assert data[..len] == before[..old(len)] + [typ, |value|] + value;
      return true;
    }

    method AppendU8(typ: byte, value: byte) returns (ok: bool)
      requires Valid()
      modifies this`len, data
      ensures Valid()
      ensures ok <==> old(len) + 3 <= MAX_BODY_SIZE
      ensures Body() == if ok then old(Body()) + EncodeField(Field(typ, [value])) else old(Body())
    {
      ok := Append(typ, [value]);
    }

    method AppendU16(typ: byte, value: u16) returns (ok: bool)
      requires Valid()
      modifies this`len, data
      ensures Valid()
      ensures ok <==> old(len) + 4 <= MAX_BODY_SIZE
      ensures Body() == if ok then old(Body()) + EncodeField(Field(typ, BeU16(value))) else old(Body())
    {
      ok := Append(typ, BeU16(value));
    }

    method AppendU32(typ: byte, value: u32) returns (ok: bool)
      requires Valid()
      modifies this`len, data
      ensures Valid()
      ensures ok <==> old(len) + 6 <= MAX_BODY_SIZE
      ensures Body() == if ok then old(Body()) + EncodeField(Field(typ, BeU32(value))) else old(Body())
    {
      ok := Append(typ, BeU32(value));
    }
  }

  /** BodyBuilder.Append over a whole field list, stopping at the first refusal. */
  function AppendAll(body: seq<byte>, fs: seq<WireField>): Option<seq<byte>>
    decreases |fs|
  {
    if fs == [] then Some(body)
    else if |body| + 2 + |fs[0].value| > MAX_BODY_SIZE then None
    else AppendAll(body + EncodeField(fs[0]), fs[1..])
  }

  /** A field list is appended in full exactly when the result fits the buffer, and the
      new bytes are then its encoding. */
  lemma {:induction false} AppendAllIsEncode(body: seq<byte>, fs: seq<WireField>)
    requires |body| <= MAX_BODY_SIZE
    ensures AppendAll(body, fs)
            == if |body| + |Encode(fs)| <= MAX_BODY_SIZE then Some(body + Encode(fs)) else None
    decreases |fs|
  {
    if fs == [] {
      assert body + [] == body;
    } else if |body| + 2 + |fs[0].value| <= MAX_BODY_SIZE {
      AppendAllIsEncode(body + EncodeField(fs[0]), fs[1..]);
      assert body + EncodeField(fs[0]) + Encode(fs[1..]) == body + (EncodeField(fs[0]) + Encode(fs[1..]));
    }
  }

  // The iterator and the search.

  /** btTlvNext: the field at `offset` and the offset after it. */
  function Next(tlvs: seq<byte>, offset: nat): (r: Option<(WireField, nat)>)
    ensures r.Some? ==> offset < r.value.1 <= |tlvs|
  {
    if offset + 2 > |tlvs| then None
    else
      var len := tlvs[offset + 1] as int;
      if offset + 2 + len > |tlvs| then None
      else Some((Field(tlvs[offset], tlvs[offset + 2..offset + 2 + len]), offset + 2 + len))
  }

  lemma NextIsFrontField(tlvs: seq<byte>, offset: nat)
    requires offset < |tlvs|
    ensures var f := FrontField(tlvs[offset..]);
            Next(tlvs, offset) == if f.None? then None else Some((f.value, offset + 2 + |f.value.value|))
  {
    var rest := tlvs[offset..];
    if FrontField(rest).Some? {
      assert rest[2..2 + rest[1] as int] == tlvs[offset + 2..offset + 2 + rest[1] as int];
    }
  }

  /** What a search for `typ` answers: nothing unless the bytes are whole fields, and
      otherwise the leftmost match, if any. */
  function Search(tlvs: seq<byte>, typ: byte): Option<Option<WireField>> {
    match Parse(tlvs)
    case None => None
    case Some(fs) => Some(Leftmost(fs, typ))
  }

  lemma SearchStep(tlvs: seq<byte>, offset: nat, typ: byte)
    requires offset < |tlvs|
    ensures var n := Next(tlvs, offset);
            Search(tlvs[offset..], typ)
            == if n.None? then None
               else if Search(tlvs[n.value.1..], typ).None? then None
               else if n.value.0.typ == typ then Some(Some(n.value.0))
               else Search(tlvs[n.value.1..], typ)
  {
    hide FrontField;
    NextIsFrontField(tlvs, offset);
    var rest := tlvs[offset..];
    SearchFront(rest, typ);
    var f := FrontField(rest);
    if f.Some? {
      assert rest[2 + |f.value.value|..] == tlvs[offset + 2 + |f.value.value|..];
    }
  }

  lemma SearchFront(rest: seq<byte>, typ: byte)
    requires rest != []
    ensures var f := FrontField(rest);
            Search(rest, typ)
            == if f.None? then None
               else
                 var later := Search(rest[2 + |f.value.value|..], typ);
                 if later.None? then None else if f.value.typ == typ then Some(Some(f.value)) else later
  {
    hide FrontField;
    var f := FrontField(rest);
    if f.Some? {
      match Parse(rest[2 + |f.value.value|..]) {
        case None =>
        case Some(fs) => assert ([f.value] + fs)[1..] == fs;
      }
    }
  }

  method FindFirstField(tlvs: seq<byte>, typ: byte) returns (ok: bool, found: bool, m: WireField)
    ensures ok <==> Search(tlvs, typ).Some?
    ensures ok ==> Search(tlvs, typ).value == if found then Some(m) else None
  {
    found := false;
    m := Field(0, []);
    var offset := 0;
    assert tlvs[0..] == tlvs;
    while offset < |tlvs|
      invariant offset <= |tlvs|
      invariant Search(tlvs, typ).Some? <==> Search(tlvs[offset..], typ).Some?
      invariant Search(tlvs, typ).Some? ==>
                  Search(tlvs, typ).value == if found then Some(m) else Search(tlvs[offset..], typ).value
    {
      SearchStep(tlvs, offset, typ);
      var next := Next(tlvs, offset);
      if next.None? { return false, found, m; }
      var (field, after) := next.value;
      if !found && field.typ == typ {
        m, found := field, true;
      }
      offset := after;
    }
    assert tlvs[offset..] == [];
    ok := true;
  }

  // The readers. Each is a search followed by a length check.

  function ReadBytes(tlvs: seq<byte>, typ: byte): Option<seq<byte>> {
    var s := Search(tlvs, typ);
    if s.Some? && s.value.Some? then Some(s.value.value.value) else None
  }

  function ReadU8(tlvs: seq<byte>, typ: byte): Option<byte> {
    var b := ReadBytes(tlvs, typ);
    if b.Some? && |b.value| == 1 then Some(b.value[0]) else None
  }

  function ReadU16(tlvs: seq<byte>, typ: byte): Option<u16> {
    var b := ReadBytes(tlvs, typ);
    if b.Some? && |b.value| == 2 then Some(FromBeU16(b.value)) else None
  }

  function ReadU32(tlvs: seq<byte>, typ: byte): Option<u32> {
    var b := ReadBytes(tlvs, typ);
    if b.Some? && |b.value| == 4 then Some(FromBeU32(b.value)) else None
  }

  /** The sixteen-bit values of an even-length byte string. */
  function FromBeArray(b: seq<byte>): (vs: seq<u16>)
    requires |b| % 2 == 0
    ensures |vs| == |b| / 2
    ensures forall i :: 0 <= i < |vs| ==> vs[i] == b[2 * i] as int * 0x100 + b[2 * i + 1]
  {
    if b == [] then [] else [b[0] as int * 0x100 + b[1]] + FromBeArray(b[2..])
  }

  function BeArray(vs: seq<u16>): (b: seq<byte>)
    ensures |b| == 2 * |vs|
    ensures forall i :: 0 <= i < |vs| ==> b[2 * i] == vs[i] / 0x100 && b[2 * i + 1] == vs[i] % 0x100
  {
    if vs == [] then [] else BeU16(vs[0]) + BeArray(vs[1..])
  }

  lemma {:induction false} BeArrayInverse(vs: seq<u16>)
    ensures FromBeArray(BeArray(vs)) == vs
  {
    hide FromBeArray, BeArray;
    forall i | 0 <= i < |vs| ensures FromBeArray(BeArray(vs))[i] == vs[i] {
      SplitU16(vs[i]);
    }
  }

  lemma SplitU16(v: u16)
    ensures v / 0x100 * 0x100 + v % 0x100 == v
  {
  }

  /** btTlvReadRequiredU16Array: at most `maxCount` values, from an even number of bytes. */
  function ReadU16Array(tlvs: seq<byte>, typ: byte, maxCount: nat): Option<seq<u16>> {
    var b := ReadBytes(tlvs, typ);
    if b.Some? && |b.value| % 2 == 0 && |b.value| / 2 <= maxCount then Some(FromBeArray(b.value)) else None
  }

  method ReadRequiredBytes(tlvs: seq<byte>, typ: byte) returns (r: Option<seq<byte>>)
    ensures r == ReadBytes(tlvs, typ)
  {
    var ok, found, field := FindFirstField(tlvs, typ);
    r := if ok && found then Some(field.value) else None;
  }

  method ReadRequiredU8(tlvs: seq<byte>, typ: byte) returns (r: Option<byte>)
    ensures r == ReadU8(tlvs, typ)
  {
    var ok, found, field := FindFirstField(tlvs, typ);
    if !ok || !found || |field.value| != 1 { return None; }
    r := Some(field.value[0]);
  }

  method ReadRequiredU16(tlvs: seq<byte>, typ: byte) returns (r: Option<u16>)
    ensures r == ReadU16(tlvs, typ)
  {
    var ok, found, field := FindFirstField(tlvs, typ);
    if !ok || !found || |field.value| != 2 { return None; }
    r := Some(FromBeU16(field.value));
  }

  method ReadRequiredU32(tlvs: seq<byte>, typ: byte) returns (r: Option<u32>)
    ensures r == ReadU32(tlvs, typ)
  {
    var ok, found, field := FindFirstField(tlvs, typ);
    if !ok || !found || |field.value| != 4 { return None; }
    r := Some(FromBeU32(field.value));
  }

  /** An absent field is accepted and reads as 0; a present one must be four bytes. */
  method ReadOptionalU32(tlvs: seq<byte>, typ: byte) returns (ok: bool, out: u32, found: bool)
    ensures ok <==> Search(tlvs, typ).Some? && (ReadBytes(tlvs, typ).Some? ==> ReadU32(tlvs, typ).Some?)
    ensures ok ==> (found <==> ReadU32(tlvs, typ).Some?) && out == if found then ReadU32(tlvs, typ).value else 0
  {
    var field;
    ok, found, field := FindFirstField(tlvs, typ);
    out := 0;
    if !ok || !found { return; }
    if |field.value| != 4 { return false, 0, found; }
    out := FromBeU32(field.value);
  }

  method ReadRequiredU16Array(tlvs: seq<byte>, typ: byte, out: array<u16>, maxCount: nat)
    returns (ok: bool, outCount: nat)
    requires maxCount <= out.Length
    modifies out
    ensures ok <==> ReadU16Array(tlvs, typ, maxCount).Some?
    ensures ok ==> outCount <= maxCount && out[..outCount] == ReadU16Array(tlvs, typ, maxCount).value
    ensures !ok ==> out[..] == old(out[..])
  {
    hide Search, FromBeArray;
    outCount := 0;
    var found, field;
    ok, found, field := FindFirstField(tlvs, typ);
    if !ok || !found || |field.value| % 2 != 0 { return false, 0; }
    outCount := |field.value| / 2;
    if outCount > maxCount { return false, outCount; }
    var i := 0;
    while i < outCount
      invariant 0 <= i <= outCount
      invariant forall k :: 0 <= k < i ==> out[k] == field.value[2 * k] as int * 0x100 + field.value[2 * k + 1]
    {
      out[i] := field.value[i * 2] as int * 0x100 + field.value[i * 2 + 1];
      i := i + 1;
    }
    assert out[..outCount] == FromBeArray(field.value);
  }

  /** The readers invert the writers: a field list holding `typ` first with the given
      payload reads back as that payload. */
  lemma ReadersInvertWriters(before: seq<WireField>, typ: byte, payload: seq<byte>, after: seq<WireField>)
    requires |payload| < 0x100
    requires forall f <- before :: f.typ != typ
    ensures ReadBytes(Encode(before + [Field(typ, payload)] + after), typ) == Some(payload)
  {
    var fs := before + [Field(typ, payload)] + after;
    ParseInvertsEncode(fs);
    LeftmostAt(fs, typ, |before|);
  }

  lemma {:induction false} LeftmostAt(fs: seq<WireField>, typ: byte, i: nat)
    requires i < |fs| && fs[i].typ == typ && forall j :: 0 <= j < i ==> fs[j].typ != typ
    ensures Leftmost(fs, typ) == Some(fs[i])
  {
  }
}
