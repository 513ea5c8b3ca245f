/** The status that a worker broadcasts (worker/src/bluetooth_worker.cpp) and the gateway
    takes in (main/src/bluetooth_main.cpp), and the sleep command it answers with. */
module StatusMessage {
  import opened Bytes
  import opened Tlv
  import opened WorkerControl
  import PM = PotMask
  import WC = WaterCommand

  const TYPE_STATUS: byte := 0x40
  const FIELD_BATT: byte := 0x01
  const FIELD_POT_COUNT: byte := 0x02
  const FIELD_SOIL_LIST: byte := 0x03
  const FIELD_FW_VERSION: byte := 0x07

  datatype Status = Status(batteryMv: u16, version: u32, soils: seq<u16>)

  function StatusFields(s: Status): seq<WireField>
    requires |s.soils| <= PM.MAX_POTS
  {
    [Field(FIELD_BATT, BeU16(s.batteryMv)), Field(FIELD_POT_COUNT, [|s.soils|]), Field(FIELD_FW_VERSION, BeU32(s.version)),
     Field(FIELD_SOIL_LIST, BeArray(s.soils))]
  }

  function StatusBody(s: Status): seq<byte>
    requires |s.soils| <= PM.MAX_POTS
  {
    [TYPE_STATUS] + Encode(StatusFields(s))
  }

  /** parseStatusBody. A missing version reads as 0, a malformed one is refused. */
  function ParsedStatus(body: seq<byte>): Option<Status> {
    if body == [] || body[0] != TYPE_STATUS then None
    else
      var tlvs := body[1..];
      var battery, count, soils := ReadU16(tlvs, FIELD_BATT), ReadU8(tlvs, FIELD_POT_COUNT), ReadBytes(tlvs, FIELD_SOIL_LIST);
      if battery.None? || count.None? || soils.None? then None
      else if Search(tlvs, FIELD_FW_VERSION).None? then None
      else if ReadBytes(tlvs, FIELD_FW_VERSION).Some? && ReadU32(tlvs, FIELD_FW_VERSION).None? then None
      else if count.value == 0 || count.value > PM.MAX_POTS || |soils.value| % 2 != 0 || |soils.value| / 2 != count.value as int then None
      else
        Some(Status(battery.value,
                    if ReadU32(tlvs, FIELD_FW_VERSION).Some? then ReadU32(tlvs, FIELD_FW_VERSION).value else 0,
                    FromBeArray(soils.value)))
  }

  /** btWorkerAdvertiseStatus: no refusal by the builder is ever met. */
  method BuildStatus(batteryMv: u16, version: u32, soils: array<u16>) returns (ok: bool, body: seq<byte>)
    requires 1 <= soils.Length <= PM.MAX_POTS
    ensures ok && body == StatusBody(Status(batteryMv, version, soils[..])) && |body| <= MAX_BODY_SIZE
  {
    hide BeArray, BeU16, BeU32, EncodeField;
    var builder := new BodyBuilder(TYPE_STATUS);
    ok := builder.AppendU16(FIELD_BATT, batteryMv);
    assert ok;
    ok := builder.AppendU8(FIELD_POT_COUNT, soils.Length);
    assert ok;
    ok := builder.AppendU32(FIELD_FW_VERSION, version);
    assert ok;
    var soilBytes := WriteSoils(soils);
    ok := builder.Append(FIELD_SOIL_LIST, soilBytes);
    body := builder.data[..builder.len];
    FourFields(TYPE_STATUS, StatusFields(Status(batteryMv, version, soils[..])));
  }

  /** Its loop over the soil values. */
  method WriteSoils(soils: array<u16>) returns (b: seq<byte>)
    requires soils.Length <= PM.MAX_POTS
    ensures b == BeArray(soils[..])
  {
    hide BeArray;
    var soilBytes := new byte[2 * soils.Length];
    var i := 0;
    while i < soils.Length
      invariant 0 <= i <= soils.Length
      invariant forall k :: 0 <= k < i ==> soilBytes[2 * k] == soils[k] / 0x100 && soilBytes[2 * k + 1] == soils[k] % 0x100
    {
      soilBytes[i * 2] := soils[i] / 0x100;
      soilBytes[i * 2 + 1] := soils[i] % 0x100;
      i := i + 1;
    }
    b := soilBytes[..];
    WC.SameBytes(b, soils[..]);
  }

  lemma FourFields(typ: byte, fs: seq<WireField>)
    requires |fs| == 4
    ensures [typ] + Encode(fs) == (([typ] + EncodeField(fs[0])) + EncodeField(fs[1])) + EncodeField(fs[2]) + EncodeField(fs[3])
  {
    hide EncodeField;
    assert fs[1..][1..] == fs[2..] && fs[2..][1..] == fs[3..] && fs[3..][1..] == [];
    var a, b, c, d := EncodeField(fs[0]), EncodeField(fs[1]), EncodeField(fs[2]), EncodeField(fs[3]);
    assert Encode(fs[3..]) == d + [] == d;
    assert Encode(fs[2..]) == c + d && Encode(fs[1..]) == b + (c + d) && Encode(fs) == a + (b + (c + d));
    assert [typ] + (a + (b + (c + d))) == ((([typ] + a) + b) + c) + d;
  }

  /** parseStatusBody. */
  method ParseStatusBody(body: seq<byte>, soils: array<u16>) returns (ok: bool, potCount: byte, batteryMv: u16, version: u32)
    requires soils.Length == PM.MAX_POTS
    modifies soils
    ensures ok <==> ParsedStatus(body).Some?
    ensures ok ==> potCount <= PM.MAX_POTS && ParsedStatus(body).value == Status(batteryMv, version, soils[..potCount])
    ensures !ok ==> soils[..] == old(soils[..])
  {
    hide Search, ReadBytes, ReadU8, ReadU16, ReadU32, FromBeArray;
    ok, potCount, batteryMv, version := false, 0, 0, 0;
    if |body| < 1 || body[0] != TYPE_STATUS { return; }
    var tlvs := body[1..];
    var battery := ReadRequiredU16(tlvs, FIELD_BATT);
    if battery.None? { return; }
    batteryMv := battery.value;
    var count := ReadRequiredU8(tlvs, FIELD_POT_COUNT);
    if count.None? { return; }
    potCount := count.value;
    var soilBytes := ReadRequiredBytes(tlvs, FIELD_SOIL_LIST);
    if soilBytes.None? { return; }
    var readable, firmware, hasVersion := ReadOptionalU32(tlvs, FIELD_FW_VERSION);
    if !readable { return; }
    version := firmware;
    if potCount == 0 || potCount > PM.MAX_POTS || |soilBytes.value| != potCount as int * 2 % 0x100 { return; }
    ReadSoils(soilBytes.value, soils);
    ok := true;
  }

  /** Its loop over the soil values. */
  method ReadSoils(soilBytes: seq<byte>, soils: array<u16>)
    requires |soilBytes| % 2 == 0 && |soilBytes| / 2 <= soils.Length
    modifies soils
    ensures soils[..|soilBytes| / 2] == FromBeArray(soilBytes)
  {
    hide FromBeArray;
    var i := 0;
    while i < |soilBytes| / 2
      invariant 0 <= i <= |soilBytes| / 2
      invariant forall k :: 0 <= k < i ==> soils[k] == soilBytes[2 * k] as int * 0x100 + soilBytes[2 * k + 1]
    {
      soils[i] := soilBytes[i * 2] as int * 0x100 + soilBytes[i * 2 + 1];
      i := i + 1;
    }
  }

  /** The gateway reads exactly what the worker measured. */
  lemma StatusRoundTrip(s: Status)
    requires 1 <= |s.soils| <= PM.MAX_POTS
    ensures ParsedStatus(StatusBody(s)) == Some(s)
  {
    hide BeU16, FromBeU16, BeU32, FromBeU32, BeArray, FromBeArray, Encode, Search;
    var fs := StatusFields(s);
    var tlvs := Encode(fs);
    assert StatusBody(s)[1..] == tlvs && StatusBody(s)[0] == TYPE_STATUS;
    assert [] + [fs[0]] + fs[1..] == fs && fs[..1] + [fs[1]] + fs[2..] == fs && fs[..2] + [fs[2]] + fs[3..] == fs && fs[..3] + [fs[3]] + [] == fs;
    ReadersInvertWriters([], FIELD_BATT, BeU16(s.batteryMv), fs[1..]);
    ReadersInvertWriters(fs[..1], FIELD_POT_COUNT, [|s.soils|], fs[2..]);
    ReadersInvertWriters(fs[..2], FIELD_FW_VERSION, BeU32(s.version), fs[3..]);
    ReadersInvertWriters(fs[..3], FIELD_SOIL_LIST, BeArray(s.soils), []);
    BeU16Inverse(s.batteryMv);
    BeU32Inverse(s.version);
    BeArrayInverse(s.soils);
  }

  // The sleep command.

  /** The seconds that sendWorkerToSleepAt asks for. */
  function SleepSeconds(remainingUs: int): int {
    var seconds := if remainingUs > 0 then (remainingUs + 999_999) / 1_000_000 % 0x1_0000_0000 else 60;
    if seconds < 60 then 60 else seconds
  }

  method BuildSleep(remainingUs: int) returns (ok: bool, body: seq<byte>)
    ensures ok && body == SleepBody(SleepSeconds(remainingUs))
  {
    hide BeU32, EncodeField;
    var seconds: u32 := if remainingUs > 0 then (remainingUs + 999_999) / 1_000_000 % 0x1_0000_0000 else 60;
    if seconds < 60 { seconds := 60; }
    var sleep := new BodyBuilder(TYPE_CMD_SLEEP);
    ok := sleep.AppendU32(FIELD_SLEEP_SEC, seconds);
    body := sleep.data[..sleep.len];
    OneField(Field(FIELD_SLEEP_SEC, BeU32(seconds)));
  }

  lemma OneField(f: WireField)
    ensures Encode([f]) == EncodeField(f)
  {
    hide EncodeField;
    assert [f][1..] == [];
  }

  /** Every sleep command is one the worker accepts while the wake-up is at most the longest
      synchronisation interval away, and the worker then wakes less than a second late or
      after a minute. */
  lemma SleepIsAccepted(remainingUs: int, potCount: nat)
    requires remainingUs <= MAX_SLEEP_SECONDS * 1_000_000 && potCount <= 16
    ensures 60 <= SleepSeconds(remainingUs) <= MAX_SLEEP_SECONDS
    ensures IsCommand(SleepBody(SleepSeconds(remainingUs)), potCount)
    ensures remainingUs > 59_000_000 ==> 0 <= SleepSeconds(remainingUs) * 1_000_000 - remainingUs < 1_000_000
  {
    hide IsCommand, SleepBody;
    SleepAccepted(SleepSeconds(remainingUs), potCount);
  }

  /** The seconds are the remaining time rounded up, or a minute when that is less. */
  lemma SleepRoundsUp(remainingUs: int)
    requires remainingUs <= MAX_SLEEP_SECONDS * 1_000_000
    ensures var s := SleepSeconds(remainingUs);
            && s * 1_000_000 >= remainingUs && s >= 60 && (s == 60 || (s - 1) * 1_000_000 < remainingUs)
  {
  }

  /** On the wire: three pots at 4.1 V, version 258. */
  lemma StatusExample()
    ensures StatusBody(Status(4100, 258, [300, 301, 302]))
            == [0x40, 0x01, 2, 0x10, 0x04, 0x02, 1, 3, 0x07, 4, 0, 0, 1, 2, 0x03, 6, 0x01, 0x2C, 0x01, 0x2D, 0x01, 0x2E]
  {
    hide Encode, EncodeField, BeArray;
    var s := Status(4100, 258, [300, 301, 302]);
    FourFields(TYPE_STATUS, StatusFields(s));
    ExampleFields();
    ExampleSoils();
  }

  lemma ExampleFields()
    ensures EncodeField(Field(FIELD_BATT, BeU16(4100))) == [0x01, 2, 0x10, 0x04]
    ensures EncodeField(Field(FIELD_POT_COUNT, [3])) == [0x02, 1, 3]
    ensures EncodeField(Field(FIELD_FW_VERSION, BeU32(258))) == [0x07, 4, 0, 0, 1, 2]
  {
  }

  lemma ExampleSoils()
    ensures EncodeField(Field(FIELD_SOIL_LIST, BeArray([300, 301, 302]))) == [0x03, 6, 0x01, 0x2C, 0x01, 0x2D, 0x01, 0x2E]
  {
    var v: seq<u16> := [300, 301, 302];
    assert v[1..] == [301, 302] && [301, 302][1..] == [302] && [302][1..] == [];
    assert BeArray([302]) == [0x01, 0x2E] && BeArray([301, 302]) == [0x01, 0x2D, 0x01, 0x2E];
  }

  lemma SleepExample()
    ensures SleepBody(60) == [0x31, 0x04, 4, 0, 0, 0, 60]
  {
    OneField(Field(FIELD_SLEEP_SEC, BeU32(60)));
  }
}
