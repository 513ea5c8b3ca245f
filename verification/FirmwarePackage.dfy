/** The 64-byte package header shared by both update paths:
    main/src/firmware_package.cpp, main/include/FirmwareVersionPolicy.h and the packager
    package_ota.py that writes it. */
module FirmwarePackage {
  import opened Bytes

  const HEADER_SIZE := 64
  const FORMAT_VERSION: u16 := 1
  const ROLE_MAIN: byte := 1
  const ROLE_WORKER: byte := 2
  const CHIP_ESP32_C3: byte := 1
  const SHA_SIZE := 32

  /** "PWOTA001". */
  const MAGIC: seq<byte> := [0x50, 0x57, 0x4F, 0x54, 0x41, 0x30, 0x30, 0x31]

  datatype Header = Header(
    formatVersion: u16, headerSize: u16, role: byte, chip: byte, hardwareTarget: u16,
    firmwareVersion: u32, imageSize: u32, imageSha256: seq<byte>)

  /** memset to zero. */
  const NO_HEADER := Header(0, 0, 0, 0, 0, 0, 0, [])

  datatype ParseError =
    | NONE | BAD_LENGTH | BAD_MAGIC | BAD_FORMAT | BAD_HEADER_SIZE | BAD_ROLE | BAD_CHIP
    | BAD_HARDWARE | BAD_VERSION | BAD_IMAGE_SIZE | BAD_RESERVED

  /** What the receiver insists on. */
  datatype Expected = Expected(role: byte, hardware: Option<u16>, maximumImageSize: u32)

  /** The fields of a 64-byte header, whatever they hold. */
  function Fields(data: seq<byte>): (h: Header)
    requires |data| == HEADER_SIZE
    ensures |h.imageSha256| == SHA_SIZE
  {
    Header(FromLeU16(data[8..10]), FromLeU16(data[10..12]), data[12], data[13], FromLeU16(data[14..16]),
           FromLeU32(data[16..20]), FromLeU32(data[20..24]), data[24..56])
  }

  predicate ReservedIsZero(data: seq<byte>)
    requires |data| == HEADER_SIZE
  {
    forall i :: 56 <= i < HEADER_SIZE ==> data[i] == 0
  }

  /** The first complaint about the decoded fields, in the order they are checked. */
  function FieldVerdict(h: Header, e: Expected): ParseError {
    if h.formatVersion != FORMAT_VERSION then BAD_FORMAT
    else if h.headerSize != HEADER_SIZE then BAD_HEADER_SIZE
    else if h.role != e.role then BAD_ROLE
    else if h.chip != CHIP_ESP32_C3 then BAD_CHIP
    else if e.hardware.Some? && h.hardwareTarget != e.hardware.value then BAD_HARDWARE
    else if h.firmwareVersion == 0 then BAD_VERSION
    else if h.imageSize == 0 || h.imageSize > e.maximumImageSize then BAD_IMAGE_SIZE
    else NONE
  }

  function Verdict(data: seq<byte>, e: Expected): ParseError {
    if |data| != HEADER_SIZE then BAD_LENGTH
    else if data[..8] != MAGIC then BAD_MAGIC
    else if FieldVerdict(Fields(data), e) != NONE then FieldVerdict(Fields(data), e)
    else if !ReservedIsZero(data) then BAD_RESERVED
    else NONE
  }

  /** parseHeader. `out` is filled as soon as the magic matches, even when a later check
      refuses the header, and keeps `was` before that. */
  method ParseHeader(data: seq<byte>, e: Expected, was: Header) returns (error: ParseError, out: Header)
    ensures error == Verdict(data, e)
    ensures out == if error == BAD_LENGTH || error == BAD_MAGIC then was else Fields(data)
  {
    out := was;
    if |data| != HEADER_SIZE { return BAD_LENGTH, out; }
    if data[..8] != MAGIC { return BAD_MAGIC, out; }
    out := Fields(data);
    error := FieldVerdict(out, e);
    if error != NONE { return; }
    var i := 56;
    while i < HEADER_SIZE
      invariant 56 <= i <= HEADER_SIZE
      invariant forall k :: 56 <= k < i ==> data[k] == 0
    {
      if data[i] != 0 { return BAD_RESERVED, out; }
      i := i + 1;
    }
  }

  // The packager's side.

  /** The bytes package_ota.py writes for a header. */
  function Build(h: Header): (data: seq<byte>)
    requires |h.imageSha256| == SHA_SIZE
    ensures |data| == HEADER_SIZE
  {
    MAGIC + LeU16(h.formatVersion) + LeU16(h.headerSize) + [h.role, h.chip] + LeU16(h.hardwareTarget)
    + LeU32(h.firmwareVersion) + LeU32(h.imageSize) + h.imageSha256 + seq(8, _ => 0)
  }

  lemma FieldsOfBuild(h: Header)
    requires |h.imageSha256| == SHA_SIZE
    ensures Fields(Build(h)) == h
    ensures Build(h)[..8] == MAGIC && ReservedIsZero(Build(h))
  {
    hide LeU16, LeU32, FromLeU16, FromLeU32;
    var d := Build(h);
    LeU16Inverse(h.formatVersion);
    LeU16Inverse(h.headerSize);
    LeU16Inverse(h.hardwareTarget);
    LeU32Inverse(h.firmwareVersion);
    LeU32Inverse(h.imageSize);
    assert d[8..10] == LeU16(h.formatVersion) && d[10..12] == LeU16(h.headerSize);
    assert d[14..16] == LeU16(h.hardwareTarget) && d[16..20] == LeU32(h.firmwareVersion);
    assert d[20..24] == LeU32(h.imageSize) && d[24..56] == h.imageSha256;
  }

  lemma LeBytesUnique(b: seq<byte>, c: seq<byte>)
    requires |b| == 2 && |c| == 4
    ensures LeU16(FromLeU16(b)) == b && LeU32(FromLeU32(c)) == c
  {
    FromDigits(c[3], c[2], c[1], c[0]);
    assert FromLeU32(c) == c[3] as int * 0x100_0000 + c[2] as int * 0x1_0000 + c[1] as int * 0x100 + c[0];
    assert LeU32(FromLeU32(c)) == c;
  }

  lemma BuildOfFields(data: seq<byte>)
    requires |data| == HEADER_SIZE && data[..8] == MAGIC && ReservedIsZero(data)
    ensures Build(Fields(data)) == data
  {
    hide LeU16, LeU32, FromLeU16, FromLeU32;
    LeBytesUnique(data[8..10], data[16..20]);
    LeBytesUnique(data[10..12], data[20..24]);
    LeBytesUnique(data[14..16], data[20..24]);
    assert data[56..] == seq(8, _ => 0);
    var cut := data[..8] + data[8..10] + data[10..12] + data[12..14] + data[14..16]
               + data[16..20] + data[20..24] + data[24..56] + data[56..];
    assert cut == data;
    assert data[12..14] == [data[12], data[13]];
  }

  /** A receiver accepts exactly what the packager writes for some header that passes the
      field checks, so an accepted header has no unexplained byte. */
  lemma AcceptsExactlyPackaged(data: seq<byte>, e: Expected)
    ensures Verdict(data, e) == NONE <==>
            exists h: Header :: |h.imageSha256| == SHA_SIZE && FieldVerdict(h, e) == NONE && data == Build(h)
  {
    hide Build, Fields, FieldVerdict, ReservedIsZero;
    if Verdict(data, e) == NONE {
      BuildOfFields(data);
    }
    if h: Header :| |h.imageSha256| == SHA_SIZE && FieldVerdict(h, e) == NONE && data == Build(h) {
      FieldsOfBuild(h);
    }
  }

  // Version policy.

  datatype VersionDecision = ALLOW | ALREADY_INSTALLED | BELOW_MINIMUM

  function DecideVersion(current: u32, candidate: u32, minimum: u32): VersionDecision {
    if candidate == current then ALREADY_INSTALLED
    else if candidate < minimum then BELOW_MINIMUM
    else ALLOW
  }

  /** A candidate is installed exactly when it is not what runs already and is not below
      the floor, so going back is possible down to the floor. */
  lemma VersionPolicy(current: u32, candidate: u32, minimum: u32)
    ensures DecideVersion(current, candidate, minimum) == ALLOW <==> candidate != current && candidate >= minimum
    ensures DecideVersion(current, candidate, minimum) == ALREADY_INSTALLED <==> candidate == current
    ensures DecideVersion(4, 1, 2) == BELOW_MINIMUM && DecideVersion(4, 2, 2) == ALLOW && DecideVersion(4, 3, 2) == ALLOW
    ensures DecideVersion(4, 4, 2) == ALREADY_INSTALLED && DecideVersion(4, 5, 2) == ALLOW
  {
  }

  // What acceptance means, byte by byte.

  /** Where the packager puts each field. */
  lemma Layout(h: Header)
    requires |h.imageSha256| == SHA_SIZE
    ensures var d := Build(h);
            && d[..8] == [0x50, 0x57, 0x4F, 0x54, 0x41, 0x30, 0x30, 0x31]
            && LeValue(d[8..10]) == h.formatVersion && LeValue(d[10..12]) == h.headerSize
            && d[12] == h.role && d[13] == h.chip && LeValue(d[14..16]) == h.hardwareTarget
            && LeValue(d[16..20]) == h.firmwareVersion && LeValue(d[20..24]) == h.imageSize
            && d[24..56] == h.imageSha256 && d[56..] == [0, 0, 0, 0, 0, 0, 0, 0]
  {
    hide LeU16, LeU32;
    var d := Build(h);
    LeOrder16(h.formatVersion);
    LeOrder16(h.headerSize);
    LeOrder16(h.hardwareTarget);
    LeOrder32(h.firmwareVersion);
    LeOrder32(h.imageSize);
    assert d[8..10] == LeU16(h.formatVersion) && d[10..12] == LeU16(h.headerSize) && d[14..16] == LeU16(h.hardwareTarget);
    assert d[16..20] == LeU32(h.firmwareVersion) && d[20..24] == LeU32(h.imageSize);
  }

  /** A header is accepted exactly when every field is as expected. */
  lemma AcceptedFields(data: seq<byte>, e: Expected)
    ensures Verdict(data, e) == NONE <==>
            && |data| == 64 && data[..8] == [0x50, 0x57, 0x4F, 0x54, 0x41, 0x30, 0x30, 0x31]
            && (forall i :: 56 <= i < 64 ==> data[i] == 0)
            && var h := Fields(data);
               && h.formatVersion == 1 && h.headerSize == 64 && h.role == e.role && h.chip == 1
               && (e.hardware.Some? ==> h.hardwareTarget == e.hardware.value)
               && h.firmwareVersion != 0 && 0 < h.imageSize <= e.maximumImageSize
  {
    hide Fields;
  }

  /** And the error that is reported names a field that is wrong. */
  lemma ErrorNamesField(data: seq<byte>, e: Expected)
    ensures var error := Verdict(data, e);
            && (error == BAD_LENGTH <==> |data| != 64)
            && (|data| == 64 ==>
                  && (error == BAD_MAGIC <==> data[..8] != MAGIC)
                  && (error == BAD_FORMAT ==> Fields(data).formatVersion != 1)
                  && (error == BAD_HEADER_SIZE ==> Fields(data).headerSize != 64)
                  && (error == BAD_ROLE ==> Fields(data).role != e.role)
                  && (error == BAD_CHIP ==> Fields(data).chip != 1)
                  && (error == BAD_HARDWARE ==> e.hardware.Some? && Fields(data).hardwareTarget != e.hardware.value)
                  && (error == BAD_VERSION ==> Fields(data).firmwareVersion == 0)
                  && (error == BAD_IMAGE_SIZE ==> Fields(data).imageSize == 0 || Fields(data).imageSize > e.maximumImageSize)
                  && (error == BAD_RESERVED ==> exists i :: 56 <= i < 64 && data[i] != 0))
  {
    hide Fields;
  }
}
