/** The gateway's own firmware upload (main/src/ota_manager.cpp) as a function of the
    session state and the bytes fed: the specification of the class in MainOta. */
module MainOtaSpec {
  import opened Bytes
  import FP = FirmwarePackage

  datatype OtaState =
    | IDLE | RECEIVING_HEADER | RECEIVING_IMAGE_PREFIX | WRITING | VERIFYING | READY_TO_REBOOT | FAILED

  datatype Reason =
    | NoReason | InsufficientFreeHeap | LargestHeapBlockTooSmall | PackageSizeOverflow
    | NoInactiveOtaPartition | BadPackageHeader(error: FP.ParseError) | AlreadyUpToDate | VersionBelowMinimum
    | ImageTooSmall | BadEspImageMagic | EspImageWrongChip | BadEspSegmentCount | EspImageHashMissing
    | Sha256InitFailed | OtaBeginFailed | ImageLargerThanDeclared | Sha256UpdateFailed | OtaWriteFailed
    | IncompleteUpload | ImageSizeMismatch | Sha256FinishFailed | Sha256Mismatch
    | OtaImageValidationFailed | SetBootPartitionFailed | Aborted(text: string)

  /** The start of an ESP application image, as far as the firmware looks at it. */
  datatype EspImageHeader = EspImageHeader(magicOk: bool, chipOk: bool, segmentCount: byte, hashAppended: byte)

  /** The build constants and the answers of the foreign libraries. Updating the hash and
      writing flash may fail, but only because of particular image positions. */
  datatype Library = Library(
    version: u32, minAllowedVersion: u32, hardware: u16,
    imagePrefixSize: nat,
    decodeImageHeader: seq<byte> -> EspImageHeader,
    partition: Option<u32>,
    shaStartOk: bool, otaBeginOk: bool,
    shaPositionOk: nat -> bool, flashPositionOk: nat -> bool,
    sha256: seq<byte> -> seq<byte>,
    shaFinishOk: bool, otaEndOk: bool, setBootOk: bool)
  {
    ghost predicate Sane() {
      0 < imagePrefixSize && 0 < minAllowedVersion <= version
    }

    /** esp_ota_write and mbedtls_sha256_update over the positions [from, from + len). */
    predicate HashAccepts(from: nat, len: nat) {
      forall i :: from <= i < from + len ==> shaPositionOk(i)
    }

    predicate FlashAccepts(from: nat, len: nat) {
      forall i :: from <= i < from + len ==> flashPositionOk(i)
    }
  }

  datatype Session = Session(
    state: OtaState, reason: Reason, active: bool,
    imageBytesReceived: nat, expectedImageBytes: nat,
    packageHeader: seq<byte>, parsedHeader: FP.Header, imagePrefix: seq<byte>,
    otaBegun: bool, sha256Active: bool,
    flash: seq<byte>, hashInput: seq<byte>, bootSelected: bool)
  {
    predicate Failed() {
      state == FAILED
    }
  }

  /** The session and the counter of every byte offered to it. */
  datatype Upload = Upload(packageBytesReceived: nat, session: Session)
  {
    predicate Failed() {
      session.Failed()
    }
  }

  function Fail(s: Session, reason: Reason): Session {
    s.(state := FAILED, reason := reason, otaBegun := false, sha256Active := false)
  }

  function Reset(s: Session): Session {
    Session(RECEIVING_HEADER, NoReason, true, 0, 0, [], FP.NO_HEADER, [], false, false,
            s.flash, s.hashInput, s.bootSelected)
  }

  // otaUploadConsume, step by step.

  function Expectation(lib: Library): FP.Expected
    requires lib.partition.Some?
  {
    FP.Expected(FP.ROLE_MAIN, Some(lib.hardware), lib.partition.value)
  }

  function AcceptHeader(lib: Library, s: Session): Session
    requires |s.packageHeader| == FP.HEADER_SIZE
  {
    if lib.partition.None? then Fail(s, NoInactiveOtaPartition)
    else
      var error := FP.Verdict(s.packageHeader, Expectation(lib));
      var out := if error == FP.BAD_LENGTH || error == FP.BAD_MAGIC then s.parsedHeader
                 else FP.Fields(s.packageHeader);
      var t := s.(parsedHeader := out);
      if error != FP.NONE then Fail(t, BadPackageHeader(error))
      else
        var decision := FP.DecideVersion(lib.version, out.firmwareVersion, lib.minAllowedVersion);
        if decision == FP.ALREADY_INSTALLED then Fail(t, AlreadyUpToDate)
        else if decision == FP.BELOW_MINIMUM then Fail(t, VersionBelowMinimum)
        else if out.imageSize < lib.imagePrefixSize then Fail(t, ImageTooSmall)
        else t.(expectedImageBytes := out.imageSize, state := RECEIVING_IMAGE_PREFIX)
  }

  function ImageHeaderComplaint(h: EspImageHeader): Reason {
    if !h.magicOk then BadEspImageMagic
    else if !h.chipOk then EspImageWrongChip
    else if h.segmentCount == 0 || h.segmentCount > 16 then BadEspSegmentCount
    else if h.hashAppended != 1 then EspImageHashMissing
    else NoReason
  }

  function BeginWrite(lib: Library, s: Session): Session {
    var complaint := ImageHeaderComplaint(lib.decodeImageHeader(s.imagePrefix));
    if complaint != NoReason then Fail(s, complaint)
    else if !lib.shaStartOk then Fail(s.(hashInput := []), Sha256InitFailed)
    else if !lib.otaBeginOk then Fail(s.(hashInput := []), OtaBeginFailed)
    else s.(hashInput := [], flash := [], otaBegun := true, sha256Active := true, state := WRITING)
  }

  function WriteData(lib: Library, s: Session, data: seq<byte>): Session {
    var received := s.imageBytesReceived;
    if data == [] then s
    else if received > s.parsedHeader.imageSize || |data| > s.parsedHeader.imageSize - received then
      Fail(s, ImageLargerThanDeclared)
    else if !lib.HashAccepts(received, |data|) then Fail(s, Sha256UpdateFailed)
    else if !lib.FlashAccepts(received, |data|) then Fail(s.(hashInput := s.hashInput + data), OtaWriteFailed)
    else s.(hashInput := s.hashInput + data, flash := s.flash + data, imageBytesReceived := received + |data|)
  }

  function Min(a: int, b: int): int {
    if a < b then a else b
  }

  /** The consuming loop. */
  function Drain(lib: Library, s: Session, data: seq<byte>): Session
    decreases |data|
  {
    if data == [] || s.Failed() then s
    else if |s.packageHeader| < FP.HEADER_SIZE then
      var take := Min(|data|, FP.HEADER_SIZE - |s.packageHeader|);
      var t := s.(packageHeader := s.packageHeader + data[..take]);
      if |t.packageHeader| == FP.HEADER_SIZE then Drain(lib, AcceptHeader(lib, t), data[take..])
      else Drain(lib, t, data[take..])
    else if |s.imagePrefix| < lib.imagePrefixSize then
      var take := Min(|data|, lib.imagePrefixSize - |s.imagePrefix|);
      var t := s.(imagePrefix := s.imagePrefix + data[..take]);
      if |t.imagePrefix| == lib.imagePrefixSize then Drain(lib, StartImage(lib, t), data[take..])
      else Drain(lib, t, data[take..])
    else WriteData(lib, s, data)
  }

  /** The completed prefix opens the image and is its first write. */
  function StartImage(lib: Library, s: Session): Session {
    var t := BeginWrite(lib, s);
    if t.Failed() then t else WriteData(lib, t, t.imagePrefix)
  }

  /** One call of otaUploadConsume. */
  function Consume(lib: Library, u: Upload, data: seq<byte>): Upload {
    if data == [] || u.Failed() then u
    else if |data| > U32_MAX - u.packageBytesReceived then u.(session := Fail(u.session, PackageSizeOverflow))
    else Upload(u.packageBytesReceived + |data|, Drain(lib, u.session, data))
  }

  /** otaUploadFinish. */
  function Finish(lib: Library, u: Upload): Upload {
    u.(session := FinishSession(lib, u.session, u.packageBytesReceived))
  }

  function FinishSession(lib: Library, s: Session, packageBytes: nat): Session {
    if s.Failed() then s
    else if !s.otaBegun || |s.packageHeader| != FP.HEADER_SIZE || |s.imagePrefix| != lib.imagePrefixSize then
      Fail(s, IncompleteUpload)
    else if s.imageBytesReceived != s.parsedHeader.imageSize
         || packageBytes != FP.HEADER_SIZE + s.parsedHeader.imageSize then
      Fail(s, ImageSizeMismatch)
    else VerifySession(lib, s)
  }

  function VerifySession(lib: Library, s: Session): Session {
    if !lib.shaFinishOk then Fail(s, Sha256FinishFailed)
    else if lib.sha256(s.hashInput) != s.parsedHeader.imageSha256 then Fail(s, Sha256Mismatch)
    else if !lib.otaEndOk then Fail(s, OtaImageValidationFailed)
    else if !lib.setBootOk then Fail(s, SetBootPartitionFailed)
    else s.(sha256Active := false, otaBegun := false, bootSelected := true, state := READY_TO_REBOOT)
  }
}
