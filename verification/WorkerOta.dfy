/** The worker's OTA service in the form of worker/src/worker_ota_service.cpp: globals and
    a prefix buffer updated in place, with the recursive writeImageBytes. Each method is
    proved equal to its function in WorkerOtaSpec. */
module WorkerOta {
  import opened Bytes
  import opened WorkerOtaSpec
  import FP = FirmwarePackage

  class WorkerOtaService {
    const lib: Library

    var gState: State
    var gError: Error
    var gHeader: FP.Header
    const gImagePrefix: array<byte>
    var gImagePrefixReceived: nat
    var gImageBytesReceived: nat
    var gTargetPartition: Option<u32>
    var gOtaBegun: bool
    var gSha256Active: bool

    // What the libraries hold
    var flash: seq<byte>
    var hashInput: seq<byte>
    var boot: Option<seq<byte>>

    ghost predicate Buffers()
      reads this
    {
      gImagePrefix.Length == lib.imagePrefixSize && gImagePrefixReceived <= gImagePrefix.Length
    }

    ghost function View(): (s: Service)
      requires Buffers()
      reads this, gImagePrefix
      ensures |s.imagePrefix| <= lib.imagePrefixSize
    {
      Service(gState, gError, gHeader, gImagePrefix[..gImagePrefixReceived], gImageBytesReceived, gTargetPartition,
              gOtaBegun, gSha256Active, flash, hashInput, boot)
    }

    ghost predicate Valid()
      reads this, gImagePrefix
    {
      lib.Sane() && Buffers() && Inv(lib, View())
    }

    constructor (lib: Library)
      requires lib.Sane()
      ensures this.lib == lib && Valid() && fresh(gImagePrefix) && gState == IDLE && boot == None
    {
      this.lib := lib;
      gState, gError, gHeader := IDLE, NONE, FP.NO_HEADER;
      gImagePrefix := new byte[lib.imagePrefixSize];
      gImagePrefixReceived, gImageBytesReceived, gTargetPartition := 0, 0, None;
      gOtaBegun, gSha256Active := false, false;
      flash, hashInput, boot := [], [], None;
    }

    method FailWith(error: Error)
      requires Buffers()
      modifies this`gState, this`gError, this`gOtaBegun, this`gSha256Active
      ensures View() == Fail(old(View()), error)
    {
      gOtaBegun := false;
      gSha256Active := false;
      gState := FAILED;
      gError := error;
    }

    method ResetSession()
      requires Buffers()
      modifies this`gState, this`gError, this`gOtaBegun, this`gSha256Active, this`gHeader, this`gImagePrefixReceived,
               this`gImageBytesReceived, this`gTargetPartition, gImagePrefix
      ensures Buffers() && View() == Reset(old(View()))
    {
      MemZero(gImagePrefix);
      gOtaBegun, gSha256Active := false, false;
      gHeader, gTargetPartition := FP.NO_HEADER, None;
      gImagePrefixReceived, gImageBytesReceived := 0, 0;
      gState, gError := IDLE, NONE;
    }

    method BeginImageWriteIfReady() returns (ok: bool)
      requires Buffers()
      modifies this`gState, this`gError, this`gOtaBegun, this`gSha256Active, this`flash, this`hashInput
      ensures gImagePrefixReceived < gImagePrefix.Length || old(gOtaBegun) ==> ok && View() == old(View())
      ensures gImagePrefixReceived == gImagePrefix.Length && !old(gOtaBegun) ==> (View(), ok) == Begin(lib, old(View()))
    {
      if gImagePrefixReceived < gImagePrefix.Length || gOtaBegun { return true; }
      assert gImagePrefix[..] == gImagePrefix[..gImagePrefixReceived];
      if !lib.imageHeaderOk(gImagePrefix[..]) {
        FailWith(BAD_IMAGE);
        return false;
      }
      gSha256Active := true;
      hashInput := [];
      if !lib.shaStartOk {
        FailWith(BAD_IMAGE);
        return false;
      }
      if gTargetPartition.None? || !lib.otaBeginOk {
        FailWith(WRITE_FAILED);
        return false;
      }
      flash := [];
      gOtaBegun := true;
      gState, gError := WRITING, NONE;
      return true;
    }

    method WriteOpen(data: seq<byte>) returns (ok: bool)
      requires Buffers()
      modifies this`gState, this`gError, this`gOtaBegun, this`gSha256Active, this`flash, this`hashInput, this`gImageBytesReceived
      ensures (View(), ok) == AppendOpen(lib, old(View()), data)
    {
      if |data| == 0 { return true; }
      if !gOtaBegun { return true; }
      if !lib.HashAccepts(gImageBytesReceived, |data|) {
        FailWith(WRITE_FAILED);
        return false;
      }
      hashInput := hashInput + data;
      if !lib.FlashAccepts(gImageBytesReceived, |data|) {
        FailWith(WRITE_FAILED);
        return false;
      }
      flash := flash + data;
      gImageBytesReceived := gImageBytesReceived + |data|;
      return true;
    }

    /** One round of the prefix loop: buffer, open the update, and write the prefix by
        calling writeImageBytes again. */
    method TakePrefix(data: seq<byte>) returns (take: nat, ok: bool)
      requires lib.Sane() && Buffers() && Inv(lib, View())
      requires 0 < |data| <= gHeader.imageSize - gImageBytesReceived && gImagePrefixReceived < gImagePrefix.Length
      modifies this, gImagePrefix
      ensures Buffers() && gImagePrefixReceived >= old(gImagePrefixReceived) && 0 < take <= |data|
      ensures take < |data| && ok ==> gImagePrefixReceived == gImagePrefix.Length
      ensures WriteImageBytes(lib, old(View()), data)
              == if !ok then (View(), false) else AppendOpen(lib, View(), data[take..])
      decreases gImagePrefix.Length - gImagePrefixReceived, 0
    {
      take := Min(|data|, gImagePrefix.Length - gImagePrefixReceived);
      MemCpy(gImagePrefix, gImagePrefixReceived, data[..take]);
      gImagePrefixReceived := gImagePrefixReceived + take;
      assert gImagePrefix[..gImagePrefixReceived] == old(gImagePrefix[..gImagePrefixReceived]) + data[..take];
      ghost var t := View();
      ok := BeginImageWriteIfReady();
      if !ok { return; }
      if gOtaBegun {
        BeginFrame(lib, t);
        assert gImagePrefix[..] == gImagePrefix[..gImagePrefixReceived];
        ok := WriteBytes(gImagePrefix[..]);
      }
    }

    /** writeImageBytes. */
    method WriteBytes(data: seq<byte>) returns (ok: bool)
      requires lib.Sane() && Buffers()
      requires gImagePrefixReceived < gImagePrefix.Length ==> Inv(lib, View())
      modifies this, gImagePrefix
      ensures Buffers() && gImagePrefixReceived >= old(gImagePrefixReceived)
      ensures (View(), ok) == WriteImageBytes(lib, old(View()), data)
      decreases gImagePrefix.Length - gImagePrefixReceived, 1
    {
      if |data| == 0 { return true; }
      if gImageBytesReceived > gHeader.imageSize || |data| > gHeader.imageSize - gImageBytesReceived {
        FailWith(BAD_OFFSET);
        return false;
      }
      var rest := data;
      ghost var first := true;
      while |rest| > 0 && gImagePrefixReceived < gImagePrefix.Length
        invariant Buffers() && gImagePrefixReceived >= old(gImagePrefixReceived)
        invariant first ==> rest == data && View() == old(View())
        invariant !first ==> rest == [] || gImagePrefixReceived == gImagePrefix.Length
        invariant !first ==> WriteImageBytes(lib, old(View()), data) == AppendOpen(lib, View(), rest)
        decreases |rest|
      {
        var take, good := TakePrefix(rest);
        rest := rest[take..];
        first := false;
        if !good { return false; }
      }
      ok := WriteOpen(rest);
    }

    method HandlePrepare(command: seq<byte>)
      requires Valid()
      modifies this, gImagePrefix
      ensures Valid() && View() == Prepare(lib, old(View()), command)
    {
      hide FP.Fields, FP.ReservedIsZero;
      PrepareKeepsInv(lib, View(), command);
      if |command| != 1 + FP.HEADER_SIZE {
        FailWith(BAD_COMMAND);
        return;
      }
      ResetSession();
      var ok, h := ParseHeader(command[1..]);
      if h.Some? { gHeader := h.value; }
      if !ok {
        FailWith(BAD_HEADER);
        return;
      }
      FinishPrepare();
    }

    /** The checks after the header has been decoded. */
    method FinishPrepare()
      requires Buffers()
      modifies this`gState, this`gError, this`gOtaBegun, this`gSha256Active, this`gTargetPartition
      ensures View()
              == var t := old(View());
                 var decision := FP.DecideVersion(lib.version, t.header.firmwareVersion, lib.minAllowedVersion);
                 if t.header.hardwareTarget != lib.hardware then Fail(t, WRONG_HARDWARE)
                 else if decision == FP.ALREADY_INSTALLED then Fail(t, ALREADY_UP_TO_DATE)
                 else if decision == FP.BELOW_MINIMUM then Fail(t, VERSION_BELOW_MINIMUM)
                 else if lib.partition.None? then Fail(t.(target := None), NO_PARTITION)
                 else if t.header.imageSize > lib.partition.value then Fail(t.(target := lib.partition), TOO_LARGE)
                 else t.(target := lib.partition, state := PREPARED, error := NONE)
    {
      if gHeader.hardwareTarget != lib.hardware {
        FailWith(WRONG_HARDWARE);
        return;
      }
      match FP.DecideVersion(lib.version, gHeader.firmwareVersion, lib.minAllowedVersion) {
        case ALREADY_INSTALLED =>
          FailWith(ALREADY_UP_TO_DATE);
          return;
        case BELOW_MINIMUM =>
          FailWith(VERSION_BELOW_MINIMUM);
          return;
        case ALLOW =>
      }
      gTargetPartition := lib.partition;
      if gTargetPartition.None? {
        FailWith(NO_PARTITION);
        return;
      }
      if gHeader.imageSize > gTargetPartition.value {
        FailWith(TOO_LARGE);
        return;
      }
      gState, gError := PREPARED, NONE;
    }

    method ParseHeader(data: seq<byte>) returns (ok: bool, out: Option<FP.Header>)
      requires |data| == FP.HEADER_SIZE
      ensures (ok, out) == ParsePackageHeader(lib, data)
    {
      hide FP.Fields;
      if data[..8] != FP.MAGIC { return false, None; }
      var h := FP.Fields(data);
      if h.formatVersion != FP.FORMAT_VERSION || h.headerSize != FP.HEADER_SIZE { return false, None; }
      var i := 56;
      while i < FP.HEADER_SIZE
        invariant 56 <= i <= FP.HEADER_SIZE
        invariant forall k :: 56 <= k < i ==> data[k] == 0
      {
        if data[i] != 0 { return false, Some(h); }
        i := i + 1;
      }
      ok := h.role == FP.ROLE_WORKER && h.chip == FP.CHIP_ESP32_C3 && h.firmwareVersion != 0
            && h.imageSize >= lib.imagePrefixSize;
      out := Some(h);
    }

    method HandleCommit()
      requires Valid()
      modifies this
      ensures Valid() && View() == Commit(lib, old(View()))
    {
      hide Allowed;
      if !gOtaBegun || gImageBytesReceived != gHeader.imageSize {
        FailWith(BAD_OFFSET);
        return;
      }
      gState, gError := VERIFYING, NONE;
      if !lib.shaFinishOk {
        FailWith(VALIDATION_FAILED);
        return;
      }
      gSha256Active := false;
      if lib.sha256(hashInput) != gHeader.imageSha256 {
        FailWith(HASH_MISMATCH);
        return;
      }
      gOtaBegun := false;
      if !lib.otaEndOk {
        FailWith(VALIDATION_FAILED);
        return;
      }
      if !lib.setBootOk {
        FailWith(SET_BOOT_FAILED);
        return;
      }
      boot := Some(flash);
      gState, gError := READY_TO_REBOOT, NONE;
    }

    method OnControlWrite(value: seq<byte>)
      requires Valid()
      modifies this, gImagePrefix
      ensures Valid() && View() == OnControl(lib, old(View()), value)
    {
      hide Prepare, Commit, Allowed;
      if |value| == 0 {
        FailWith(BAD_COMMAND);
        return;
      }
      if value[0] == 1 {
        HandlePrepare(value);
      } else if value[0] == 2 {
        HandleCommit();
      } else if value[0] == 3 {
        FailWith(ABORTED);
      } else {
        FailWith(BAD_COMMAND);
      }
    }

    method OnDataWrite(value: seq<byte>)
      requires Valid()
      modifies this, gImagePrefix
      ensures Valid() && View() == OnData(lib, old(View()), value)
    {
      hide WriteImageBytes, Allowed;
      if |value| < 4 {
        FailWith(BAD_COMMAND);
        return;
      }
      var offset := FromLeU32(value[..4]);
      if offset != gImageBytesReceived {
        FailWith(BAD_OFFSET);
        return;
      }
      WriteKeepsInv(lib, View(), value[4..]);
      var _ := WriteBytes(value[4..]);
    }

    method OnDisconnected()
      requires Valid()
      modifies this`gState, this`gError, this`gOtaBegun, this`gSha256Active
      ensures Valid() && View() == OnDisconnect(old(View()))
    {
      hide Allowed;
      if gState == PREPARED || gState == WRITING || gState == VERIFYING {
        FailWith(ABORTED);
      }
    }
  }
}
