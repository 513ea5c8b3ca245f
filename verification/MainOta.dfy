/** The gateway's OTA manager in the form of main/src/ota_manager.cpp: fields and buffers
    updated in place. Every method is proved equal to its function in MainOtaSpec, from
    which the results in MainOtaChunks and MainOtaSoundness carry over. */
module MainOta {
  import opened Bytes
  import opened MainOtaSpec
  import Soundness = MainOtaSoundness
  import FP = FirmwarePackage

  class OtaManager {
    const lib: Library

    // gStatus
    var state: OtaState
    var reason: Reason
    var active: bool
    var packageBytesReceived: nat
    var imageBytesReceived: nat
    var expectedImageBytes: nat

    // Session buffers and resources
    const gPackageHeader: array<byte>
    var gPackageHeaderReceived: nat
    var gParsedHeader: FP.Header
    const gImagePrefix: array<byte>
    var gImagePrefixReceived: nat
    var gOtaBegun: bool
    var gSha256Active: bool

    // What the libraries hold
    var flash: seq<byte>
    var hashInput: seq<byte>
    var bootSelected: bool
    /** Bytes consumed since the session was opened. */
    ghost var fed: seq<byte>

    ghost predicate Buffers()
      reads this
    {
      && gPackageHeader != gImagePrefix
      && gPackageHeader.Length == FP.HEADER_SIZE && gPackageHeaderReceived <= gPackageHeader.Length
      && gImagePrefix.Length == lib.imagePrefixSize && gImagePrefixReceived <= gImagePrefix.Length
    }

    ghost function Current(): Session
      requires Buffers()
      reads this, gPackageHeader, gImagePrefix
    {
      Session(state, reason, active, imageBytesReceived, expectedImageBytes,
              gPackageHeader[..gPackageHeaderReceived], gParsedHeader, gImagePrefix[..gImagePrefixReceived],
              gOtaBegun, gSha256Active, flash, hashInput, bootSelected)
    }

    ghost function View(): Upload
      requires Buffers()
      reads this, gPackageHeader, gImagePrefix
    {
      Upload(packageBytesReceived, Current())
    }

    ghost predicate Valid()
      reads this, gPackageHeader, gImagePrefix
    {
      lib.Sane() && Buffers() && Soundness.Inv(lib, fed, View())
    }

    /** otaManagerInit, after power-on. */
    constructor (lib: Library)
      requires lib.Sane()
      ensures this.lib == lib && Valid() && fresh(gPackageHeader) && fresh(gImagePrefix)
      ensures state == IDLE && !active && !bootSelected
    {
      this.lib := lib;
      state, reason, active := IDLE, NoReason, false;
      packageBytesReceived, imageBytesReceived, expectedImageBytes := 0, 0, 0;
      gPackageHeader := new byte[FP.HEADER_SIZE];
      gPackageHeaderReceived, gParsedHeader := 0, FP.NO_HEADER;
      gImagePrefix := new byte[lib.imagePrefixSize];
      gImagePrefixReceived := 0;
      gOtaBegun, gSha256Active := false, false;
      flash, hashInput, bootSelected, fed := [], [], false, [];
    }

    method FailWith(why: Reason)
      requires Buffers()
      modifies this`state, this`reason, this`gOtaBegun, this`gSha256Active
      ensures View() == old(View()).(session := Fail(old(Current()), why))
    {
      gOtaBegun := false;
      gSha256Active := false;
      state := FAILED;
      reason := why;
    }

    method ResetSession()
      requires Buffers()
      modifies this, gPackageHeader, gImagePrefix
      ensures Buffers() && fed == []
      ensures View() == Upload(0, Reset(old(Current())))
    {
      ResetResources();
      MemZero(gPackageHeader);
      MemZero(gImagePrefix);
      ResetStatus();
      assert gPackageHeader[..0] == [] && gImagePrefix[..0] == [];
    }

    method ResetResources()
      modifies this`gOtaBegun, this`gSha256Active, this`gParsedHeader, this`gPackageHeaderReceived,
               this`gImagePrefixReceived, this`fed
      ensures !gOtaBegun && !gSha256Active && gParsedHeader == FP.NO_HEADER
      ensures gPackageHeaderReceived == gImagePrefixReceived == 0 && fed == []
    {
      gOtaBegun, gSha256Active, gParsedHeader := false, false, FP.NO_HEADER;
      gPackageHeaderReceived, gImagePrefixReceived := 0, 0;
      fed := [];
    }

    method ResetStatus()
      modifies this`state, this`reason, this`active, this`packageBytesReceived, this`imageBytesReceived,
               this`expectedImageBytes
      ensures state == RECEIVING_HEADER && reason == NoReason && active
      ensures packageBytesReceived == imageBytesReceived == expectedImageBytes == 0
    {
      state, reason, active := RECEIVING_HEADER, NoReason, true;
      packageBytesReceived, imageBytesReceived, expectedImageBytes := 0, 0, 0;
    }

    method BeginImageWrite() returns (ok: bool)
      requires Buffers() && gImagePrefixReceived == gImagePrefix.Length && !Current().Failed()
      modifies this`state, this`reason, this`gOtaBegun, this`gSha256Active, this`flash, this`hashInput
      ensures View() == old(View()).(session := BeginWrite(lib, old(Current())))
      ensures ok <==> !Current().Failed()
    {
      var imageHeader := lib.decodeImageHeader(gImagePrefix[..]);
      assert gImagePrefix[..] == gImagePrefix[..gImagePrefixReceived];
      var complaint := ImageHeaderComplaint(imageHeader);
      if complaint != NoReason {
        FailWith(complaint);
        return false;
      }
      gSha256Active := true;
      hashInput := [];
      if !lib.shaStartOk {
        FailWith(Sha256InitFailed);
        return false;
      }
      if !lib.otaBeginOk {
        FailWith(OtaBeginFailed);
        return false;
      }
      flash := [];
      gOtaBegun := true;
      state := WRITING;
      return true;
    }

    method WriteImageData(data: seq<byte>) returns (ok: bool)
      requires Buffers() && !Current().Failed()
      modifies this`state, this`reason, this`gOtaBegun, this`gSha256Active, this`flash, this`hashInput, this`imageBytesReceived
      ensures View() == old(View()).(session := WriteData(lib, old(Current()), data))
      ensures ok <==> !Current().Failed()
    {
      if |data| == 0 { return true; }
      var received := imageBytesReceived;
      if received > gParsedHeader.imageSize || |data| > gParsedHeader.imageSize - received {
        FailWith(ImageLargerThanDeclared);
        return false;
      }
      if !lib.HashAccepts(received, |data|) {
        FailWith(Sha256UpdateFailed);
        return false;
      }
      hashInput := hashInput + data;
      if !lib.FlashAccepts(received, |data|) {
        FailWith(OtaWriteFailed);
        return false;
      }
      flash := flash + data;
      imageBytesReceived := received + |data|;
      return true;
    }

    method ParsePackageHeader() returns (ok: bool)
      requires Buffers() && gPackageHeaderReceived == gPackageHeader.Length && !Current().Failed()
      modifies this`state, this`reason, this`gOtaBegun, this`gSha256Active, this`gParsedHeader, this`expectedImageBytes
      ensures View() == old(View()).(session := AcceptHeader(lib, old(Current())))
      ensures ok <==> !Current().Failed()
    {
      hide FP.Verdict, FP.Fields;
      if lib.partition.None? {
        FailWith(NoInactiveOtaPartition);
        return false;
      }
      assert gPackageHeader[..] == gPackageHeader[..gPackageHeaderReceived];
      var error, out := FP.ParseHeader(gPackageHeader[..], Expectation(lib), gParsedHeader);
      gParsedHeader := out;
      if error != FP.NONE {
        FailWith(BadPackageHeader(error));
        return false;
      }
      var decision := FP.DecideVersion(lib.version, gParsedHeader.firmwareVersion, lib.minAllowedVersion);
      if decision == FP.ALREADY_INSTALLED {
        FailWith(AlreadyUpToDate);
        return false;
      }
      if decision == FP.BELOW_MINIMUM {
        FailWith(VersionBelowMinimum);
        return false;
      }
      if gParsedHeader.imageSize < lib.imagePrefixSize {
        FailWith(ImageTooSmall);
        return false;
      }
      expectedImageBytes := gParsedHeader.imageSize;
      state := RECEIVING_IMAGE_PREFIX;
      return true;
    }

    method UploadStart(freeHeap: nat, largestBlock: nat) returns (ok: bool)
      requires Valid()
      modifies this, gPackageHeader, gImagePrefix
      ensures Valid()
      ensures View() == Soundness.Open(old(View()), freeHeap, largestBlock)
      ensures ok <==> !old(active) && state == RECEIVING_HEADER
      ensures fed == if old(active) then old(fed) else []
    {
      if active { return false; }
      ResetSession();
      if freeHeap < Soundness.MIN_FREE_HEAP_TO_START {
        FailWith(InsufficientFreeHeap);
        return false;
      }
      if largestBlock < Soundness.MIN_LARGEST_BLOCK_TO_START {
        FailWith(LargestHeapBlockTooSmall);
        return false;
      }
      return true;
    }

    method TakeHeader(data: seq<byte>) returns (take: nat, ok: bool)
      requires Buffers() && data != [] && !Current().Failed() && gPackageHeaderReceived < gPackageHeader.Length
      modifies this, gPackageHeader
      ensures Buffers() && fed == old(fed) && packageBytesReceived == old(packageBytesReceived)
      ensures 0 < take <= |data|
      ensures Drain(lib, old(Current()), data) == Drain(lib, Current(), data[take..])
      ensures ok <==> !Current().Failed()
    {
      hide StartImage, AcceptHeader, WriteData;
      take := Min(|data|, gPackageHeader.Length - gPackageHeaderReceived);
      MemCpy(gPackageHeader, gPackageHeaderReceived, data[..take]);
      gPackageHeaderReceived := gPackageHeaderReceived + take;
      assert gPackageHeader[..gPackageHeaderReceived] == old(gPackageHeader[..gPackageHeaderReceived]) + data[..take];
      ok := true;
      if gPackageHeaderReceived == gPackageHeader.Length {
        ok := ParsePackageHeader();
      }
    }

    method TakePrefix(data: seq<byte>) returns (take: nat, ok: bool)
      requires Buffers() && data != [] && !Current().Failed() && gPackageHeaderReceived == gPackageHeader.Length
      requires gImagePrefixReceived < gImagePrefix.Length
      modifies this, gImagePrefix
      ensures Buffers() && fed == old(fed) && packageBytesReceived == old(packageBytesReceived)
      ensures 0 < take <= |data|
      ensures Drain(lib, old(Current()), data) == Drain(lib, Current(), data[take..])
      ensures ok <==> !Current().Failed()
    {
      hide StartImage, AcceptHeader, WriteData;
      take := Min(|data|, gImagePrefix.Length - gImagePrefixReceived);
      MemCpy(gImagePrefix, gImagePrefixReceived, data[..take]);
      gImagePrefixReceived := gImagePrefixReceived + take;
      assert gImagePrefix[..gImagePrefixReceived] == old(gImagePrefix[..gImagePrefixReceived]) + data[..take];
      ok := true;
      if gImagePrefixReceived == gImagePrefix.Length {
        ok := PrefixComplete();
      }
    }

    method PrefixComplete() returns (ok: bool)
      requires Buffers() && gImagePrefixReceived == gImagePrefix.Length && !Current().Failed()
      modifies this`state, this`reason, this`gOtaBegun, this`gSha256Active, this`flash, this`hashInput, this`imageBytesReceived
      ensures View() == old(View()).(session := StartImage(lib, old(Current())))
      ensures ok <==> !Current().Failed()
    {
      hide BeginWrite, WriteData;
      ok := BeginImageWrite();
      if ok {
        assert gImagePrefix[..] == gImagePrefix[..gImagePrefixReceived];
        ok := WriteImageData(gImagePrefix[..]);
      }
    }

    method DrainLoop(data: seq<byte>) returns (ok: bool)
      requires Buffers()
      modifies this, gPackageHeader, gImagePrefix
      ensures Buffers() && fed == old(fed) && packageBytesReceived == old(packageBytesReceived)
      ensures Current() == Drain(lib, old(Current()), data)
      ensures ok <==> !Current().Failed()
    {
      hide AcceptHeader, StartImage, WriteData;
      var rest := data;
      while |rest| > 0 && state != FAILED
        invariant Buffers() && fed == old(fed) && packageBytesReceived == old(packageBytesReceived)
        invariant Drain(lib, old(Current()), data) == Drain(lib, Current(), rest)
        decreases |rest|
      {
        if gPackageHeaderReceived < gPackageHeader.Length {
          var take, good := TakeHeader(rest);
          rest := rest[take..];
          if !good { return false; }
          continue;
        }
        if gImagePrefixReceived < gImagePrefix.Length {
          var take, good := TakePrefix(rest);
          rest := rest[take..];
          if !good { return false; }
          continue;
        }
        ok := WriteImageData(rest);
        return;
      }
      ok := state != FAILED;
    }

    /** otaUploadConsume. */
    method UploadConsume(data: seq<byte>) returns (ok: bool)
      requires Valid()
      modifies this, gPackageHeader, gImagePrefix
      ensures Valid()
      ensures View() == Consume(lib, old(View()), data)
      ensures ok <==> state != FAILED
      ensures fed == old(fed) + data
    {
      hide Drain, Soundness.SessionInv;
      Soundness.ConsumeKeeps(lib, fed, View(), data);
      fed := fed + data;
      if |data| == 0 || state == FAILED { return state != FAILED; }
      if |data| > U32_MAX - packageBytesReceived {
        FailWith(PackageSizeOverflow);
        return false;
      }
      packageBytesReceived := packageBytesReceived + |data|;
      ok := DrainLoop(data);
    }

    /** otaUploadFinish. */
    method UploadFinish() returns (ok: bool)
      requires Valid()
      modifies this
      ensures Valid() && fed == old(fed)
      ensures View() == Finish(lib, old(View()))
      ensures ok <==> old(state) != FAILED && state == READY_TO_REBOOT
      ensures ok ==> flash == fed[FP.HEADER_SIZE..] && |flash| == gParsedHeader.imageSize
                     && lib.sha256(flash) == gParsedHeader.imageSha256
                     && FP.DecideVersion(lib.version, gParsedHeader.firmwareVersion, lib.minAllowedVersion) == FP.ALLOW
    {
      hide FP.Verdict, FP.Fields;
      Soundness.FinishKeeps(lib, fed, View());
      if state == FAILED { return false; }
      if !gOtaBegun || gPackageHeaderReceived != gPackageHeader.Length || gImagePrefixReceived != gImagePrefix.Length {
        FailWith(IncompleteUpload);
        return false;
      }
      if imageBytesReceived != gParsedHeader.imageSize
         || packageBytesReceived != FP.HEADER_SIZE + gParsedHeader.imageSize {
        FailWith(ImageSizeMismatch);
        return false;
      }
      ok := Verify();
    }

    /** The part of otaUploadFinish that checks and selects the image. */
    method Verify() returns (ok: bool)
      requires Buffers()
      modifies this`state, this`reason, this`gOtaBegun, this`gSha256Active, this`bootSelected
      ensures ok <==> state == READY_TO_REBOOT
      ensures View() == old(View()).(session := VerifySession(lib, old(Current())))
    {
      state := VERIFYING;
      if !lib.shaFinishOk {
        FailWith(Sha256FinishFailed);
        return false;
      }
      gSha256Active := false;
      if lib.sha256(hashInput) != gParsedHeader.imageSha256 {
        FailWith(Sha256Mismatch);
        return false;
      }
      gOtaBegun := false;
      if !lib.otaEndOk {
        FailWith(OtaImageValidationFailed);
        return false;
      }
      if !lib.setBootOk {
        FailWith(SetBootPartitionFailed);
        return false;
      }
      bootSelected := true;
      state := READY_TO_REBOOT;
      return true;
    }

    /** otaUploadAbort: a finished upload cannot be aborted. */
    method UploadAbort(text: string)
      requires Valid()
      modifies this`state, this`reason, this`gOtaBegun, this`gSha256Active
      ensures Valid() && View() == Soundness.Perform(lib, old(View()), Soundness.Abort(text))
    {
      hide Soundness.SessionInv;
      if state == READY_TO_REBOOT { return; }
      Soundness.FailKeeps(lib, fed, fed, Current());
      FailWith(Aborted(text));
    }

    /** otaReleaseFailedUpload. */
    method ReleaseFailedUpload()
      requires Valid()
      modifies this`active
      ensures Valid() && View() == Soundness.Perform(lib, old(View()), Soundness.Release)
    {
      hide Soundness.SessionInv;
      Soundness.ReleaseKeeps(lib, fed, Current());
      if state == FAILED { active := false; }
    }
  }
}
