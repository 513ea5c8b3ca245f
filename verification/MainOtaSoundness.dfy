/** What every gateway upload keeps, and which byte streams end in a reboot. */
module MainOtaSoundness {
  import opened Bytes
  import opened MainOtaSpec
  import opened MainOtaChunks
  import FP = FirmwarePackage

  /** A package header this build is willing to install. */
  ghost predicate Installable(lib: Library, data: seq<byte>) {
    && |data| == FP.HEADER_SIZE
    && lib.partition.Some?
    && FP.Verdict(data, Expectation(lib)) == FP.NONE
    && FP.DecideVersion(lib.version, FP.Fields(data).firmwareVersion, lib.minAllowedVersion) == FP.ALLOW
    && FP.Fields(data).imageSize >= lib.imagePrefixSize
  }

  ghost predicate HeaderTaken(lib: Library, fed: seq<byte>, s: Session) {
    && |fed| >= FP.HEADER_SIZE
    && s.packageHeader == fed[..FP.HEADER_SIZE]
    && Installable(lib, s.packageHeader)
    && s.parsedHeader == FP.Fields(s.packageHeader)
    && s.expectedImageBytes == s.parsedHeader.imageSize
  }

  ghost predicate ImageStarted(lib: Library, fed: seq<byte>, s: Session) {
    && HeaderTaken(lib, fed, s)
    && |fed| >= FP.HEADER_SIZE + lib.imagePrefixSize
    && s.imagePrefix == fed[FP.HEADER_SIZE..FP.HEADER_SIZE + lib.imagePrefixSize]
    && ImageHeaderComplaint(lib.decodeImageHeader(s.imagePrefix)) == NoReason
    && lib.shaStartOk && lib.otaBeginOk
    && s.flash == fed[FP.HEADER_SIZE..] && s.hashInput == s.flash
    && s.imageBytesReceived == |s.flash| <= s.parsedHeader.imageSize
    && lib.HashAccepts(0, |s.flash|) && lib.FlashAccepts(0, |s.flash|)
  }

  /** What holds of a session between calls, `fed` being the bytes consumed since it was
      opened. The update handle and the hash context are open exactly while writing. */
  ghost predicate SessionInv(lib: Library, fed: seq<byte>, s: Session) {
    && (s.otaBegun <==> s.state == WRITING)
    && (s.sha256Active <==> s.state == WRITING)
    && (s.state != FAILED ==> s.reason == NoReason)
    && match s.state
       case FAILED => true
       case VERIFYING => false
       case IDLE => s.packageHeader == fed && |fed| < FP.HEADER_SIZE && s.imagePrefix == [] && s.imageBytesReceived == 0
       case RECEIVING_HEADER =>
         s.packageHeader == fed && |fed| < FP.HEADER_SIZE && s.imagePrefix == [] && s.imageBytesReceived == 0
       case RECEIVING_IMAGE_PREFIX =>
         && HeaderTaken(lib, fed, s)
         && s.imagePrefix == fed[FP.HEADER_SIZE..] && |s.imagePrefix| < lib.imagePrefixSize
         && s.imageBytesReceived == 0
       case WRITING => ImageStarted(lib, fed, s)
       case READY_TO_REBOOT =>
         && ImageStarted(lib, fed, s)
         && s.imageBytesReceived == s.parsedHeader.imageSize
         && lib.sha256(s.flash) == s.parsedHeader.imageSha256
         && s.bootSelected
  }

  ghost predicate Inv(lib: Library, fed: seq<byte>, u: Upload) {
    && SessionInv(lib, fed, u.session)
    && (!u.Failed() ==> u.packageBytesReceived == |fed| <= U32_MAX)
  }

  /** The counters in terms of each other: package bytes are the header bytes plus the
      prefix bytes while the prefix is incomplete, and plus the image bytes after that. */
  lemma PackageBytesAccounting(lib: Library, fed: seq<byte>, u: Upload)
    requires lib.Sane() && Inv(lib, fed, u) && !u.Failed()
    ensures var s := u.session;
            u.packageBytesReceived
            == |s.packageHeader|
               + if |s.imagePrefix| < lib.imagePrefixSize then |s.imagePrefix| else s.imageBytesReceived
  {
  }

  lemma AcceptHeaderKeeps(lib: Library, fed: seq<byte>, s: Session)
    requires lib.Sane()
    requires |fed| == FP.HEADER_SIZE && s.packageHeader == fed && s.imagePrefix == []
    requires (s.state == IDLE || s.state == RECEIVING_HEADER) && !s.otaBegun && !s.sha256Active
    requires s.imageBytesReceived == 0 && s.reason == NoReason
    ensures SessionInv(lib, fed, AcceptHeader(lib, s))
    ensures AcceptHeader(lib, s).Failed() <==> !Installable(lib, fed)
  {
    hide FP.Verdict, FP.Fields;
    assert fed[..FP.HEADER_SIZE] == fed;
  }

  lemma WriteDataKeeps(lib: Library, fed: seq<byte>, s: Session, data: seq<byte>)
    requires SessionInv(lib, fed, s) && s.state == WRITING
    ensures SessionInv(lib, fed + data, WriteData(lib, s, data))
  {
    hide Installable;
    if data == [] {
      assert fed + data == fed;
    } else if !WriteData(lib, s, data).Failed() {
      assert (fed + data)[FP.HEADER_SIZE..] == fed[FP.HEADER_SIZE..] + data;
      assert (fed + data)[..FP.HEADER_SIZE] == fed[..FP.HEADER_SIZE];
      var cut := FP.HEADER_SIZE + lib.imagePrefixSize;
      assert (fed + data)[FP.HEADER_SIZE..cut] == fed[FP.HEADER_SIZE..cut];
    }
  }

  lemma InstallableSize(lib: Library, data: seq<byte>)
    requires Installable(lib, data)
    ensures FP.Fields(data).imageSize >= lib.imagePrefixSize
  {
  }

  lemma StartImageKeeps(lib: Library, fed: seq<byte>, s: Session)
    requires lib.Sane()
    requires HeaderTaken(lib, fed, s) && s.state == RECEIVING_IMAGE_PREFIX && s.imageBytesReceived == 0
    requires s.imagePrefix == fed[FP.HEADER_SIZE..] && |s.imagePrefix| == lib.imagePrefixSize
    requires !s.otaBegun && !s.sha256Active && s.reason == NoReason
    ensures SessionInv(lib, fed, StartImage(lib, s))
    ensures StartImage(lib, s).Failed() <==>
            !(&& ImageHeaderComplaint(lib.decodeImageHeader(s.imagePrefix)) == NoReason
              && lib.shaStartOk && lib.otaBeginOk
              && lib.HashAccepts(0, lib.imagePrefixSize) && lib.FlashAccepts(0, lib.imagePrefixSize))
  {
    InstallableSize(lib, s.packageHeader);
    hide Installable;
    assert [] + s.imagePrefix == s.imagePrefix;
    assert fed[FP.HEADER_SIZE..FP.HEADER_SIZE + lib.imagePrefixSize] == fed[FP.HEADER_SIZE..];
  }

  lemma {:induction false} DrainKeeps(lib: Library, fed: seq<byte>, s: Session, data: seq<byte>)
    requires lib.Sane() && SessionInv(lib, fed, s)
    ensures SessionInv(lib, fed + data, Drain(lib, s, data))
    decreases |data|
  {
    hide Drain, WriteData, HeaderTaken, ImageStarted;
    DrainCases(lib, fed, s, data);
    if data == [] {
      assert fed + data == fed;
    } else if s.Failed() {
    } else if s.state == WRITING {
      WriteDataKeeps(lib, fed, s, data);
    } else if s.state == READY_TO_REBOOT {
      ReadyRefusesData(lib, fed, s, data);
    } else {
      var take, t := FirstPiece(lib, fed, s, data);
      assert (fed + data[..take]) + data[take..] == fed + data;
      DrainKeeps(lib, fed + data[..take], t, data[take..]);
    }
  }

  lemma DrainCases(lib: Library, fed: seq<byte>, s: Session, data: seq<byte>)
    requires SessionInv(lib, fed, s)
    ensures data == [] || s.Failed() ==> Drain(lib, s, data) == s
    ensures data != [] && (s.state == WRITING || s.state == READY_TO_REBOOT) ==>
              Drain(lib, s, data) == WriteData(lib, s, data)
  {
  }

  /** One round of the loop while the header or the prefix is being collected. */
  lemma FirstPiece(lib: Library, fed: seq<byte>, s: Session, data: seq<byte>) returns (take: nat, t: Session)
    requires lib.Sane() && SessionInv(lib, fed, s) && data != []
    requires s.state == IDLE || s.state == RECEIVING_HEADER || s.state == RECEIVING_IMAGE_PREFIX
    ensures 0 < take <= |data|
    ensures Drain(lib, s, data) == Drain(lib, t, data[take..])
    ensures SessionInv(lib, fed + data[..take], t)
  {
    if s.state == RECEIVING_IMAGE_PREFIX {
      take, t := PrefixPiece(lib, fed, s, data);
    } else {
      take, t := HeaderPiece(lib, fed, s, data);
    }
  }

  lemma HeaderPiece(lib: Library, fed: seq<byte>, s: Session, data: seq<byte>) returns (take: nat, t: Session)
    requires lib.Sane() && SessionInv(lib, fed, s) && data != []
    requires s.state == IDLE || s.state == RECEIVING_HEADER
    ensures 0 < take <= |data|
    ensures Drain(lib, s, data) == Drain(lib, t, data[take..])
    ensures SessionInv(lib, fed + data[..take], t)
  {
    hide AcceptHeader, StartImage, WriteData, Installable, HeaderTaken, ImageStarted;
    take := Min(|data|, FP.HEADER_SIZE - |s.packageHeader|);
    t := s.(packageHeader := s.packageHeader + data[..take]);
    if |t.packageHeader| == FP.HEADER_SIZE {
      AcceptHeaderKeeps(lib, fed + data[..take], t);
      t := AcceptHeader(lib, t);
    }
  }

  lemma PrefixPiece(lib: Library, fed: seq<byte>, s: Session, data: seq<byte>) returns (take: nat, t: Session)
    requires lib.Sane() && SessionInv(lib, fed, s) && data != []
    requires s.state == RECEIVING_IMAGE_PREFIX
    ensures 0 < take <= |data|
    ensures Drain(lib, s, data) == Drain(lib, t, data[take..])
    ensures SessionInv(lib, fed + data[..take], t)
  {
    hide AcceptHeader, StartImage, WriteData, Installable, ImageStarted;
    take := Min(|data|, lib.imagePrefixSize - |s.imagePrefix|);
    t := s.(imagePrefix := s.imagePrefix + data[..take]);
    assert (fed + data[..take])[FP.HEADER_SIZE..] == fed[FP.HEADER_SIZE..] + data[..take];
    assert (fed + data[..take])[..FP.HEADER_SIZE] == fed[..FP.HEADER_SIZE];
    if |t.imagePrefix| == lib.imagePrefixSize {
      StartImageKeeps(lib, fed + data[..take], t);
      t := StartImage(lib, t);
    }
  }

  /** Data after a completed upload is one byte too many. */
  lemma ReadyRefusesData(lib: Library, fed: seq<byte>, s: Session, data: seq<byte>)
    requires SessionInv(lib, fed, s) && s.state == READY_TO_REBOOT && data != []
    ensures WriteData(lib, s, data) == Fail(s, ImageLargerThanDeclared)
  {
  }

  lemma ConsumeKeeps(lib: Library, fed: seq<byte>, u: Upload, data: seq<byte>)
    requires lib.Sane() && Inv(lib, fed, u)
    ensures Inv(lib, fed + data, Consume(lib, u, data))
  {
    hide Drain, SessionInv;
    if data == [] {
      assert fed + data == fed;
    } else if u.Failed() || |data| > U32_MAX - u.packageBytesReceived {
      FailKeeps(lib, fed, fed + data, u.session);
    } else {
      DrainKeeps(lib, fed, u.session, data);
    }
  }

  lemma FailKeeps(lib: Library, fed: seq<byte>, more: seq<byte>, s: Session)
    requires SessionInv(lib, fed, s)
    ensures s.Failed() ==> SessionInv(lib, more, s)
    ensures forall r :: SessionInv(lib, more, Fail(s, r))
  {
  }

  lemma FinishKeeps(lib: Library, fed: seq<byte>, u: Upload)
    requires Inv(lib, fed, u)
    ensures Inv(lib, fed, Finish(lib, u))
  {
    hide Installable;
  }

  /** The calls the web server makes, in any order. */
  datatype Call = Start(freeHeap: nat, largestBlock: nat) | Feed(data: seq<byte>) | Complete | Abort(text: string) | Release

  const MIN_FREE_HEAP_TO_START := 50 * 1024
  const MIN_LARGEST_BLOCK_TO_START := 24 * 1024

  /** otaUploadStart. */
  function Open(u: Upload, freeHeap: nat, largestBlock: nat): Upload {
    if u.session.active then u
    else
      var s := Reset(u.session);
      Upload(0, if freeHeap < MIN_FREE_HEAP_TO_START then Fail(s, InsufficientFreeHeap)
                else if largestBlock < MIN_LARGEST_BLOCK_TO_START then Fail(s, LargestHeapBlockTooSmall)
                else s)
  }

  function Perform(lib: Library, u: Upload, call: Call): Upload {
    match call
    case Start(free, largest) => Open(u, free, largest)
    case Feed(data) => Consume(lib, u, data)
    case Complete => Finish(lib, u)
    case Abort(text) =>
      if u.session.state == READY_TO_REBOOT then u else u.(session := Fail(u.session, Aborted(text)))
    case Release => if u.Failed() then u.(session := u.session.(active := false)) else u
  }

  /** The constants of one build and the one digest; everything else is how the libraries
      answer during one upload. */
  ghost predicate SameBuild(a: Library, b: Library) {
    && a.version == b.version && a.minAllowedVersion == b.minAllowedVersion && a.hardware == b.hardware
    && a.imagePrefixSize == b.imagePrefixSize && a.decodeImageHeader == b.decodeImageHeader && a.sha256 == b.sha256
  }

  /** A call, and how the libraries answer from it on if it opens an upload: a fault that
      ends one attempt may be gone at the next. */
  datatype Occurrence = Occurrence(call: Call, lib: Library)

  ghost predicate OneBuild(lib: Library, os: seq<Occurrence>) {
    forall k :: 0 <= k < |os| ==> SameBuild(lib, os[k].lib)
  }

  /** An upload under way: its libraries, the bytes fed since it was opened, its state. */
  datatype Run = Run(lib: Library, fed: seq<byte>, u: Upload)

  function Advance(r: Run, o: Occurrence): Run {
    match o.call
    case Start(free, largest) =>
      if r.u.session.active then r else Run(o.lib, [], Open(r.u, free, largest))
    case Feed(data) => r.(fed := r.fed + data, u := Perform(r.lib, r.u, o.call))
    case _ => r.(u := Perform(r.lib, r.u, o.call))
  }

  function AdvanceAll(r: Run, os: seq<Occurrence>): Run
    decreases |os|
  {
    if os == [] then r else AdvanceAll(Advance(r, os[0]), os[1..])
  }

  /** Soundness over every run: whatever calls are made and whatever failed in earlier
      uploads, the invariant holds between calls, so READY_TO_REBOOT is only ever reached
      with the flash holding exactly the package bytes after the header, of the declared
      size and hash and an allowed version. */
  lemma {:induction false} EveryRunKeepsInv(r: Run, os: seq<Occurrence>)
    requires r.lib.Sane() && OneBuild(r.lib, os) && Inv(r.lib, r.fed, r.u)
    ensures var t := AdvanceAll(r, os); SameBuild(r.lib, t.lib) && Inv(t.lib, t.fed, t.u)
    decreases |os|
  {
    hide Inv, Advance;
    if os != [] {
      assert SameBuild(r.lib, os[0].lib);
      AdvanceKeeps(r, os[0]);
      EveryRunKeepsInv(Advance(r, os[0]), os[1..]);
    }
  }

  lemma AdvanceKeeps(r: Run, o: Occurrence)
    requires r.lib.Sane() && SameBuild(r.lib, o.lib) && Inv(r.lib, r.fed, r.u)
    ensures var t := Advance(r, o); t.lib.Sane() && SameBuild(r.lib, t.lib) && Inv(t.lib, t.fed, t.u)
  {
    hide Consume, Finish, SessionInv;
    match o.call
    case Start(free, largest) => if !r.u.session.active { OpenKeeps(o.lib, r.u, free, largest); }
    case Feed(data) => ConsumeKeeps(r.lib, r.fed, r.u, data);
    case Complete => FinishKeeps(r.lib, r.fed, r.u);
    case _ =>
      FailKeeps(r.lib, r.fed, r.fed, r.u.session);
      ReleaseKeeps(r.lib, r.fed, r.u.session);
  }

  /** A newly opened upload has consulted no library yet. */
  lemma OpenKeeps(lib: Library, u: Upload, free: nat, largest: nat)
    requires !u.session.active
    ensures Inv(lib, [], Open(u, free, largest))
  {
  }

  lemma ReleaseKeeps(lib: Library, fed: seq<byte>, s: Session)
    requires SessionInv(lib, fed, s)
    ensures SessionInv(lib, fed, s.(active := false))
  {
  }

  /** The boot partition changes only in the call that reaches READY_TO_REBOOT. */
  lemma BootSelectedOnlyWhenReady(lib: Library, fed: seq<byte>, u: Upload, call: Call)
    requires lib.Sane() && Inv(lib, fed, u) && !u.session.bootSelected
    ensures Perform(lib, u, call).session.bootSelected ==>
              && call == Complete
              && Perform(lib, u, call).session.state == READY_TO_REBOOT
  {
    hide Drain;
    if call.Feed? {
      DrainKeepsBoot(lib, u.session, call.data);
    }
  }

  lemma {:induction false} DrainKeepsBoot(lib: Library, s: Session, data: seq<byte>)
    ensures Drain(lib, s, data).bootSelected == s.bootSelected
    decreases |data|
  {
    hide AcceptHeader, StartImage, WriteData;
    if data == [] || s.Failed() {
    } else if |s.packageHeader| < FP.HEADER_SIZE {
      var take := Min(|data|, FP.HEADER_SIZE - |s.packageHeader|);
      var t := s.(packageHeader := s.packageHeader + data[..take]);
      PiecesKeepBoot(lib, t, data);
      DrainKeepsBoot(lib, if |t.packageHeader| == FP.HEADER_SIZE then AcceptHeader(lib, t) else t, data[take..]);
    } else if |s.imagePrefix| < lib.imagePrefixSize {
      var take := Min(|data|, lib.imagePrefixSize - |s.imagePrefix|);
      var t := s.(imagePrefix := s.imagePrefix + data[..take]);
      PiecesKeepBoot(lib, t, data);
      DrainKeepsBoot(lib, if |t.imagePrefix| == lib.imagePrefixSize then StartImage(lib, t) else t, data[take..]);
    } else {
      PiecesKeepBoot(lib, s, data);
    }
  }

  lemma PiecesKeepBoot(lib: Library, s: Session, data: seq<byte>)
    ensures |s.packageHeader| == FP.HEADER_SIZE ==> AcceptHeader(lib, s).bootSelected == s.bootSelected
    ensures StartImage(lib, s).bootSelected == s.bootSelected
    ensures WriteData(lib, s, data).bootSelected == s.bootSelected
  {
    hide StartImage, WriteData, FP.Verdict, FP.Fields;
    StartKeepsBoot(lib, s);
    WriteKeepsBoot(lib, s, data);
  }

  lemma StartKeepsBoot(lib: Library, s: Session)
    ensures StartImage(lib, s).bootSelected == s.bootSelected
  {
    hide WriteData;
    WriteKeepsBoot(lib, BeginWrite(lib, s), BeginWrite(lib, s).imagePrefix);
  }

  lemma WriteKeepsBoot(lib: Library, s: Session, data: seq<byte>)
    ensures WriteData(lib, s, data).bootSelected == s.bootSelected
  {
  }

  // The verdict of a whole upload, as a property of its bytes.

  /** A package this build installs when nothing in the libraries goes wrong. */
  ghost predicate GoodPackage(lib: Library, fed: seq<byte>) {
    && FP.HEADER_SIZE <= |fed| <= U32_MAX
    && Installable(lib, fed[..FP.HEADER_SIZE])
    && |fed| == FP.HEADER_SIZE + FP.Fields(fed[..FP.HEADER_SIZE]).imageSize
    && ImageHeaderComplaint(lib.decodeImageHeader(fed[FP.HEADER_SIZE..FP.HEADER_SIZE + lib.imagePrefixSize])) == NoReason
    && lib.sha256(fed[FP.HEADER_SIZE..]) == FP.Fields(fed[..FP.HEADER_SIZE]).imageSha256
  }

  ghost predicate LibraryWorks(lib: Library, imageSize: nat) {
    && lib.shaStartOk && lib.otaBeginOk && lib.shaFinishOk && lib.otaEndOk && lib.setBootOk
    && lib.HashAccepts(0, imageSize) && lib.FlashAccepts(0, imageSize)
  }

  /** An upload that starts fresh and then finishes is accepted exactly when its bytes are
      a good package and no library call fails, however the bytes were cut into chunks. */
  lemma UploadVerdict(lib: Library, s: Session, chunks: seq<seq<byte>>)
    requires lib.Sane()
    ensures var fed := Flatten(chunks);
            Finish(lib, ConsumeAll(lib, Upload(0, Reset(s)), chunks)).session.state == READY_TO_REBOOT
            <==> GoodPackage(lib, fed) && LibraryWorks(lib, |fed| - FP.HEADER_SIZE)
  {
    hide Consume, Finish, GoodPackage, LibraryWorks;
    var u0, fed := Upload(0, Reset(s)), Flatten(chunks);
    ChunkIndependence(lib, u0, chunks);
    ChunkIndependence(lib, u0, [fed]);
    assert Flatten([fed]) == fed + Flatten([]) == fed;
    assert ConsumeAll(lib, u0, [fed]) == Consume(lib, u0, fed) by {
      assert ConsumeAll(lib, Consume(lib, u0, fed), [fed][1..]) == Consume(lib, u0, fed);
    }
    WholeUploadVerdict(lib, s, fed);
  }

  lemma WholeUploadVerdict(lib: Library, s: Session, fed: seq<byte>)
    requires lib.Sane()
    ensures Finish(lib, Consume(lib, Upload(0, Reset(s)), fed)).session.state == READY_TO_REBOOT
            <==> GoodPackage(lib, fed) && LibraryWorks(lib, |fed| - FP.HEADER_SIZE)
  {
    hide Installable, Drain;
    var u0 := Upload(0, Reset(s));
    var u := Consume(lib, u0, fed);
    assert Inv(lib, [], u0);
    ConsumeKeeps(lib, [], u0, fed);
    assert [] + fed == fed;
    FinishKeeps(lib, fed, u);
    if GoodPackage(lib, fed) && LibraryWorks(lib, |fed| - FP.HEADER_SIZE) {
      GoodPackageDrains(lib, Reset(s), fed);
    }
  }

  lemma GoodPackageDrains(lib: Library, s: Session, fed: seq<byte>)
    requires lib.Sane() && SessionInv(lib, [], s) && s.state == RECEIVING_HEADER
    requires GoodPackage(lib, fed) && LibraryWorks(lib, |fed| - FP.HEADER_SIZE)
    ensures Drain(lib, s, fed).state == WRITING
  {
    hide Installable, Drain, HeaderTaken, ImageStarted, StartImage, AcceptHeader;
    var h, p := FP.HEADER_SIZE, lib.imagePrefixSize;
    InstallableSize(lib, fed[..h]);
    var a := GoodHeaderDrains(lib, s, fed[..h]);
    var b := GoodPrefixDrains(lib, a, fed[..h], fed[h..h + p]);
    DrainSplit(lib, s, fed[..h], fed[h..]);
    DrainSplit(lib, a, fed[h..h + p], fed[h + p..]);
    assert fed[..h] + fed[h..] == fed && fed[h..h + p] + fed[h + p..] == fed[h..];
    assert lib.HashAccepts(p, |fed[h + p..]|) && lib.FlashAccepts(p, |fed[h + p..]|);
    assert fed[..h] + fed[h..h + p] == fed[..h + p];
    RestDrains(lib, fed[..h + p], b, fed[h + p..]);
  }

  lemma GoodHeaderDrains(lib: Library, s: Session, header: seq<byte>) returns (a: Session)
    requires lib.Sane() && SessionInv(lib, [], s) && s.state == RECEIVING_HEADER
    requires Installable(lib, header)
    ensures a == Drain(lib, s, header)
    ensures SessionInv(lib, header, a) && a.state == RECEIVING_IMAGE_PREFIX
  {
    hide Installable, AcceptHeader, StartImage, WriteData, HeaderTaken, ImageStarted;
    assert |header| == FP.HEADER_SIZE by { InstallableLength(lib, header); }
    var t := s.(packageHeader := header);
    assert s.packageHeader + header[..|header|] == header && header[|header|..] == [];
    AcceptHeaderKeeps(lib, header, t);
    AcceptedState(lib, t);
    a := AcceptHeader(lib, t);
  }

  lemma InstallableLength(lib: Library, header: seq<byte>)
    requires Installable(lib, header)
    ensures |header| == FP.HEADER_SIZE
  {
  }

  lemma GoodPrefixDrains(lib: Library, a: Session, header: seq<byte>, prefix: seq<byte>) returns (b: Session)
    requires lib.Sane() && SessionInv(lib, header, a) && a.state == RECEIVING_IMAGE_PREFIX
    requires |header| == FP.HEADER_SIZE && |prefix| == lib.imagePrefixSize
    requires ImageHeaderComplaint(lib.decodeImageHeader(prefix)) == NoReason && lib.shaStartOk && lib.otaBeginOk
    requires lib.HashAccepts(0, |prefix|) && lib.FlashAccepts(0, |prefix|)
    ensures b == Drain(lib, a, prefix)
    ensures SessionInv(lib, header + prefix, b) && b.state == WRITING && b.imageBytesReceived == |prefix|
    ensures b.parsedHeader == FP.Fields(header)
  {
    hide Installable, AcceptHeader, StartImage, WriteData, ImageStarted;
    assert a.imagePrefix == [] && header[..FP.HEADER_SIZE] == header;
    var t := a.(imagePrefix := prefix);
    assert a.imagePrefix + prefix[..|prefix|] == prefix && prefix[|prefix|..] == [];
    assert (header + prefix)[FP.HEADER_SIZE..] == prefix && (header + prefix)[..FP.HEADER_SIZE] == header;
    StartImageKeeps(lib, header + prefix, t);
    StartedState(lib, t);
    b := StartImage(lib, t);
  }

  lemma RestDrains(lib: Library, fed: seq<byte>, b: Session, rest: seq<byte>)
    requires SessionInv(lib, fed, b) && b.state == WRITING
    requires b.imageBytesReceived + |rest| <= b.parsedHeader.imageSize
    requires lib.HashAccepts(b.imageBytesReceived, |rest|) && lib.FlashAccepts(b.imageBytesReceived, |rest|)
    ensures Drain(lib, b, rest).state == WRITING
  {
  }

  lemma AcceptedState(lib: Library, s: Session)
    requires |s.packageHeader| == FP.HEADER_SIZE && !s.Failed()
    requires !AcceptHeader(lib, s).Failed()
    ensures AcceptHeader(lib, s).state == RECEIVING_IMAGE_PREFIX
  {
    hide FP.Verdict, FP.Fields;
  }

  lemma StartedState(lib: Library, s: Session)
    requires |s.imagePrefix| > 0 && !s.Failed()
    requires !StartImage(lib, s).Failed()
    ensures StartImage(lib, s).state == WRITING
    ensures StartImage(lib, s).imageBytesReceived == s.imageBytesReceived + |s.imagePrefix|
    ensures StartImage(lib, s).parsedHeader == s.parsedHeader
  {
  }

  // Opening an upload, and the check of the image's own header.

  /** A running upload is not disturbed by another start. Otherwise everything of the last
      one is forgotten, and the new one is open unless the heap is too small. */
  lemma OpenMeans(u: Upload, freeHeap: nat, largestBlock: nat)
    ensures var t := Open(u, freeHeap, largestBlock);
            if u.session.active then t == u
            else
              && t.session.active && t.packageBytesReceived == 0 && t.session.imageBytesReceived == 0
              && t.session.packageHeader == [] && t.session.imagePrefix == [] && !t.session.otaBegun && !t.session.sha256Active
              && t.session.state == (if freeHeap < 51_200 || largestBlock < 24_576 then FAILED else RECEIVING_HEADER)
              && t.session.reason == (if freeHeap < 51_200 then InsufficientFreeHeap
                                      else if largestBlock < 24_576 then LargestHeapBlockTooSmall else NoReason)
  {
  }

  /** An image is taken for one of this chip, of 1 to 16 segments and with its hash. */
  lemma ImageHeaderMeans(h: EspImageHeader)
    ensures ImageHeaderComplaint(h) == NoReason <==> h.magicOk && h.chipOk && 1 <= h.segmentCount <= 16 && h.hashAppended == 1
    ensures ImageHeaderComplaint(h) == BadEspImageMagic ==> !h.magicOk
    ensures ImageHeaderComplaint(h) == EspImageWrongChip ==> !h.chipOk
    ensures ImageHeaderComplaint(h) == BadEspSegmentCount ==> h.segmentCount == 0 || h.segmentCount > 16
    ensures ImageHeaderComplaint(h) == EspImageHashMissing ==> h.hashAppended != 1
  {
  }

  /** The reason of a refused package header names what is wrong with it. */
  lemma HeaderReasonMeans(lib: Library, s: Session)
    requires |s.packageHeader| == FP.HEADER_SIZE && s.reason == NoReason && !s.Failed()
    ensures var (t, h) := (AcceptHeader(lib, s), FP.Fields(s.packageHeader));
            && (t.Failed() <==> t.reason != NoReason)
            && (t.reason == NoInactiveOtaPartition <==> lib.partition == None)
            && (t.reason.BadPackageHeader? ==>
                  && lib.partition.Some? && t.reason.error != FP.NONE
                  && t.reason.error == FP.Verdict(s.packageHeader, FP.Expected(1, Some(lib.hardware), lib.partition.value)))
            && (t.reason == AlreadyUpToDate ==> h.firmwareVersion == lib.version)
            && (t.reason == VersionBelowMinimum ==> h.firmwareVersion < lib.minAllowedVersion)
            && (t.reason == ImageTooSmall ==> h.imageSize < lib.imagePrefixSize)
            && (!t.Failed() ==>
                  && FP.Verdict(s.packageHeader, FP.Expected(1, Some(lib.hardware), lib.partition.value)) == FP.NONE
                  && h.firmwareVersion != lib.version && h.firmwareVersion >= lib.minAllowedVersion
                  && h.imageSize >= lib.imagePrefixSize && t.parsedHeader == h && t.expectedImageBytes == h.imageSize)
  {
    hide FP.Verdict, FP.Fields, FP.DecideVersion;
    FP.VersionPolicy(lib.version, FP.Fields(s.packageHeader).firmwareVersion, lib.minAllowedVersion);
  }

  /** And so does that of a refused completion. */
  lemma FinishReasonMeans(lib: Library, u: Upload)
    requires !u.Failed() && u.session.reason == NoReason
    ensures var (s, t) := (u.session, Finish(lib, u).session);
            && (t.Failed() <==> t.reason != NoReason) && (!t.Failed() ==> t.state == READY_TO_REBOOT && t.bootSelected)
            && (t.reason == IncompleteUpload ==>
                  !s.otaBegun || |s.packageHeader| != 64 || |s.imagePrefix| != lib.imagePrefixSize)
            && (t.reason == ImageSizeMismatch ==>
                  s.imageBytesReceived != s.parsedHeader.imageSize || u.packageBytesReceived != 64 + s.parsedHeader.imageSize)
            && (t.reason == Sha256FinishFailed ==> !lib.shaFinishOk)
            && (t.reason == Sha256Mismatch ==> lib.sha256(s.hashInput) != s.parsedHeader.imageSha256)
            && (t.reason == OtaImageValidationFailed ==> !lib.otaEndOk)
            && (t.reason == SetBootPartitionFailed ==> !lib.setBootOk)
            && (t.Failed() ==> !t.otaBegun && !t.sha256Active && t.bootSelected == s.bootSelected)
  {
  }

  /** Beginning the image: what can be wrong with it, and that nothing stays open then. */
  lemma BeginReasonMeans(lib: Library, s: Session)
    requires !s.Failed() && s.reason == NoReason
    ensures var t := BeginWrite(lib, s);
            && (t.Failed() <==> t.reason != NoReason) && (t.Failed() ==> !t.otaBegun && !t.sha256Active)
            && (t.reason == Sha256InitFailed ==> !lib.shaStartOk) && (t.reason == OtaBeginFailed ==> lib.shaStartOk && !lib.otaBeginOk)
            && (!t.Failed() ==> t.otaBegun && t.sha256Active && t.state == WRITING && t.flash == [] && t.hashInput == [])
  {
  }
}
