/** The gateway's half of a worker update (deployToWorker and its transfer loop in
    main/src/worker_ota_manager.cpp) run against the worker's service: the two stay in
    lockstep, and a deployment succeeds in exactly the circumstances listed here. */
module WorkerTransfer {
  import opened Bytes
  import opened Seqs
  import opened WorkerOtaSpec
  import opened WorkerOta
  import FP = FirmwarePackage

  const CHUNK := 160
  const WORKER_OTA_SLOT_SIZE := 0x140000

  /** The value written for the chunk at `offset`: the offset, then up to 160 bytes. */
  function Piece(image: seq<byte>, offset: u32): (p: seq<byte>)
    requires offset < |image|
  {
    LeU32(offset) + image[offset..offset + Min(CHUNK, |image| - offset)]
  }

  function NextOffset(image: seq<byte>, offset: nat): nat
    requires offset < |image|
  {
    offset + Min(CHUNK, |image| - offset)
  }

  /** The worker has taken exactly the bytes the sender has sent. */
  ghost predicate Locked(lib: Library, s: Service, image: seq<byte>, offset: nat) {
    && Inv(lib, s) && s.target.Some?
    && s.header.imageSize == |image| && lib.imagePrefixSize <= |image|
    && s.imageBytesReceived == offset <= |image|
    && (offset == 0 ==> s.state == PREPARED && s.imagePrefix == [])
    && (offset > 0 ==> s.state == WRITING && s.flash == image[..offset])
  }

  /** The worker has given up, and nothing the loop still sends can match its offset. */
  ghost predicate Lost(lib: Library, s: Service, offset: nat) {
    Inv(lib, s) && s.state == FAILED && s.imageBytesReceived < offset
  }

  /** The first `offset` bytes are acceptable to the worker's image checks and libraries. */
  ghost predicate Streamable(lib: Library, image: seq<byte>, offset: nat) {
    && (offset > 0 ==> |image| >= lib.imagePrefixSize && lib.imageHeaderOk(image[..lib.imagePrefixSize])
                       && lib.shaStartOk && lib.otaBeginOk)
    && lib.HashAccepts(0, offset) && lib.FlashAccepts(0, offset)
  }

  lemma PieceParts(image: seq<byte>, offset: u32)
    requires offset < |image|
    ensures |Piece(image, offset)| >= 4 && FromLeU32(Piece(image, offset)[..4]) == offset
    ensures Piece(image, offset)[4..] == image[offset..NextOffset(image, offset)]
  {
    hide FromLeU32, LeU32;
    LeU32Inverse(offset);
    CutSecond(LeU32(offset), image[offset..NextOffset(image, offset)], 0);
  }

  lemma StreamableStep(lib: Library, image: seq<byte>, offset: nat, next: nat)
    requires 0 < offset <= next
    ensures Streamable(lib, image, next)
            <==> Streamable(lib, image, offset) && lib.HashAccepts(offset, next - offset) && lib.FlashAccepts(offset, next - offset)
  {
  }

  /** A chunk after the first: it goes straight to the open update. */
  lemma LaterChunk(lib: Library, s: Service, image: seq<byte>, offset: u32)
    requires lib.Sane() && 0 < offset < |image| && Locked(lib, s, image, offset) && Streamable(lib, image, offset)
    ensures var next := NextOffset(image, offset);
            var t := WriteImageBytes(lib, s, image[offset..next]).0;
            && (Streamable(lib, image, next) ==> Locked(lib, t, image, next) && t.header == s.header)
            && (!Streamable(lib, image, next) ==> Lost(lib, t, next))
  {
    hide Allowed, Begin;
    var next := NextOffset(image, offset);
    var data := image[offset..next];
    StreamableStep(lib, image, offset, next);
    AppendKeepsInv(lib, s, data);
    assert image[..offset] + data == image[..next];
  }

  /** The first chunk: it completes the prefix, opens the update, writes the prefix and
      then the rest of the chunk. */
  lemma FirstChunk(lib: Library, s: Service, image: seq<byte>)
    requires lib.Sane() && 0 < |image| && Locked(lib, s, image, 0)
    ensures var next := NextOffset(image, 0);
            var t := WriteImageBytes(lib, s, image[..next]).0;
            && (Streamable(lib, image, next) ==> Locked(lib, t, image, next) && t.header == s.header)
            && (!Streamable(lib, image, next) ==> Lost(lib, t, next))
  {
    hide Allowed, Begin, AppendOpen, Streamable;
    var P, next := lib.imagePrefixSize, NextOffset(image, 0);
    var data := image[..next];
    var t := s.(imagePrefix := image[..P]);
    assert s.imagePrefix + data[..P] == image[..P];
    WriteKeepsInv(lib, s, data);
    BeginKeepsInv(lib, t);
    var (b, begun) := Begin(lib, t);
    BeginVerdict(lib, t);
    if !begun {
      FirstBytes(lib, image, next);
    } else {
      PrefixWriteKeepsInv(lib, b) by { TargetMeansAllowed(lib, s); }
      FirstWrites(lib, b, image, next);
    }
  }

  lemma BeginVerdict(lib: Library, t: Service)
    requires t.target.Some?
    ensures Begin(lib, t).1 <==> lib.imageHeaderOk(t.imagePrefix) && lib.shaStartOk && lib.otaBeginOk
    ensures !Begin(lib, t).1 ==> Begin(lib, t).0.state == FAILED
  {
  }

  lemma FirstBytes(lib: Library, image: seq<byte>, next: nat)
    requires 0 < next && lib.imagePrefixSize <= |image|
    requires !(lib.imageHeaderOk(image[..lib.imagePrefixSize]) && lib.shaStartOk && lib.otaBeginOk)
    ensures !Streamable(lib, image, next)
  {
  }

  lemma FirstWrites(lib: Library, b: Service, image: seq<byte>, next: nat)
    requires lib.Sane() && lib.imagePrefixSize <= next <= |image| && b.otaBegun && b.state == WRITING
    requires b.imagePrefix == image[..lib.imagePrefixSize] && b.imageBytesReceived == 0 && b.flash == []
    requires lib.imageHeaderOk(b.imagePrefix) && lib.shaStartOk && lib.otaBeginOk
    ensures var (w, ok) := AppendOpen(lib, b, b.imagePrefix);
            var t := if ok then AppendOpen(lib, w, image[lib.imagePrefixSize..next]).0 else w;
            && (Streamable(lib, image, next) ==>
                  t.state == WRITING && t.imageBytesReceived == next && t.flash == image[..next]
                  && t.header == b.header && t.target == b.target)
            && (!Streamable(lib, image, next) ==> t.state == FAILED && t.imageBytesReceived < next)
  {
    var P := lib.imagePrefixSize;
    StreamableStep(lib, image, P, next);
    assert [] + b.imagePrefix == b.imagePrefix;
    assert image[..P] + image[P..next] == image[..next];
  }

  /** Each chunk's offset is the worker's count. The worker takes the whole chunk, or it
      fails for good. */
  lemma ChunkStep(lib: Library, s: Service, image: seq<byte>, offset: u32)
    requires lib.Sane() && offset < |image| && Locked(lib, s, image, offset) && Streamable(lib, image, offset)
    ensures var next := NextOffset(image, offset);
            var t := OnData(lib, s, Piece(image, offset));
            && (Streamable(lib, image, next) ==> Locked(lib, t, image, next) && t.header == s.header)
            && (!Streamable(lib, image, next) ==> Lost(lib, t, next))
  {
    hide WriteImageBytes, Locked, Lost, Streamable, Piece;
    PieceParts(image, offset);
    assert s.imageBytesReceived == offset by { LockedCount(lib, s, image, offset); }
    if offset == 0 {
      assert image[0..NextOffset(image, 0)] == image[..NextOffset(image, 0)];
      FirstChunk(lib, s, image);
    } else {
      LaterChunk(lib, s, image, offset);
    }
  }

  lemma LockedCount(lib: Library, s: Service, image: seq<byte>, offset: nat)
    requires Locked(lib, s, image, offset)
    ensures s.imageBytesReceived == offset && Inv(lib, s)
  {
  }

  /** Once lost, every later chunk carries an offset the worker refuses. */
  lemma LostStep(lib: Library, s: Service, image: seq<byte>, offset: u32)
    requires offset < |image| && Lost(lib, s, offset)
    ensures Lost(lib, OnData(lib, s, Piece(image, offset)), NextOffset(image, offset))
  {
    hide WriteImageBytes, Piece, Allowed;
    PieceParts(image, offset);
  }

  lemma LostStaysUnstreamable(lib: Library, image: seq<byte>, offset: nat, next: nat)
    requires 0 < offset <= next && !Streamable(lib, image, offset)
    ensures !Streamable(lib, image, next)
  {
  }

  // The whole deployment.

  /** What becomes of a write: answered, handled but its answer lost, or never arrived. */
  datatype Delivery = ANSWERED | UNANSWERED | LOST

  /** Whether the worker acknowledges the command that opens its update window, the
      connection comes up and the service is found; `info` tells for each of the three
      status reads whether a well-formed answer arrives; `data` is indexed by chunk. */
  datatype Link = Link(windowOpened: bool, connected: bool, serviceFound: bool,
                       info: nat -> bool, prepare: Delivery, data: nat -> Delivery, commit: Delivery)

  /** The file system: the package is opened three times, its header read at the first
      two; then it is positioned and read in chunks. */
  datatype Storage = Storage(opens: nat -> bool, readsHeader: nat -> bool, seeks: bool, readsChunk: nat -> bool)

  /** The stored package has a whole header that the gateway accepts. */
  ghost predicate Stored(file: seq<byte>) {
    |file| >= FP.HEADER_SIZE
    && FP.Verdict(file[..FP.HEADER_SIZE], FP.Expected(FP.ROLE_WORKER, None, WORKER_OTA_SLOT_SIZE)) == FP.NONE
  }

  /** The worker's build can take this package. */
  ghost predicate Suits(lib: Library, h: FP.Header) {
    && h.hardwareTarget == lib.hardware
    && FP.DecideVersion(lib.version, h.firmwareVersion, lib.minAllowedVersion) == FP.ALLOW
    && h.imageSize >= lib.imagePrefixSize
    && lib.partition.Some? && h.imageSize <= lib.partition.value
  }

  lemma PrepareStored(lib: Library, s: Service, file: seq<byte>)
    requires lib.Sane() && Inv(lib, s) && Stored(file)
    ensures var h := FP.Fields(file[..FP.HEADER_SIZE]);
            var t := Prepare(lib, s, [1] + file[..FP.HEADER_SIZE]);
            && Inv(lib, t) && t.boot == s.boot
            && (if Suits(lib, h) then t.state == PREPARED && t.header == h && t.target.Some? && t.imagePrefix == []
                                      && t.imageBytesReceived == 0
                else t.state == FAILED)
  {
    hide FP.Fields, FP.ReservedIsZero, Inv;
    PrepareKeepsInv(lib, s, [1] + file[..FP.HEADER_SIZE]);
    PrepareKeepsBoot(lib, s, [1] + file[..FP.HEADER_SIZE]);
    assert ([1] + file[..FP.HEADER_SIZE])[1..] == file[..FP.HEADER_SIZE];
  }

  function HeaderOf(file: seq<byte>): FP.Header
    requires |file| >= FP.HEADER_SIZE
  {
    FP.Fields(file[..FP.HEADER_SIZE])
  }

  /** The file is not cut short. */
  predicate Whole(file: seq<byte>) {
    |file| >= FP.HEADER_SIZE && |file| >= FP.HEADER_SIZE + HeaderOf(file).imageSize
  }

  /** The image a whole stored package carries. */
  function ImageOf(file: seq<byte>): seq<byte>
    requires Whole(file)
  {
    file[FP.HEADER_SIZE..FP.HEADER_SIZE + HeaderOf(file).imageSize]
  }

  ghost predicate AllAnswered(link: Link, size: nat) {
    forall k: nat :: CHUNK * k < size ==> link.data(k) == ANSWERED
  }

  ghost predicate AllRead(disk: Storage, size: nat) {
    disk.opens(2) && disk.seeks && forall k: nat :: CHUNK * k < size ==> disk.readsChunk(k)
  }

  /** The gateway could read the header and reach the worker. */
  predicate Reached(link: Link, disk: Storage) {
    disk.opens(0) && disk.readsHeader(0) && link.windowOpened && link.connected && link.serviceFound
  }

  /** The exchanges before the transfer. */
  predicate Prepared(link: Link, disk: Storage) {
    link.info(0) && disk.opens(1) && disk.readsHeader(1) && link.prepare == ANSWERED && link.info(1)
  }

  /** Every chunk of the image was sent and answered: the sender got to its commit. */
  ghost predicate Sent(lib: Library, file: seq<byte>, link: Link, disk: Storage) {
    && Stored(file)
    && Reached(link, disk) && Prepared(link, disk)
    && Suits(lib, HeaderOf(file))
    && Whole(file)
    && AllRead(disk, HeaderOf(file).imageSize) && AllAnswered(link, HeaderOf(file).imageSize)
  }

  /** The image checks out on the worker, which then selects it. */
  ghost predicate Installs(lib: Library, file: seq<byte>)
    requires Whole(file)
  {
    var image := ImageOf(file);
    && Streamable(lib, image, |image|)
    && lib.shaFinishOk && lib.sha256(image) == HeaderOf(file).imageSha256
    && lib.otaEndOk && lib.setBootOk
  }

  lemma CommitLocked(lib: Library, s: Service, image: seq<byte>)
    requires lib.Sane() && Locked(lib, s, image, |image|)
    ensures var t := Commit(lib, s);
            if lib.shaFinishOk && lib.sha256(image) == s.header.imageSha256 && lib.otaEndOk && lib.setBootOk
            then t.state == READY_TO_REBOOT && t.boot == Some(image)
            else t.state == FAILED && t.boot == s.boot
  {
    assert image[..|image|] == image;
  }

  lemma CommitLost(lib: Library, s: Service, offset: nat)
    requires Lost(lib, s, offset)
    ensures Commit(lib, s).state == FAILED && Commit(lib, s).boot == s.boot
  {
  }

  /** The transfer loop. It ends early only on a short or unreadable file or an unanswered
      write. When it gets to the end, the worker holds exactly the image or has failed. */
  method Transfer(service: WorkerOtaService, file: seq<byte>, link: Link, disk: Storage) returns (sent: bool)
    requires service.Valid() && Stored(file)
    requires service.View().state == PREPARED && service.View().target.Some? && service.View().imagePrefix == []
    requires service.View().imageBytesReceived == 0 && service.View().header == HeaderOf(file)
    requires HeaderOf(file).imageSize >= service.lib.imagePrefixSize
    modifies service, service.gImagePrefix
    ensures service.Valid() && service.boot == old(service.boot)
    ensures sent <==> Whole(file) && AllRead(disk, HeaderOf(file).imageSize) && AllAnswered(link, HeaderOf(file).imageSize)
    ensures sent ==>
              if Streamable(service.lib, ImageOf(file), |ImageOf(file)|)
              then Locked(service.lib, service.View(), ImageOf(file), |ImageOf(file)|) && service.gHeader == HeaderOf(file)
              else Lost(service.lib, service.View(), |ImageOf(file)|)
  {
    hide FP.Fields, FP.Verdict, OnData, Streamable, Locked, Lost, Piece;
    ghost var lib := service.lib;
    var header := FP.Fields(file[..FP.HEADER_SIZE]);
    var size := header.imageSize;
    ghost var whole := |file| >= FP.HEADER_SIZE + size;
    ghost var image := if whole then ImageOf(file) else [];
    var offset, k := 0, 0;
    if !disk.opens(2) || !disk.seeks { return false; }
    if whole { StartLocked(lib, service.View(), image); }
    while offset < size
      invariant service.Valid() && service.boot == old(service.boot) && service.lib == lib
      invariant 0 <= k && offset == Min(CHUNK * k, size) && FP.HEADER_SIZE + offset <= |file|
      invariant forall j: nat :: j < k ==> link.data(j) == ANSWERED && disk.readsChunk(j)
      invariant whole ==>
                  if Streamable(lib, image, offset)
                  then Locked(lib, service.View(), image, offset) && service.gHeader == header
                  else offset > 0 && Lost(lib, service.View(), offset)
      decreases size - offset
    {
      var want := Min(CHUNK, size - offset);
      var at := FP.HEADER_SIZE + offset;
      if |file| - at < want || !disk.readsChunk(k) { return false; }
      var chunk := LeU32(offset) + file[at..at + want];
      if whole {
        assert chunk == Piece(image, offset) by { ChunkIsPiece(file, offset); }
        if Streamable(lib, image, offset) {
          ChunkStep(lib, service.View(), image, offset);
        } else {
          LostStep(lib, service.View(), image, offset);
          LostStaysUnstreamable(lib, image, offset, NextOffset(image, offset));
        }
      }
      DataKeepsBoot(lib, service.View(), chunk);
      if link.data(k) == LOST { return false; }
      service.OnDataWrite(chunk);
      if link.data(k) == UNANSWERED { return false; }
      offset := offset + want;
      k := k + 1;
    }
    return true;
  }

  lemma StartLocked(lib: Library, s: Service, image: seq<byte>)
    requires lib.Sane() && Inv(lib, s) && s.state == PREPARED && s.imagePrefix == [] && s.target.Some?
    requires s.imageBytesReceived == 0 && s.header.imageSize == |image| && |image| >= lib.imagePrefixSize
    ensures Locked(lib, s, image, 0) && Streamable(lib, image, 0)
  {
  }

  lemma ChunkIsPiece(file: seq<byte>, offset: u32)
    requires Whole(file)
    requires offset < HeaderOf(file).imageSize
    ensures var at := FP.HEADER_SIZE + offset;
            LeU32(offset) + file[at..at + Min(CHUNK, HeaderOf(file).imageSize - offset)] == Piece(ImageOf(file), offset)
  {
    hide FP.Fields;
    var size := HeaderOf(file).imageSize;
    SliceOfSlice(file, FP.HEADER_SIZE, FP.HEADER_SIZE + size, offset, offset + Min(CHUNK, size - offset));
  }

  lemma DataKeepsBoot(lib: Library, s: Service, value: seq<byte>)
    requires |s.imagePrefix| <= lib.imagePrefixSize
    ensures OnData(lib, s, value).boot == s.boot
  {
    hide WriteImageBytes;
    if |value| >= 4 { WriteKeepsBoot(lib, s, value[4..]); }
  }

  /** What writeInfoValue answers. */
  datatype RemoteInfo = RemoteInfo(role: byte, state: State, error: Error, hardware: u16, version: u32, slotSize: u32)

  method ReadRemoteInfo(service: WorkerOtaService) returns (info: RemoteInfo)
    ensures info == RemoteInfo(FP.ROLE_WORKER, service.gState, service.gError, service.lib.hardware, service.lib.version,
                               if service.lib.partition.Some? then service.lib.partition.value else 0)
  {
    var slot := if service.lib.partition.Some? then service.lib.partition.value else 0;
    info := RemoteInfo(FP.ROLE_WORKER, service.gState, service.gError, service.lib.hardware, service.lib.version, slot);
  }

  /** deployToWorker up to the transfer: the gateway's own checks never refuse a package
      that suits the worker, and one that does not suit is refused by either side. */
  method Negotiate(service: WorkerOtaService, file: seq<byte>, header: FP.Header, link: Link, disk: Storage) returns (ok: bool)
    requires service.Valid() && Stored(file) && header == HeaderOf(file)
    modifies service, service.gImagePrefix
    ensures service.Valid() && service.boot == old(service.boot)
    ensures ok <==> Prepared(link, disk) && Suits(service.lib, header)
    ensures ok ==>
              && service.View().state == PREPARED && service.View().target.Some? && service.View().imagePrefix == []
              && service.View().imageBytesReceived == 0 && service.View().header == header
  {
    hide FP.Fields, FP.Verdict, Inv, Prepare, Commit;
    if !link.info(0) { return false; }
    var info := ReadRemoteInfo(service);
    if info.role != FP.ROLE_WORKER { return false; }
    if info.hardware != header.hardwareTarget { return false; }
    if header.firmwareVersion == info.version { return false; }
    if info.slotSize == 0 { return false; }
    if header.imageSize > info.slotSize { return false; }
    if !disk.opens(1) || !disk.readsHeader(1) { return false; }
    var command := [1] + file[..FP.HEADER_SIZE];
    PrepareStored(service.lib, service.View(), file);
    if link.prepare == LOST { return false; }
    service.OnControlWrite(command);
    if link.prepare == UNANSWERED { return false; }
    if !link.info(1) { return false; }
    info := ReadRemoteInfo(service);
    ok := info.state != FAILED;
  }

  method CommitAndCheck(service: WorkerOtaService, file: seq<byte>, link: Link) returns (ok: bool)
    requires service.Valid() && Stored(file) && Whole(file)
    requires if Streamable(service.lib, ImageOf(file), |ImageOf(file)|)
             then Locked(service.lib, service.View(), ImageOf(file), |ImageOf(file)|) && service.gHeader == HeaderOf(file)
             else Lost(service.lib, service.View(), |ImageOf(file)|)
    modifies service, service.gImagePrefix
    ensures service.Valid()
    ensures ok <==> Installs(service.lib, file) && link.commit == ANSWERED && link.info(2)
    ensures if Installs(service.lib, file) && link.commit != LOST
            then service.boot == Some(ImageOf(file)) && service.gState == READY_TO_REBOOT
            else service.boot == old(service.boot)
  {
    hide FP.Fields, FP.Verdict, Inv, Prepare, Commit, Streamable, Locked, Lost;
    if Streamable(service.lib, ImageOf(file), |ImageOf(file)|) {
      CommitLocked(service.lib, service.View(), ImageOf(file));
    } else {
      CommitLost(service.lib, service.View(), |ImageOf(file)|);
    }
    if link.commit == LOST { return false; }
    service.OnControlWrite([2]);
    if link.commit == UNANSWERED { return false; }
    if !link.info(2) { return false; }
    var info := ReadRemoteInfo(service);
    ok := info.state != FAILED && info.state == READY_TO_REBOOT;
  }

  /** loadStoredHeader and deployToWorker, ending with the disconnect, against a worker in
      any state. The gateway reports success exactly when everything listed in Sent and
      Installs held and the last two exchanges were answered; and the worker selects the
      image exactly when it could, or else selects nothing. */
  method Deploy(service: WorkerOtaService, file: seq<byte>, link: Link, disk: Storage) returns (ok: bool)
    requires service.Valid()
    modifies service, service.gImagePrefix
    ensures service.Valid()
    ensures ok <==> Sent(service.lib, file, link, disk) && Installs(service.lib, file) && link.commit == ANSWERED && link.info(2)
    ensures if Sent(service.lib, file, link, disk) && Installs(service.lib, file) && link.commit != LOST
            then service.boot == Some(ImageOf(file)) && service.gState == READY_TO_REBOOT
            else service.boot == old(service.boot)
  {
    hide FP.Fields, FP.Verdict, Inv, OnControl, Installs, Locked, Lost, AllAnswered, AllRead;
    if !disk.opens(0) || !disk.readsHeader(0) || |file| < FP.HEADER_SIZE { return false; }
    var error, header := FP.ParseHeader(file[..FP.HEADER_SIZE], FP.Expected(FP.ROLE_WORKER, None, WORKER_OTA_SLOT_SIZE), FP.NO_HEADER);
    if error != FP.NONE { return false; }
    if !link.windowOpened || !link.connected { return false; }
    ok := false;
    if link.serviceFound {
      ok := Negotiate(service, file, header, link, disk);
      if ok {
        ok := Transfer(service, file, link, disk);
        if ok { ok := CommitAndCheck(service, file, link); }
      }
    }
    service.OnDisconnected();
  }

  /** What the packager writes for a worker image is such a stored package, and is whole. */
  lemma PackagedIsStored(h: FP.Header, image: seq<byte>)
    requires |h.imageSha256| == FP.SHA_SIZE && h.imageSize == |image| && 0 < |image| <= WORKER_OTA_SLOT_SIZE
    requires h.formatVersion == 1 && h.headerSize == 64 && h.role == FP.ROLE_WORKER && h.chip == FP.CHIP_ESP32_C3
    requires h.firmwareVersion != 0
    ensures var file := FP.Build(h) + image; Stored(file) && Whole(file) && HeaderOf(file) == h && ImageOf(file) == image
  {
    hide FP.Build, FP.Fields;
    FP.FieldsOfBuild(h);
    var file := FP.Build(h) + image;
    assert file[..FP.HEADER_SIZE] == FP.Build(h);
    assert file[FP.HEADER_SIZE..FP.HEADER_SIZE + |image|] == image;
  }
}
