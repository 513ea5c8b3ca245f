/** The worker's side of a firmware transfer (worker/src/worker_ota_service.cpp) as
    functions of the service state: the specification of the class in WorkerOta. */
module WorkerOtaSpec {
  import opened Bytes
  import FP = FirmwarePackage

  datatype State = IDLE | PREPARED | WRITING | VERIFYING | READY_TO_REBOOT | FAILED

  datatype Error =
    | NONE | BAD_COMMAND | BAD_HEADER | WRONG_HARDWARE | ALREADY_UP_TO_DATE | NO_PARTITION | TOO_LARGE | BAD_IMAGE
    | BAD_OFFSET | WRITE_FAILED | HASH_MISMATCH | VALIDATION_FAILED | SET_BOOT_FAILED | ABORTED | VERSION_BELOW_MINIMUM

  /** Build constants and library answers. `imageHeaderOk` is the check of magic, chip,
      segment count and appended hash; hash updates and flash writes may fail at
      particular image positions. */
  datatype Library = Library(
    version: u32, minAllowedVersion: u32, hardware: u16,
    imagePrefixSize: nat, imageHeaderOk: seq<byte> -> bool,
    partition: Option<u32>,
    shaStartOk: bool, otaBeginOk: bool,
    shaPositionOk: nat -> bool, flashPositionOk: nat -> bool,
    sha256: seq<byte> -> seq<byte>,
    shaFinishOk: bool, otaEndOk: bool, setBootOk: bool)
  {
    /** The prefix fits the sender's 160-byte chunk. */
    ghost predicate Sane() {
      0 < imagePrefixSize <= 160 && 0 < minAllowedVersion <= version
    }

    predicate HashAccepts(from: nat, len: nat) {
      forall i :: from <= i < from + len ==> shaPositionOk(i)
    }

    predicate FlashAccepts(from: nat, len: nat) {
      forall i :: from <= i < from + len ==> flashPositionOk(i)
    }
  }

  /** `boot` is what the last successful esp_ota_set_boot_partition selected. */
  datatype Service = Service(
    state: State, error: Error, header: FP.Header,
    imagePrefix: seq<byte>, imageBytesReceived: nat, target: Option<u32>,
    otaBegun: bool, sha256Active: bool, flash: seq<byte>, hashInput: seq<byte>, boot: Option<seq<byte>>)

  function Fail(s: Service, error: Error): Service {
    s.(state := FAILED, error := error, otaBegun := false, sha256Active := false)
  }

  function Reset(s: Service): Service {
    s.(state := IDLE, error := NONE, header := FP.NO_HEADER, imagePrefix := [], imageBytesReceived := 0,
       target := None, otaBegun := false, sha256Active := false)
  }

  // Preparing.

  function ParsePackageHeader(lib: Library, data: seq<byte>): (r: (bool, Option<FP.Header>))
    requires |data| == FP.HEADER_SIZE
  {
    if data[..8] != FP.MAGIC then (false, None)
    else
      var h := FP.Fields(data);
      if h.formatVersion != FP.FORMAT_VERSION || h.headerSize != FP.HEADER_SIZE then (false, None)
      else if !FP.ReservedIsZero(data) then (false, Some(h))
      else
        (h.role == FP.ROLE_WORKER && h.chip == FP.CHIP_ESP32_C3 && h.firmwareVersion != 0
         && h.imageSize >= lib.imagePrefixSize, Some(h))
  }

  function Prepare(lib: Library, s: Service, command: seq<byte>): Service {
    if |command| != 1 + FP.HEADER_SIZE then Fail(s, BAD_COMMAND)
    else
      var (ok, h) := ParsePackageHeader(lib, command[1..]);
      var t := if h.Some? then Reset(s).(header := h.value) else Reset(s);
      if !ok then Fail(t, BAD_HEADER)
      else if t.header.hardwareTarget != lib.hardware then Fail(t, WRONG_HARDWARE)
      else
        var decision := FP.DecideVersion(lib.version, t.header.firmwareVersion, lib.minAllowedVersion);
        if decision == FP.ALREADY_INSTALLED then Fail(t, ALREADY_UP_TO_DATE)
        else if decision == FP.BELOW_MINIMUM then Fail(t, VERSION_BELOW_MINIMUM)
        else if lib.partition.None? then Fail(t, NO_PARTITION)
        else
          var p := t.(target := lib.partition);
          if p.header.imageSize > p.target.value then Fail(p, TOO_LARGE) else p.(state := PREPARED)
  }

  // Image data.

  /** beginImageWriteIfReady once the prefix is complete. esp_ota_begin refuses a null
      partition. */
  function Begin(lib: Library, s: Service): (r: (Service, bool)) {
    if !lib.imageHeaderOk(s.imagePrefix) then (Fail(s, BAD_IMAGE), false)
    else if !lib.shaStartOk then (Fail(s.(hashInput := []), BAD_IMAGE), false)
    else if s.target.None? || !lib.otaBeginOk then (Fail(s.(hashInput := []), WRITE_FAILED), false)
    else (s.(hashInput := [], flash := [], sha256Active := true, otaBegun := true, state := WRITING, error := NONE), true)
  }

  /** The last part of writeImageBytes: no size check of its own, and silently nothing
      when no update is open. */
  function AppendOpen(lib: Library, s: Service, data: seq<byte>): (Service, bool) {
    if data == [] || !s.otaBegun then (s, true)
    else if !lib.HashAccepts(s.imageBytesReceived, |data|) then (Fail(s, WRITE_FAILED), false)
    else if !lib.FlashAccepts(s.imageBytesReceived, |data|) then
      (Fail(s.(hashInput := s.hashInput + data), WRITE_FAILED), false)
    else
      (s.(hashInput := s.hashInput + data, flash := s.flash + data,
          imageBytesReceived := s.imageBytesReceived + |data|), true)
  }

  function Min(a: int, b: int): int {
    if a < b then a else b
  }

  /** writeImageBytes; completing the prefix calls it again for the prefix itself. */
  function WriteImageBytes(lib: Library, s: Service, data: seq<byte>): (Service, bool)
    requires |s.imagePrefix| <= lib.imagePrefixSize
    decreases lib.imagePrefixSize - |s.imagePrefix|
  {
    if data == [] then (s, true)
    else if s.imageBytesReceived > s.header.imageSize || |data| > s.header.imageSize - s.imageBytesReceived then
      (Fail(s, BAD_OFFSET), false)
    else if |s.imagePrefix| == lib.imagePrefixSize then AppendOpen(lib, s, data)
    else
      var take := Min(|data|, lib.imagePrefixSize - |s.imagePrefix|);
      var t := s.(imagePrefix := s.imagePrefix + data[..take]);
      if |t.imagePrefix| < lib.imagePrefixSize then (t, true)
      else
        var (b, begun) := if t.otaBegun then (t, true) else Begin(lib, t);
        if !begun then (b, false)
        else
          var (w, written) := if |b.imagePrefix| == lib.imagePrefixSize then WriteImageBytes(lib, b, b.imagePrefix)
                              else (b, true);
          if !written then (w, false) else AppendOpen(lib, w, data[take..])
  }

  function OnData(lib: Library, s: Service, value: seq<byte>): Service
    requires |s.imagePrefix| <= lib.imagePrefixSize
  {
    if |value| < 4 then Fail(s, BAD_COMMAND)
    else if FromLeU32(value[..4]) != s.imageBytesReceived then Fail(s, BAD_OFFSET)
    else WriteImageBytes(lib, s, value[4..]).0
  }

  // Finishing.

  function Commit(lib: Library, s: Service): Service {
    if !s.otaBegun || s.imageBytesReceived != s.header.imageSize then Fail(s, BAD_OFFSET)
    else if !lib.shaFinishOk then Fail(s, VALIDATION_FAILED)
    else if lib.sha256(s.hashInput) != s.header.imageSha256 then Fail(s, HASH_MISMATCH)
    else if !lib.otaEndOk then Fail(s, VALIDATION_FAILED)
    else if !lib.setBootOk then Fail(s, SET_BOOT_FAILED)
    else s.(state := READY_TO_REBOOT, error := NONE, otaBegun := false, sha256Active := false, boot := Some(s.flash))
  }

  function OnControl(lib: Library, s: Service, value: seq<byte>): Service {
    if value == [] then Fail(s, BAD_COMMAND)
    else if value[0] == 1 then Prepare(lib, s, value)
    else if value[0] == 2 then Commit(lib, s)
    else if value[0] == 3 then Fail(s, ABORTED)
    else Fail(s, BAD_COMMAND)
  }

  function OnDisconnect(s: Service): Service {
    if s.state == PREPARED || s.state == WRITING || s.state == VERIFYING then Fail(s, ABORTED) else s
  }

  // What holds whoever is sending.

  /** A header this build may install. */
  ghost predicate Allowed(lib: Library, h: FP.Header) {
    && h.role == FP.ROLE_WORKER
    && h.hardwareTarget == lib.hardware
    && FP.DecideVersion(lib.version, h.firmwareVersion, lib.minAllowedVersion) == FP.ALLOW
    && h.imageSize >= lib.imagePrefixSize
  }

  ghost predicate Inv(lib: Library, s: Service) {
    && |s.imagePrefix| <= lib.imagePrefixSize
    && (s.otaBegun <==> s.state == WRITING)
    && (s.sha256Active <==> s.otaBegun)
    && s.state != VERIFYING
    && (s.target.Some? ==> Allowed(lib, s.header))
    && (|s.imagePrefix| < lib.imagePrefixSize ==> s.imageBytesReceived == 0 && !s.otaBegun)
    && (s.otaBegun ==>
          && s.target.Some?
          && |s.imagePrefix| == lib.imagePrefixSize
          && s.flash == s.hashInput && |s.flash| == s.imageBytesReceived
          && s.imagePrefix <= s.flash)
  }

  /** A service with nothing buffered and nothing open. */
  lemma QuietKeepsInv(lib: Library, s: Service)
    requires lib.Sane() && s.imagePrefix == [] && s.imageBytesReceived == 0 && !s.otaBegun && !s.sha256Active
    requires s.state != WRITING && s.state != VERIFYING && (s.target.Some? ==> Allowed(lib, s.header))
    ensures Inv(lib, s)
  {
  }

  lemma FailKeepsInv(lib: Library, s: Service, error: Error)
    requires Inv(lib, s)
    ensures Inv(lib, Fail(s, error))
  {
  }

  lemma PrepareKeepsInv(lib: Library, s: Service, command: seq<byte>)
    requires lib.Sane() && Inv(lib, s)
    ensures Inv(lib, Prepare(lib, s, command))
    ensures Prepare(lib, s, command).state == PREPARED ==>
              && Allowed(lib, Prepare(lib, s, command).header)
              && Prepare(lib, s, command).target.Some?
              && Prepare(lib, s, command).imagePrefix == []
  {
    hide FP.Fields, FP.ReservedIsZero, Inv;
    FailKeepsInv(lib, s, BAD_COMMAND);
    if |command| == 1 + FP.HEADER_SIZE {
      QuietKeepsInv(lib, Prepare(lib, s, command));
    }
  }

  lemma BeginKeepsInv(lib: Library, s: Service)
    requires lib.Sane() && |s.imagePrefix| == lib.imagePrefixSize && s.imageBytesReceived == 0
    requires !s.otaBegun && !s.sha256Active && s.state != WRITING && s.state != VERIFYING
    requires s.target.Some? ==> Allowed(lib, s.header)
    ensures var (b, ok) := Begin(lib, s);
            && (ok <==> b.otaBegun)
            && (ok <==> b.state == WRITING) && b.state != VERIFYING && (b.sha256Active <==> b.otaBegun)
            && b.imagePrefix == s.imagePrefix && b.imageBytesReceived == 0 && b.header == s.header && b.target == s.target
            && (ok ==> b.target.Some? && b.flash == [] && b.hashInput == [])
  {
  }

  lemma AppendKeepsInv(lib: Library, s: Service, data: seq<byte>)
    requires Inv(lib, s) && |s.imagePrefix| == lib.imagePrefixSize
    ensures Inv(lib, AppendOpen(lib, s, data).0)
  {
  }

  /** The first write of an opened update is its own prefix. */
  lemma PrefixWriteKeepsInv(lib: Library, b: Service)
    requires lib.Sane() && b.otaBegun && b.sha256Active && b.state == WRITING && b.target.Some? && Allowed(lib, b.header)
    requires |b.imagePrefix| == lib.imagePrefixSize && b.imageBytesReceived == 0 && b.flash == [] && b.hashInput == []
    ensures Inv(lib, AppendOpen(lib, b, b.imagePrefix).0)
    ensures WriteImageBytes(lib, b, b.imagePrefix) == AppendOpen(lib, b, b.imagePrefix)
    ensures AppendOpen(lib, b, b.imagePrefix).1 ==> AppendOpen(lib, b, b.imagePrefix).0.imageBytesReceived == lib.imagePrefixSize
  {
  }

  lemma WriteKeepsInv(lib: Library, s: Service, data: seq<byte>)
    requires lib.Sane() && Inv(lib, s)
    ensures Inv(lib, WriteImageBytes(lib, s, data).0)
  {
    hide Allowed, Begin, AppendOpen;
    if data != [] && s.imageBytesReceived <= s.header.imageSize && |data| <= s.header.imageSize - s.imageBytesReceived {
      if |s.imagePrefix| == lib.imagePrefixSize {
        AppendKeepsInv(lib, s, data);
      } else {
        var take := Min(|data|, lib.imagePrefixSize - |s.imagePrefix|);
        var t := s.(imagePrefix := s.imagePrefix + data[..take]);
        if |t.imagePrefix| == lib.imagePrefixSize {
          BeginKeepsInv(lib, t);
          var (b, begun) := Begin(lib, t);
          if begun {
            PrefixWriteKeepsInv(lib, b);
            var (w, written) := AppendOpen(lib, b, b.imagePrefix);
            if written {
              AppendFrame(lib, b, b.imagePrefix);
              AppendKeepsInv(lib, w, data[take..]);
            }
          }
        }
      }
    }
  }

  lemma AppendFrame(lib: Library, s: Service, data: seq<byte>)
    ensures var w := AppendOpen(lib, s, data).0;
            && w.imagePrefix == s.imagePrefix && w.header == s.header && w.boot == s.boot && w.target == s.target
            && (AppendOpen(lib, s, data).1 ==> w.otaBegun == s.otaBegun && w.state == s.state)
  {
  }

  datatype Event = Control(value: seq<byte>) | Data(value: seq<byte>) | Disconnect

  function Handle(lib: Library, s: Service, e: Event): Service
    requires |s.imagePrefix| <= lib.imagePrefixSize
  {
    match e
    case Control(value) => OnControl(lib, s, value)
    case Data(value) => OnData(lib, s, value)
    case Disconnect => OnDisconnect(s)
  }

  lemma HandleKeepsInv(lib: Library, s: Service, e: Event)
    requires lib.Sane() && Inv(lib, s)
    ensures Inv(lib, Handle(lib, s, e))
  {
    hide WriteImageBytes, Prepare, Allowed;
    match e
    case Control(value) =>
      PrepareKeepsInv(lib, s, value);
    case Data(value) =>
      if |value| >= 4 {
        WriteKeepsInv(lib, s, value[4..]);
      }
    case Disconnect =>
  }

  /** An event, and how the libraries answer while it is handled. */
  datatype Occurrence = Occurrence(lib: Library, event: Event)

  /** The constants of one build, and the one digest; answers may differ. */
  ghost predicate SameBuild(a: Library, b: Library) {
    && a.version == b.version && a.minAllowedVersion == b.minAllowedVersion && a.hardware == b.hardware
    && a.imagePrefixSize == b.imagePrefixSize && a.sha256 == b.sha256
  }

  ghost predicate OneBuild(lib: Library, os: seq<Occurrence>) {
    forall k :: 0 <= k < |os| ==> SameBuild(lib, os[k].lib)
  }

  /** The service over any sequence of events, from any sender, with libraries that may
      fail at one event and work at the next. */
  ghost function HandleAll(lib: Library, s: Service, os: seq<Occurrence>): (r: Service)
    requires lib.Sane() && Inv(lib, s) && OneBuild(lib, os)
    ensures Inv(lib, r)
    decreases |os|
  {
    if os == [] then s
    else
      HandleKeepsInv(os[0].lib, s, os[0].event);
      HandleAll(lib, Handle(os[0].lib, s, os[0].event), os[1..])
  }

  /** Whoever sends, whatever was sent before and whatever failed: a boot partition is
      selected only by a commit that finds exactly imageSize bytes written, hashing to the
      declared digest, under a header for this hardware with an allowed version. */
  lemma BootOnlyVerifiedImages(lib: Library, start: Service, os: seq<Occurrence>, now: Library, e: Event)
    requires lib.Sane() && Inv(lib, start) && OneBuild(lib, os) && SameBuild(lib, now)
    ensures var s := HandleAll(lib, start, os);
            var t := Handle(now, s, e);
            t.boot != s.boot ==>
              && e.Control? && e.value != [] && e.value[0] == 2
              && t.state == READY_TO_REBOOT
              && t.boot == Some(s.flash)
              && |s.flash| == s.header.imageSize
              && lib.sha256(s.flash) == s.header.imageSha256
              && Allowed(lib, s.header)
  {
    hide WriteImageBytes, Prepare, Allowed;
    var s := HandleAll(lib, start, os);
    match e
    case Control(value) => PrepareKeepsBoot(now, s, value);
    case Data(value) =>
      if |value| >= 4 {
        WriteKeepsBoot(now, s, value[4..]);
      }
    case Disconnect =>
  }

  lemma PrepareKeepsBoot(lib: Library, s: Service, command: seq<byte>)
    ensures Prepare(lib, s, command).boot == s.boot
  {
    hide FP.Fields, FP.ReservedIsZero;
  }

  lemma BeginFrame(lib: Library, s: Service)
    ensures Begin(lib, s).0.boot == s.boot && Begin(lib, s).0.imagePrefix == s.imagePrefix
  {
  }

  lemma {:induction false} WriteKeepsBoot(lib: Library, s: Service, data: seq<byte>)
    requires |s.imagePrefix| <= lib.imagePrefixSize
    ensures WriteImageBytes(lib, s, data).0.boot == s.boot
    decreases lib.imagePrefixSize - |s.imagePrefix|
  {
    hide Begin, AppendOpen;
    if data != [] {
      AppendFrame(lib, s, data);
      if |s.imagePrefix| < lib.imagePrefixSize {
        var take := Min(|data|, lib.imagePrefixSize - |s.imagePrefix|);
        var t := s.(imagePrefix := s.imagePrefix + data[..take]);
        BeginFrame(lib, t);
        var b := if t.otaBegun then t else Begin(lib, t).0;
        if |b.imagePrefix| == lib.imagePrefixSize {
          WriteKeepsBoot(lib, b, b.imagePrefix);
          AppendFrame(lib, WriteImageBytes(lib, b, b.imagePrefix).0, data[take..]);
        }
      }
    }
  }

  // The overrun that the service does not rule out.

  /** This chunk completes a prefix begun by an earlier one, the two together exceed the
      declared size, and the libraries take all of it. */
  predicate Overruns(lib: Library, s: Service, data: seq<byte>) {
    && |s.imagePrefix| < lib.imagePrefixSize
    && |data| <= s.header.imageSize < |s.imagePrefix| + |data|
    && s.target.Some? && lib.shaStartOk && lib.otaBeginOk
    && lib.imagePrefixSize <= s.header.imageSize && lib.imageHeaderOk((s.imagePrefix + data)[..lib.imagePrefixSize])
    && lib.HashAccepts(0, |s.imagePrefix| + |data|) && lib.FlashAccepts(0, |s.imagePrefix| + |data|)
  }

  /** A chunk that completes a prefix begun by an earlier chunk is checked against the
      declared size without the bytes already buffered, so the byte count can pass the
      declared size. It does so in exactly that case. */
  lemma OverrunIff(lib: Library, s: Service, data: seq<byte>)
    requires lib.Sane() && Inv(lib, s) && s.imageBytesReceived <= s.header.imageSize
    ensures WriteImageBytes(lib, s, data).0.imageBytesReceived > s.header.imageSize <==> Overruns(lib, s, data)
  {
    hide Allowed, Begin, AppendOpen, Overruns;
    if data == [] || |data| > s.header.imageSize - s.imageBytesReceived || |s.imagePrefix| == lib.imagePrefixSize {
      AppendCounts(lib, s, data);
      NoOverrun(lib, s, data);
    } else {
      var take := Min(|data|, lib.imagePrefixSize - |s.imagePrefix|);
      var t := s.(imagePrefix := s.imagePrefix + data[..take]);
      if |t.imagePrefix| < lib.imagePrefixSize {
        ShortOfPrefix(lib, s, data);
      } else {
        CompletingOverruns(lib, s, data, t, take);
      }
    }
  }

  lemma NoOverrun(lib: Library, s: Service, data: seq<byte>)
    requires Inv(lib, s)
    requires data == [] || |data| > s.header.imageSize - s.imageBytesReceived || |s.imagePrefix| == lib.imagePrefixSize
    ensures !Overruns(lib, s, data)
  {
    hide Allowed;
  }

  lemma ShortOfPrefix(lib: Library, s: Service, data: seq<byte>)
    requires |s.imagePrefix| + |data| < lib.imagePrefixSize
    ensures !Overruns(lib, s, data)
  {
  }

  lemma CompletingOverruns(lib: Library, s: Service, data: seq<byte>, t: Service, take: nat)
    requires lib.Sane() && Inv(lib, s) && data != [] && |data| <= s.header.imageSize
    requires |s.imagePrefix| < lib.imagePrefixSize && take == lib.imagePrefixSize - |s.imagePrefix| <= |data|
    requires t == s.(imagePrefix := s.imagePrefix + data[..take])
    ensures WriteImageBytes(lib, s, data).0.imageBytesReceived > s.header.imageSize <==> Overruns(lib, s, data)
  {
    hide Allowed, AppendOpen, Begin, Inv, Overruns, WriteImageBytes;
    BeginIff(lib, t);
    InvBasics(lib, s);
    BeginKeepsInv(lib, t);
    var (b, begun) := Begin(lib, t);
    CompletingWrite(lib, s, data, t, take);
    CompletingCondition(lib, s, data, t, take);
    if begun {
      AllowedSize(lib, b.header);
      CompletingCounts(lib, b, data[take..]);
      AcceptsSplit(lib, lib.imagePrefixSize, |data| - take);
    }
  }

  lemma InvBasics(lib: Library, s: Service)
    requires Inv(lib, s) && |s.imagePrefix| < lib.imagePrefixSize
    ensures s.imageBytesReceived == 0 && !s.otaBegun && !s.sha256Active && s.state != WRITING && s.state != VERIFYING
    ensures s.target.Some? ==> Allowed(lib, s.header)
  {
  }

  /** The condition, with the prefix split off. */
  lemma CompletingCondition(lib: Library, s: Service, data: seq<byte>, t: Service, take: nat)
    requires |s.imagePrefix| < lib.imagePrefixSize && take == lib.imagePrefixSize - |s.imagePrefix| <= |data| <= s.header.imageSize
    requires t == s.(imagePrefix := s.imagePrefix + data[..take])
    ensures Overruns(lib, s, data) <==>
            && lib.imagePrefixSize <= s.header.imageSize < |s.imagePrefix| + |data|
            && s.target.Some? && lib.shaStartOk && lib.otaBeginOk && lib.imageHeaderOk(t.imagePrefix)
            && lib.HashAccepts(0, |s.imagePrefix| + |data|) && lib.FlashAccepts(0, |s.imagePrefix| + |data|)
  {
    assert (s.imagePrefix + data)[..lib.imagePrefixSize] == t.imagePrefix;
  }

  lemma CompletingWrite(lib: Library, s: Service, data: seq<byte>, t: Service, take: nat)
    requires lib.Sane() && Inv(lib, s) && data != [] && |data| <= s.header.imageSize
    requires |s.imagePrefix| < lib.imagePrefixSize && take == lib.imagePrefixSize - |s.imagePrefix| <= |data|
    requires t == s.(imagePrefix := s.imagePrefix + data[..take])
    ensures var (b, begun) := Begin(lib, t);
            var (w, ok) := AppendOpen(lib, b, b.imagePrefix);
            WriteImageBytes(lib, s, data).0 == if !begun then b else if !ok then w else AppendOpen(lib, w, data[take..]).0
  {
    hide Allowed, AppendOpen, Begin, Inv;
    InvBasics(lib, s);
    BeginKeepsInv(lib, t);
    var (b, begun) := Begin(lib, t);
    if begun { PrefixWriteKeepsInv(lib, b); }
  }

  lemma CompletingCounts(lib: Library, b: Service, rest: seq<byte>)
    requires b.otaBegun && b.imageBytesReceived == 0 && b.imagePrefix != []
    ensures var (w, ok) := AppendOpen(lib, b, b.imagePrefix);
            (if ok then AppendOpen(lib, w, rest).0.imageBytesReceived else w.imageBytesReceived) ==
            if !ok then 0 else if rest == [] || (lib.HashAccepts(|b.imagePrefix|, |rest|) && lib.FlashAccepts(|b.imagePrefix|, |rest|))
            then |b.imagePrefix| + |rest| else |b.imagePrefix|
    ensures AppendOpen(lib, b, b.imagePrefix).1 <==> lib.HashAccepts(0, |b.imagePrefix|) && lib.FlashAccepts(0, |b.imagePrefix|)
  {
    hide AppendOpen;
    AppendCounts(lib, b, b.imagePrefix);
    AppendCounts(lib, AppendOpen(lib, b, b.imagePrefix).0, rest);
    AppendIff(lib, b, b.imagePrefix);
    if AppendOpen(lib, b, b.imagePrefix).1 { AppendIff(lib, AppendOpen(lib, b, b.imagePrefix).0, rest); }
  }

  lemma BeginIff(lib: Library, s: Service)
    ensures Begin(lib, s).1 <==> s.target.Some? && lib.imageHeaderOk(s.imagePrefix) && lib.shaStartOk && lib.otaBeginOk
  {
  }

  lemma AppendIff(lib: Library, s: Service, data: seq<byte>)
    requires s.otaBegun
    ensures AppendOpen(lib, s, data).1 <==>
            data == [] || (lib.HashAccepts(s.imageBytesReceived, |data|) && lib.FlashAccepts(s.imageBytesReceived, |data|))
  {
  }

  lemma AcceptsSplit(lib: Library, m: nat, n: nat)
    ensures lib.HashAccepts(0, m + n) <==> lib.HashAccepts(0, m) && (n == 0 || lib.HashAccepts(m, n))
    ensures lib.FlashAccepts(0, m + n) <==> lib.FlashAccepts(0, m) && (n == 0 || lib.FlashAccepts(m, n))
  {
  }

  lemma TargetMeansAllowed(lib: Library, s: Service)
    requires Inv(lib, s) && s.target.Some?
    ensures Allowed(lib, s.header)
  {
  }

  lemma AllowedSize(lib: Library, h: FP.Header)
    requires Allowed(lib, h)
    ensures h.imageSize >= lib.imagePrefixSize
  {
  }

  lemma AppendCounts(lib: Library, s: Service, data: seq<byte>)
    ensures var (w, ok) := AppendOpen(lib, s, data);
            && w.imageBytesReceived == s.imageBytesReceived + (if ok && s.otaBegun then |data| else 0)
            && (ok ==> w.otaBegun == s.otaBegun) && (!ok ==> !w.otaBegun)
  {
  }

  /** The overrun is reachable, and harmless: the commit that follows is refused. */
  lemma OverrunIsRefused(lib: Library, s: Service)
    requires s.imageBytesReceived > s.header.imageSize
    ensures Commit(lib, s).state == FAILED && Commit(lib, s).boot == s.boot
  {
  }

  lemma OverrunExample(lib: Library, s: Service, first: seq<byte>, second: seq<byte>)
    requires lib.Sane() && lib.imagePrefixSize == 24 && Inv(lib, s)
    requires s.state == PREPARED && s.imagePrefix == [] && s.target.Some? && s.header.imageSize == 24
    requires |first| == 20 && |second| == 24
    requires lib.imageHeaderOk(first + second[..4]) && lib.shaStartOk && lib.otaBeginOk
    requires lib.HashAccepts(0, 44) && lib.FlashAccepts(0, 44)
    ensures var a := OnData(lib, s, LeU32(0) + first);
            var b := OnData(lib, a, LeU32(0) + second);
            a.imageBytesReceived == 0 && b.state == WRITING && b.imageBytesReceived == 44 > b.header.imageSize
  {
    hide Allowed;
    LeU32Inverse(0);
    assert (LeU32(0) + first)[..4] == LeU32(0) && (LeU32(0) + first)[4..] == first;
    assert (LeU32(0) + second)[..4] == LeU32(0) && (LeU32(0) + second)[4..] == second;
    var a := s.(imagePrefix := first);
    assert [] + first[..20] == first;
    assert OnData(lib, s, LeU32(0) + first) == a;
    var t := a.(imagePrefix := first + second[..4]);
    var (b, begun) := Begin(lib, t);
    PrefixWriteKeepsInv(lib, b) by { assert Allowed(lib, b.header) by { TargetMeansAllowed(lib, s); } }
    var (w, ok) := AppendOpen(lib, b, b.imagePrefix);
    assert ok && w.imageBytesReceived == 24;
    assert lib.HashAccepts(24, 20) && lib.FlashAccepts(24, 20);
  }

  /** A range is taken by the hash, and by the flash, position by position. */
  lemma AcceptsMeans(lib: Library, from: nat, len: nat)
    ensures lib.HashAccepts(from, 0) && lib.FlashAccepts(from, 0)
    ensures lib.HashAccepts(from, len + 1) <==> lib.HashAccepts(from, len) && lib.shaPositionOk(from + len)
    ensures lib.FlashAccepts(from, len + 1) <==> lib.FlashAccepts(from, len) && lib.flashPositionOk(from + len)
  {
  }

  // What each write to the service does, told by its bytes.

  /** Data counts only with its four offset bytes and at the present count. */
  lemma OnDataMeans(lib: Library, s: Service, value: seq<byte>)
    requires |s.imagePrefix| <= lib.imagePrefixSize
    ensures |value| < 4 ==> OnData(lib, s, value) == Fail(s, BAD_COMMAND)
    ensures |value| >= 4 && LeValue(value[..4]) != s.imageBytesReceived ==> OnData(lib, s, value) == Fail(s, BAD_OFFSET)
    ensures |value| >= 4 && LeValue(value[..4]) == s.imageBytesReceived ==>
              OnData(lib, s, value) == WriteImageBytes(lib, s, value[4..]).0
  {
    hide WriteImageBytes;
    if |value| >= 4 { LeValueOf32(value[..4]); }
  }

  lemma PiecesTell(lib: Library, s: Service, data: seq<byte>)
    requires s.state != FAILED
    ensures Begin(lib, s).1 <==> Begin(lib, s).0.state != FAILED
    ensures AppendOpen(lib, s, data).1 <==> AppendOpen(lib, s, data).0.state != FAILED
  {
    hide Library.HashAccepts, Library.FlashAccepts;
  }

  lemma FullTells(lib: Library, s: Service, data: seq<byte>)
    requires |s.imagePrefix| == lib.imagePrefixSize && s.state != FAILED
    ensures WriteImageBytes(lib, s, data).1 <==> WriteImageBytes(lib, s, data).0.state != FAILED
  {
    hide Begin, AppendOpen;
    PiecesTell(lib, s, data);
  }

  /** What follows the completion of the prefix. */
  lemma CompletingTells(lib: Library, s: Service, data: seq<byte>, t: Service, take: nat)
    requires data != [] && s.imageBytesReceived + |data| <= s.header.imageSize && s.state != FAILED
    requires |s.imagePrefix| < lib.imagePrefixSize && take == lib.imagePrefixSize - |s.imagePrefix| <= |data|
    requires t == s.(imagePrefix := s.imagePrefix + data[..take])
    ensures WriteImageBytes(lib, s, data).1 <==> WriteImageBytes(lib, s, data).0.state != FAILED
  {
    hide Begin, AppendOpen;
    var (b, begun) := if t.otaBegun then (t, true) else Begin(lib, t);
    PiecesTell(lib, t, []);
    BeginFrame(lib, t);
    if begun {
      FullTells(lib, b, b.imagePrefix);
      var (w, written) := WriteImageBytes(lib, b, b.imagePrefix);
      assert WriteImageBytes(lib, s, data) == if !written then (w, false) else AppendOpen(lib, w, data[take..]);
      if written { PiecesTell(lib, w, data[take..]); }
    }
  }

  /** A write that is refused fails the update, and one that is taken does not. */
  lemma WriteTells(lib: Library, s: Service, data: seq<byte>)
    requires |s.imagePrefix| <= lib.imagePrefixSize && s.state != FAILED
    ensures WriteImageBytes(lib, s, data).1 <==> WriteImageBytes(lib, s, data).0.state != FAILED
  {
    hide Begin, AppendOpen;
    if |s.imagePrefix| == lib.imagePrefixSize {
      FullTells(lib, s, data);
    } else {
      var take := lib.imagePrefixSize - |s.imagePrefix|;
      if data != [] && s.imageBytesReceived + |data| <= s.header.imageSize && take <= |data| {
        CompletingTells(lib, s, data, s.(imagePrefix := s.imagePrefix + data[..take]), take);
      }
    }
  }

  /** An abort, an unknown or an empty command fails the update, and a disconnect only one
      in progress; none of them selects anything. */
  lemma EndingsMean(lib: Library, s: Service, value: seq<byte>)
    ensures value != [] && value[0] == 3 ==> OnControl(lib, s, value) == Fail(s, ABORTED)
    ensures value == [] || value[0] == 0 || value[0] > 3 ==> OnControl(lib, s, value) == Fail(s, BAD_COMMAND)
    ensures OnDisconnect(s).state == if s.state in {PREPARED, WRITING, VERIFYING} then FAILED else s.state
    ensures OnDisconnect(s).error == if s.state in {PREPARED, WRITING, VERIFYING} then ABORTED else s.error
    ensures OnDisconnect(s).boot == s.boot && OnDisconnect(s).flash == s.flash
    ensures var t := Fail(s, ABORTED); t.state == FAILED && t.error == ABORTED && !t.otaBegun && !t.sha256Active && t.boot == s.boot
  {
    hide Prepare, Commit;
  }

  /** The error of a refused preparation names what is wrong, and a preparation that is not
      refused has nothing wrong. */
  lemma PrepareErrorMeans(lib: Library, s: Service, command: seq<byte>)
    ensures var t := Prepare(lib, s, command);
            && (t.state == PREPARED || t.state == FAILED) && (t.state == PREPARED <==> t.error == NONE)
            && (t.error == BAD_COMMAND <==> |command| != 65)
            && (t.error == BAD_HEADER ==> |command| == 65 && !ParsePackageHeader(lib, command[1..]).0)
            && (t.error == WRONG_HARDWARE ==> t.header.hardwareTarget != lib.hardware)
            && (t.error == ALREADY_UP_TO_DATE ==> t.header.firmwareVersion == lib.version)
            && (t.error == VERSION_BELOW_MINIMUM ==> t.header.firmwareVersion < lib.minAllowedVersion)
            && (t.error == NO_PARTITION ==> lib.partition == None)
            && (t.error == TOO_LARGE ==> lib.partition.Some? && t.header.imageSize > lib.partition.value)
            && (t.state == PREPARED ==>
                  && |command| == 65 && t.header == FP.Fields(command[1..]) && t.target == lib.partition
                  && t.header.role == 2 && t.header.chip == 1 && t.header.hardwareTarget == lib.hardware
                  && t.header.firmwareVersion != lib.version && t.header.firmwareVersion >= lib.minAllowedVersion
                  && lib.partition.Some? && lib.imagePrefixSize <= t.header.imageSize <= lib.partition.value
                  && t.imagePrefix == [] && t.imageBytesReceived == 0)
  {
    hide FP.Fields, FP.ReservedIsZero;
  }

  /** Likewise for a commit. */
  lemma CommitErrorMeans(lib: Library, s: Service)
    ensures var t := Commit(lib, s);
            && (t.state == READY_TO_REBOOT || t.state == FAILED) && (t.state == READY_TO_REBOOT <==> t.error == NONE)
            && (t.error == BAD_OFFSET <==> !s.otaBegun || s.imageBytesReceived != s.header.imageSize)
            && (t.error == HASH_MISMATCH ==> lib.sha256(s.hashInput) != s.header.imageSha256)
            && (t.error == VALIDATION_FAILED ==> !lib.shaFinishOk || !lib.otaEndOk)
            && (t.error == SET_BOOT_FAILED ==> !lib.setBootOk)
            && (t.state == READY_TO_REBOOT ==> t.boot == Some(s.flash)) && (t.state == FAILED ==> t.boot == s.boot)
  {
  }
}
