/** When a chunked upload also reports the same error as byte-by-byte feeding. The verdict
    never depends on the chunks (MainOtaChunks); the reported reason does in three corners,
    and this module says exactly when. */
module MainOtaReasons {
  import opened Bytes
  import opened MainOtaSpec
  import opened MainOtaChunks
  import opened MainOtaSoundness
  import FP = FirmwarePackage

  /** No update partition comes near the 32-bit package counter's limit. */
  ghost predicate Roomy(lib: Library) {
    lib.partition.Some? ==> lib.partition.value < U32_MAX - FP.HEADER_SIZE
  }

  /** The loop over single bytes, without the package counter. */
  function DrainBytes(lib: Library, s: Session, data: seq<byte>): Session
    decreases |data|
  {
    if data == [] then s else DrainBytes(lib, Drain(lib, s, [data[0]]), data[1..])
  }

  /** Whether `len` body bytes starting at image position `from` fail for the same reason
      in one piece as one at a time: an oversized piece must not hide a library fault
      before the declared end, and a hash fault must not hide an earlier flash fault. */
  predicate BodyReasonStable(lib: Library, from: nat, size: nat, len: nat)
    requires from <= size
  {
    if from + len > size then lib.HashAccepts(from, size - from) && lib.FlashAccepts(from, size - from)
    else lib.HashAccepts(from, len) || FlashOkBeforeHashFault(lib, from, len)
  }

  /** Every flash fault in the range comes at or after some hash fault. */
  predicate FlashOkBeforeHashFault(lib: Library, from: nat, len: nat) {
    forall i :: from <= i < from + len && !lib.flashPositionOk(i) ==> HashFaultUpTo(lib, from, i)
  }

  predicate HashFaultUpTo(lib: Library, from: nat, i: nat)
    requires from <= i
  {
    !lib.HashAccepts(from, i + 1 - from)
  }

  /** Byte by byte, the first position with something wrong decides. */
  function FirstFault(lib: Library, from: nat, size: nat, len: nat): Reason
    decreases len
  {
    if len == 0 then NoReason
    else if from >= size then ImageLargerThanDeclared
    else if !lib.shaPositionOk(from) then Sha256UpdateFailed
    else if !lib.flashPositionOk(from) then OtaWriteFailed
    else FirstFault(lib, from + 1, size, len - 1)
  }

  /** In one piece, the checks are made for the whole range, one after the other. */
  function PieceFault(lib: Library, from: nat, size: nat, len: nat): Reason {
    if len == 0 then NoReason
    else if from + len > size then ImageLargerThanDeclared
    else if !lib.HashAccepts(from, len) then Sha256UpdateFailed
    else if !lib.FlashAccepts(from, len) then OtaWriteFailed
    else NoReason
  }

  lemma {:induction false} FaultsCompared(lib: Library, from: nat, size: nat, len: nat)
    requires from <= size
    ensures PieceFault(lib, from, size, len) == FirstFault(lib, from, size, len)
            <==> len == 0 || BodyReasonStable(lib, from, size, len)
    decreases len
  {
    if len == 0 {
    } else if from == size {
    } else if !lib.shaPositionOk(from) || !lib.flashPositionOk(from) {
      FaultAtFront(lib, from, size, len);
    } else {
      FaultsCompared(lib, from + 1, size, len - 1);
      AcceptsFromNext(lib, from, len);
      AcceptsFromNext(lib, from, size - from);
      HashFaultFromNext(lib, from, len);
    }
  }

  lemma FaultAtFront(lib: Library, from: nat, size: nat, len: nat)
    requires from < size && len > 0 && (!lib.shaPositionOk(from) || !lib.flashPositionOk(from))
    ensures PieceFault(lib, from, size, len) == FirstFault(lib, from, size, len)
            <==> BodyReasonStable(lib, from, size, len)
  {
  }

  lemma AcceptsFromNext(lib: Library, from: nat, len: nat)
    requires len > 0 && lib.shaPositionOk(from) && lib.flashPositionOk(from)
    ensures lib.HashAccepts(from, len) <==> lib.HashAccepts(from + 1, len - 1)
    ensures lib.FlashAccepts(from, len) <==> lib.FlashAccepts(from + 1, len - 1)
  {
  }

  lemma HashFaultFromNext(lib: Library, from: nat, len: nat)
    requires len > 0 && lib.shaPositionOk(from) && lib.flashPositionOk(from)
    ensures FlashOkBeforeHashFault(lib, from, len) <==> FlashOkBeforeHashFault(lib, from + 1, len - 1)
  {
  }

  // The image body.

  lemma BodyPiece(lib: Library, s: Session, data: seq<byte>)
    requires s.state == WRITING && s.reason == NoReason && s.imageBytesReceived <= s.parsedHeader.imageSize
    requires Lead(lib, s) <= 0 && |s.packageHeader| >= FP.HEADER_SIZE && |s.imagePrefix| >= lib.imagePrefixSize
    ensures Drain(lib, s, data).reason == PieceFault(lib, s.imageBytesReceived, s.parsedHeader.imageSize, |data|)
    ensures Drain(lib, s, data).Failed() <==> Drain(lib, s, data).reason != NoReason
  {
  }

  lemma {:induction false} BodyBytes(lib: Library, s: Session, data: seq<byte>)
    requires s.state == WRITING && s.reason == NoReason && s.imageBytesReceived <= s.parsedHeader.imageSize
    requires |s.packageHeader| >= FP.HEADER_SIZE && |s.imagePrefix| >= lib.imagePrefixSize
    ensures DrainBytes(lib, s, data).reason == FirstFault(lib, s.imageBytesReceived, s.parsedHeader.imageSize, |data|)
    decreases |data|
  {
    hide Drain, WriteData;
    if data != [] {
      var t := Drain(lib, s, [data[0]]);
      BodyByte(lib, s, data[0]);
      if t.Failed() {
        FailedDrainBytes(lib, t, data[1..]);
      } else {
        BodyBytes(lib, t, data[1..]);
      }
    }
  }

  lemma BodyByte(lib: Library, s: Session, b: byte)
    requires s.state == WRITING && s.reason == NoReason && s.imageBytesReceived <= s.parsedHeader.imageSize
    requires |s.packageHeader| >= FP.HEADER_SIZE && |s.imagePrefix| >= lib.imagePrefixSize
    ensures var t, r := Drain(lib, s, [b]), s.imageBytesReceived;
            && t.packageHeader == s.packageHeader && t.imagePrefix == s.imagePrefix && t.parsedHeader == s.parsedHeader
            && (t.Failed() ==> t.reason == FirstFault(lib, r, s.parsedHeader.imageSize, 1) && t.reason != NoReason)
            && (!t.Failed() ==>
                  && t.state == WRITING && t.reason == NoReason && t.imageBytesReceived == r + 1 <= s.parsedHeader.imageSize
                  && lib.shaPositionOk(r) && lib.flashPositionOk(r))
  {
    hide AcceptHeader, StartImage;
    assert lib.HashAccepts(s.imageBytesReceived, 1) <==> lib.shaPositionOk(s.imageBytesReceived);
    assert lib.FlashAccepts(s.imageBytesReceived, 1) <==> lib.flashPositionOk(s.imageBytesReceived);
  }

  lemma {:induction false} FailedDrainBytes(lib: Library, s: Session, data: seq<byte>)
    requires s.Failed()
    ensures DrainBytes(lib, s, data) == s
    decreases |data|
  {
    if data != [] {
      FailedDrainBytes(lib, s, data[1..]);
    }
  }

  // Before the body, chunk and bytes agree to the letter.

  ghost predicate BuffersFit(lib: Library, s: Session) {
    |s.packageHeader| <= FP.HEADER_SIZE && |s.imagePrefix| <= lib.imagePrefixSize
    && (|s.packageHeader| < FP.HEADER_SIZE ==> s.imagePrefix == [])
  }

  lemma {:induction false} LeadIsItsBytes(lib: Library, s: Session, data: seq<byte>)
    requires BuffersFit(lib, s) && |data| <= Lead(lib, s)
    ensures DrainBytes(lib, s, data) == Drain(lib, s, data)
    ensures !Drain(lib, s, data).Failed() ==>
              BuffersFit(lib, Drain(lib, s, data)) && Lead(lib, Drain(lib, s, data)) == Lead(lib, s) - |data|
    decreases |data|
  {
    hide Drain;
    if data == [] {
      DrainNothing(lib, s);
    } else {
      var t := Drain(lib, s, [data[0]]);
      assert [data[0]] + data[1..] == data;
      DrainSplit(lib, s, [data[0]], data[1..]);
      if t.Failed() {
        FailedDrainBytes(lib, t, data[1..]);
        DrainFailed(lib, t, data[1..]);
      } else {
        LeadShrinks(lib, s, data[0]);
        LeadIsItsBytes(lib, t, data[1..]);
      }
    }
  }

  lemma DrainNothing(lib: Library, s: Session)
    ensures Drain(lib, s, []) == s
  {
  }

  lemma LeadShrinks(lib: Library, s: Session, b: byte)
    requires BuffersFit(lib, s) && Lead(lib, s) > 0 && !Drain(lib, s, [b]).Failed()
    ensures Lead(lib, Drain(lib, s, [b])) == Lead(lib, s) - 1
    ensures BuffersFit(lib, Drain(lib, s, [b]))
  {
    hide AcceptHeader, StartImage, WriteData;
    DrainFailed(lib, s, [b]);
    assert [b][..1] == [b] && [b][1..] == [];
    if |s.packageHeader| < FP.HEADER_SIZE {
      var t := s.(packageHeader := s.packageHeader + [b]);
      if |t.packageHeader| == FP.HEADER_SIZE {
        AcceptKeepsBuffers(lib, t);
        DrainNothing(lib, AcceptHeader(lib, t));
      } else {
        DrainNothing(lib, t);
      }
    } else {
      var t := s.(imagePrefix := s.imagePrefix + [b]);
      if |t.imagePrefix| == lib.imagePrefixSize {
        StartKeepsBuffers(lib, t);
        DrainNothing(lib, StartImage(lib, t));
      } else {
        DrainNothing(lib, t);
      }
    }
  }

  lemma {:induction false} DrainBytesAppend(lib: Library, s: Session, a: seq<byte>, b: seq<byte>)
    ensures DrainBytes(lib, s, a + b) == DrainBytes(lib, DrainBytes(lib, s, a), b)
    decreases |a|
  {
    hide Drain;
    if a == [] {
      assert a + b == b;
    } else {
      assert (a + b)[1..] == a[1..] + b;
      DrainBytesAppend(lib, Drain(lib, s, [a[0]]), a[1..], b);
    }
  }

  // The package counter never trips byte by byte.

  lemma InvFacts(lib: Library, fed: seq<byte>, u: Upload)
    requires lib.Sane() && Roomy(lib) && Inv(lib, fed, u) && !u.Failed()
    ensures u.packageBytesReceived < U32_MAX && u.session.reason == NoReason && BuffersFit(lib, u.session)
    ensures Lead(lib, u.session) == 0 ==>
              && u.session.imageBytesReceived <= u.session.parsedHeader.imageSize
              && (u.session.state == WRITING || u.session.state == READY_TO_REBOOT)
    ensures Lead(lib, u.session) >= 0
  {
    hide FP.Fields;
    PackageBytesAccounting(lib, fed, u);
  }

  lemma {:induction false} BytesNeverOverflow(lib: Library, fed: seq<byte>, u: Upload, data: seq<byte>)
    requires lib.Sane() && Roomy(lib) && Inv(lib, fed, u)
    ensures ConsumeBytes(lib, u, data).session == DrainBytes(lib, u.session, data)
    decreases |data|
  {
    hide Drain, Inv;
    if data != [] {
      if u.Failed() {
        FailedBytesStayFailed(lib, u, data);
        FailedDrainBytes(lib, u.session, data);
      } else {
        InvFacts(lib, fed, u);
        ConsumeKeeps(lib, fed, u, [data[0]]);
        BytesNeverOverflow(lib, fed + [data[0]], Consume(lib, u, [data[0]]), data[1..]);
      }
    }
  }

  lemma {:induction false} DrainNeverOverflows(lib: Library, s: Session, data: seq<byte>)
    requires s.reason != PackageSizeOverflow
    ensures Drain(lib, s, data).reason != PackageSizeOverflow
    decreases |data|
  {
    hide AcceptHeader, StartImage, WriteData;
    if data == [] || s.Failed() {
    } else if |s.packageHeader| < FP.HEADER_SIZE {
      var take := Min(|data|, FP.HEADER_SIZE - |s.packageHeader|);
      var t := s.(packageHeader := s.packageHeader + data[..take]);
      PiecesNeverOverflow(lib, t, data);
      DrainNeverOverflows(lib, if |t.packageHeader| == FP.HEADER_SIZE then AcceptHeader(lib, t) else t, data[take..]);
    } else if |s.imagePrefix| < lib.imagePrefixSize {
      var take := Min(|data|, lib.imagePrefixSize - |s.imagePrefix|);
      var t := s.(imagePrefix := s.imagePrefix + data[..take]);
      PiecesNeverOverflow(lib, t, data);
      DrainNeverOverflows(lib, if |t.imagePrefix| == lib.imagePrefixSize then StartImage(lib, t) else t, data[take..]);
    } else {
      PiecesNeverOverflow(lib, s, data);
    }
  }

  lemma PiecesNeverOverflow(lib: Library, s: Session, data: seq<byte>)
    requires s.reason != PackageSizeOverflow
    ensures |s.packageHeader| == FP.HEADER_SIZE ==> AcceptHeader(lib, s).reason != PackageSizeOverflow
    ensures StartImage(lib, s).reason != PackageSizeOverflow
    ensures WriteData(lib, s, data).reason != PackageSizeOverflow
  {
    hide BeginWrite, WriteData, FP.Verdict, FP.Fields;
    BeginNeverOverflows(lib, s);
    WriteNeverOverflows(lib, s, data);
    WriteNeverOverflows(lib, BeginWrite(lib, s), BeginWrite(lib, s).imagePrefix);
  }

  lemma BeginNeverOverflows(lib: Library, s: Session)
    requires s.reason != PackageSizeOverflow
    ensures BeginWrite(lib, s).reason != PackageSizeOverflow
  {
  }

  lemma WriteNeverOverflows(lib: Library, s: Session, data: seq<byte>)
    requires s.reason != PackageSizeOverflow
    ensures WriteData(lib, s, data).reason != PackageSizeOverflow
  {
  }

  lemma {:induction false} BytesReasonNotOverflow(lib: Library, s: Session, data: seq<byte>)
    requires s.reason != PackageSizeOverflow
    ensures DrainBytes(lib, s, data).reason != PackageSizeOverflow
    decreases |data|
  {
    hide Drain;
    if data != [] {
      DrainNeverOverflows(lib, s, [data[0]]);
      BytesReasonNotOverflow(lib, Drain(lib, s, [data[0]]), data[1..]);
    }
  }

  // The main result.

  /** The package header and the image prefix that a session has once it is past `data`. */
  function HeaderBytes(s: Session, data: seq<byte>): seq<byte>
    requires |s.packageHeader| <= FP.HEADER_SIZE <= |s.packageHeader| + |data|
  {
    s.packageHeader + data[..FP.HEADER_SIZE - |s.packageHeader|]
  }

  function PrefixBytes(lib: Library, s: Session, data: seq<byte>): seq<byte>
    requires |s.packageHeader| <= FP.HEADER_SIZE && |s.imagePrefix| <= lib.imagePrefixSize && Lead(lib, s) <= |data|
  {
    s.imagePrefix + data[FP.HEADER_SIZE - |s.packageHeader|..Lead(lib, s)]
  }

  /** Everything before the image body goes well. */
  ghost predicate LeadTaken(lib: Library, header: seq<byte>, prefix: seq<byte>) {
    && Installable(lib, header)
    && ImageHeaderComplaint(lib.decodeImageHeader(prefix)) == NoReason
    && lib.shaStartOk && lib.otaBeginOk
    && lib.HashAccepts(0, lib.imagePrefixSize) && lib.FlashAccepts(0, lib.imagePrefixSize)
  }

  /** What can be checked before handing over a chunk, `fed` being the bytes handed over
      before it: it must not overflow the package counter, and, if it reaches into the
      image body past a header and a prefix that are taken, its body part must be free of
      the two library-fault corners. */
  ghost predicate ReasonStable(lib: Library, fed: seq<byte>, data: seq<byte>)
  {
    var all, cut := fed + data, FP.HEADER_SIZE + lib.imagePrefixSize;
    && |all| <= U32_MAX
    && (cut < |all| && LeadTaken(lib, all[..FP.HEADER_SIZE], all[FP.HEADER_SIZE..cut]) ==>
          var size := FP.Fields(all[..FP.HEADER_SIZE]).imageSize;
          var from := if |fed| < cut then lib.imagePrefixSize else |fed| - FP.HEADER_SIZE;
          from <= size && BodyReasonStable(lib, from, size, |all| - FP.HEADER_SIZE - from))
  }

  /** The same, told by the state that the bytes before the body lead to. */
  ghost predicate StableAfterLead(lib: Library, t: Session, len: nat) {
    t.Failed() || (t.imageBytesReceived <= t.parsedHeader.imageSize
                   && BodyReasonStable(lib, t.imageBytesReceived, t.parsedHeader.imageSize, len))
  }

  lemma StableTold(lib: Library, fed: seq<byte>, u: Upload, data: seq<byte>)
    requires lib.Sane() && Roomy(lib) && Inv(lib, fed, u) && !u.Failed() && BuffersFit(lib, u.session)
    requires 0 <= Lead(lib, u.session) < |data| <= U32_MAX - u.packageBytesReceived
    ensures ReasonStable(lib, fed, data) <==>
            StableAfterLead(lib, Drain(lib, u.session, data[..Lead(lib, u.session)]), |data| - Lead(lib, u.session))
  {
    hide Drain, Inv, BodyReasonStable, LeadTaken, FP.Fields;
    var s, lead := u.session, Lead(lib, u.session);
    InvIsSession(lib, fed, u);
    LeadDrains(lib, fed, s, data[..lead]);
    InvFacts(lib, fed, u);
    InvCounts(lib, fed, u);
    LeadOfFed(lib, fed, s, data);
  }

  /** The header and the prefix, and where the body begins, in terms of the bytes fed. */
  lemma LeadOfFed(lib: Library, fed: seq<byte>, s: Session, data: seq<byte>)
    requires lib.Sane() && SessionInv(lib, fed, s) && !s.Failed() && BuffersFit(lib, s) && 0 <= Lead(lib, s) <= |data|
    requires Lead(lib, s) == 0 ==> s.state == WRITING || s.state == READY_TO_REBOOT
    ensures var cut := FP.HEADER_SIZE + lib.imagePrefixSize;
            && Lead(lib, s) == (if |fed| < cut then cut - |fed| else 0)
            && HeaderBytes(s, data[..Lead(lib, s)]) == (fed + data)[..FP.HEADER_SIZE]
            && PrefixBytes(lib, s, data[..Lead(lib, s)]) == (fed + data)[FP.HEADER_SIZE..cut]
            && (Lead(lib, s) == 0 ==> s.imageBytesReceived == |fed| - FP.HEADER_SIZE)
  {
    hide Installable, FP.Fields, ImageHeaderComplaint;
    var h, cut, a, all := FP.HEADER_SIZE, FP.HEADER_SIZE + lib.imagePrefixSize, data[..Lead(lib, s)], fed + data;
    if s.state == RECEIVING_IMAGE_PREFIX {
      assert s.packageHeader + a[..0] == all[..h];
      assert s.imagePrefix + a[0..|a|] == all[h..cut];
    } else if s.state == WRITING || s.state == READY_TO_REBOOT {
      assert a == [] && s.packageHeader + a[..0] == all[..h] && s.imagePrefix + a[0..0] == all[h..cut];
    } else {
      var n := h - |fed|;
      assert s.packageHeader + a[..n] == all[..h];
      assert [] + a[n..|a|] == all[h..cut];
    }
  }

  lemma InvIsSession(lib: Library, fed: seq<byte>, u: Upload)
    requires Inv(lib, fed, u)
    ensures SessionInv(lib, fed, u.session)
  {
  }

  /** Whether the bytes before the body are taken, and where they lead. */
  lemma LeadDrains(lib: Library, fed: seq<byte>, s: Session, a: seq<byte>)
    requires lib.Sane() && SessionInv(lib, fed, s) && !s.Failed() && BuffersFit(lib, s) && |a| == Lead(lib, s)
    ensures var t := Drain(lib, s, a);
            && (t.Failed() <==> !LeadTaken(lib, HeaderBytes(s, a), PrefixBytes(lib, s, a)))
            && (!t.Failed() ==>
                  && t.imageBytesReceived == (if a == [] then s.imageBytesReceived else lib.imagePrefixSize)
                  && t.parsedHeader == FP.Fields(HeaderBytes(s, a)))
  {
    hide Drain, LeadTaken, HeaderTaken, ImageStarted, Installable, FP.Fields;
    if s.state == RECEIVING_IMAGE_PREFIX {
      HeaderIsTaken(lib, fed, s);
      PrefixDrains(lib, fed, s, a);
      assert a[..0] == [] && a[0..|a|] == a && s.packageHeader + [] == s.packageHeader;
    } else if s.state == WRITING || s.state == READY_TO_REBOOT {
      DrainNothing(lib, s);
      StartedIsTaken(lib, fed, s);
      assert a == [];
    } else {
      HeaderDrains(lib, fed, s, a);
    }
  }

  lemma HeaderIsTaken(lib: Library, fed: seq<byte>, s: Session)
    requires SessionInv(lib, fed, s) && s.state == RECEIVING_IMAGE_PREFIX
    ensures |s.packageHeader| == FP.HEADER_SIZE
  {
  }

  lemma StartedIsTaken(lib: Library, fed: seq<byte>, s: Session)
    requires SessionInv(lib, fed, s) && (s.state == WRITING || s.state == READY_TO_REBOOT)
    ensures LeadTaken(lib, s.packageHeader, s.imagePrefix) && s.packageHeader + [] == s.packageHeader
    ensures s.imagePrefix + [] == s.imagePrefix && s.parsedHeader == FP.Fields(s.packageHeader)
    ensures |s.packageHeader| == FP.HEADER_SIZE && |s.imagePrefix| == lib.imagePrefixSize
  {
    hide Installable, FP.Fields;
    assert lib.HashAccepts(0, lib.imagePrefixSize) && lib.FlashAccepts(0, lib.imagePrefixSize);
  }

  lemma PrefixDrains(lib: Library, fed: seq<byte>, s: Session, a: seq<byte>)
    requires lib.Sane() && SessionInv(lib, fed, s) && s.state == RECEIVING_IMAGE_PREFIX
    requires |s.packageHeader| == FP.HEADER_SIZE && |a| == lib.imagePrefixSize - |s.imagePrefix|
    ensures var t := Drain(lib, s, a);
            && (t.Failed() <==> !LeadTaken(lib, s.packageHeader, s.imagePrefix + a))
            && (!t.Failed() ==> t.imageBytesReceived == lib.imagePrefixSize && t.parsedHeader == FP.Fields(s.packageHeader))
  {
    hide Installable, AcceptHeader, StartImage, WriteData, ImageStarted, FP.Fields;
    var t := s.(imagePrefix := s.imagePrefix + a);
    assert a[..|a|] == a && a[|a|..] == [];
    DrainNothing(lib, StartImage(lib, t));
    assert (fed + a)[FP.HEADER_SIZE..] == fed[FP.HEADER_SIZE..] + a && (fed + a)[..FP.HEADER_SIZE] == fed[..FP.HEADER_SIZE];
    StartImageKeeps(lib, fed + a, t);
    if !StartImage(lib, t).Failed() { StartedState(lib, t); }
  }

  lemma HeaderDrains(lib: Library, fed: seq<byte>, s: Session, a: seq<byte>)
    requires lib.Sane() && SessionInv(lib, fed, s) && (s.state == IDLE || s.state == RECEIVING_HEADER) && BuffersFit(lib, s)
    requires |a| == Lead(lib, s)
    ensures var t := Drain(lib, s, a);
            && (t.Failed() <==> !LeadTaken(lib, HeaderBytes(s, a), PrefixBytes(lib, s, a)))
            && (!t.Failed() ==> t.imageBytesReceived == lib.imagePrefixSize && t.parsedHeader == FP.Fields(HeaderBytes(s, a)))
  {
    hide Drain, Installable, FP.Fields;
    var h := FP.HEADER_SIZE - |s.packageHeader|;
    var header, rest := a[..h], a[h..];
    assert header + rest == a && a[h..|a|] == rest;
    DrainSplit(lib, s, header, rest);
    HeaderAlone(lib, fed, s, header);
    var t := Drain(lib, s, header);
    if t.Failed() {
      DrainFailed(lib, t, rest);
    } else {
      PrefixDrains(lib, fed + header, t, rest);
      assert t.imagePrefix + rest == rest;
    }
  }

  /** Completing the package header. */
  lemma HeaderAlone(lib: Library, fed: seq<byte>, s: Session, header: seq<byte>)
    requires lib.Sane() && SessionInv(lib, fed, s) && (s.state == IDLE || s.state == RECEIVING_HEADER) && BuffersFit(lib, s)
    requires |header| == FP.HEADER_SIZE - |s.packageHeader|
    ensures var t := Drain(lib, s, header);
            && (t.Failed() <==> !Installable(lib, s.packageHeader + header))
            && (!t.Failed() ==>
                  && SessionInv(lib, fed + header, t) && t.state == RECEIVING_IMAGE_PREFIX && t.imagePrefix == []
                  && t.packageHeader == s.packageHeader + header)
  {
    hide Installable, AcceptHeader, StartImage, WriteData, HeaderTaken, ImageStarted, FP.Fields;
    var t := s.(packageHeader := s.packageHeader + header);
    assert header[..|header|] == header && header[|header|..] == [];
    DrainNothing(lib, AcceptHeader(lib, t));
    AcceptHeaderKeeps(lib, fed + header, t);
    AcceptKeepsBuffers(lib, t);
    if !AcceptHeader(lib, t).Failed() { AcceptedState(lib, t); }
  }

  /** A chunk reports the same reason as its bytes fed one at a time if and only if it is
      reason-stable. */
  lemma ReasonAgreesIffStable(lib: Library, fed: seq<byte>, u: Upload, data: seq<byte>)
    requires lib.Sane() && Roomy(lib) && Inv(lib, fed, u) && !u.Failed()
    ensures Consume(lib, u, data).session.reason == ConsumeBytes(lib, u, data).session.reason
            <==> data == [] || ReasonStable(lib, fed, data)
  {
    hide Drain, Inv, BodyReasonStable, LeadTaken, StableAfterLead, FP.Fields;
    InvFacts(lib, fed, u);
    InvCounts(lib, fed, u);
    if data != [] {
      InvFacts(lib, fed, u);
      BytesNeverOverflow(lib, fed, u, data);
      BytesReasonNotOverflow(lib, u.session, data);
      if |data| <= U32_MAX - u.packageBytesReceived {
        var lead := Lead(lib, u.session);
        if |data| <= lead {
          WithinLead(lib, fed, u, data);
          LeadIsItsBytes(lib, u.session, data);
        } else {
          ReasonPastLead(lib, fed, u, data[..lead], data[lead..]);
          StableTold(lib, fed, u, data);
          assert data[..lead] + data[lead..] == data;
        }
      }
    }
  }

  lemma ReasonPastLead(lib: Library, fed: seq<byte>, u: Upload, a: seq<byte>, b: seq<byte>)
    requires lib.Sane() && Roomy(lib) && Inv(lib, fed, u) && !u.Failed()
    requires |a| == Lead(lib, u.session) && b != [] && |a| + |b| <= U32_MAX - u.packageBytesReceived
    ensures var t := Drain(lib, u.session, a);
            Drain(lib, u.session, a + b).reason == DrainBytes(lib, u.session, a + b).reason
            <==> StableAfterLead(lib, t, |b|)
  {
    hide Drain, Inv, BodyReasonStable;
    var s := u.session;
    var t := Drain(lib, s, a);
    InvFacts(lib, fed, u);
    LeadIsItsBytes(lib, s, a);
    DrainSplit(lib, s, a, b);
    DrainBytesAppend(lib, s, a, b);
    if t.Failed() {
      DrainFailed(lib, t, b);
      FailedDrainBytes(lib, t, b);
    } else {
      var v := Upload(u.packageBytesReceived + |a|, t);
      assert a == [] ==> t == s by { DrainNothing(lib, s); }
      assert Consume(lib, u, a) == v;
      ConsumeKeeps(lib, fed, u, a);
      InvFacts(lib, fed + a, v);
      BodyCompared(lib, fed + a, v, b);
    }
  }

  lemma BodyCompared(lib: Library, fed: seq<byte>, v: Upload, b: seq<byte>)
    requires lib.Sane() && Roomy(lib) && Inv(lib, fed, v) && !v.Failed() && b != []
    requires Lead(lib, v.session) == 0
    ensures var t := v.session;
            && t.imageBytesReceived <= t.parsedHeader.imageSize
            && (Drain(lib, t, b).reason == DrainBytes(lib, t, b).reason
                <==> BodyReasonStable(lib, t.imageBytesReceived, t.parsedHeader.imageSize, |b|))
  {
    hide Drain, Inv, BodyReasonStable;
    InvFacts(lib, fed, v);
    var t := v.session;
    FaultsCompared(lib, t.imageBytesReceived, t.parsedHeader.imageSize, |b|);
    if t.state == WRITING {
      BodyPiece(lib, t, b);
      BodyBytes(lib, t, b);
    } else {
      ReadyBody(lib, fed, v, b);
    }
  }

  lemma ReadyBody(lib: Library, fed: seq<byte>, v: Upload, b: seq<byte>)
    requires lib.Sane() && Inv(lib, fed, v) && v.session.state == READY_TO_REBOOT && b != []
    ensures var t := v.session;
            && Drain(lib, t, b).reason == DrainBytes(lib, t, b).reason == ImageLargerThanDeclared
            && BodyReasonStable(lib, t.imageBytesReceived, t.parsedHeader.imageSize, |b|)
  {
    hide WriteData, Installable;
    ReadyRefusesData(lib, fed, v.session, b);
    ReadyRefusesData(lib, fed, v.session, [b[0]]);
    FailedDrainBytes(lib, Fail(v.session, ImageLargerThanDeclared), b[1..]);
  }

  lemma InstallableFits(lib: Library, header: seq<byte>)
    requires Installable(lib, header)
    ensures lib.partition.Some? && FP.Fields(header).imageSize <= lib.partition.value
  {
  }

  /** The corner is real: one byte too many in the same chunk hides a flash fault that
      byte-by-byte feeding reports. */
  lemma OversizedChunkHidesFlashFault(lib: Library, fed: seq<byte>, u: Upload, data: seq<byte>)
    requires lib.Sane() && Roomy(lib) && Inv(lib, fed, u) && u.session.state == WRITING
    requires u.session.imageBytesReceived < u.session.parsedHeader.imageSize
    requires |data| == u.session.parsedHeader.imageSize - u.session.imageBytesReceived + 1
    requires lib.shaPositionOk(u.session.imageBytesReceived) && !lib.flashPositionOk(u.session.imageBytesReceived)
    ensures Consume(lib, u, data).session.reason == ImageLargerThanDeclared
    ensures ConsumeBytes(lib, u, data).session.reason == OtaWriteFailed
  {
    hide Drain, Installable, FP.Fields;
    InstallableFits(lib, u.session.packageHeader);
    PackageBytesAccounting(lib, fed, u);
    BytesNeverOverflow(lib, fed, u, data);
    BodyPiece(lib, u.session, data);
    BodyBytes(lib, u.session, data);
  }

  /** Likewise, a hash fault further on in the chunk hides the flash fault. */
  lemma HashFaultHidesFlashFault(lib: Library, fed: seq<byte>, u: Upload, data: seq<byte>)
    requires lib.Sane() && Roomy(lib) && Inv(lib, fed, u) && u.session.state == WRITING
    requires 2 <= |data| <= u.session.parsedHeader.imageSize - u.session.imageBytesReceived
    requires lib.shaPositionOk(u.session.imageBytesReceived) && !lib.flashPositionOk(u.session.imageBytesReceived)
    requires !lib.shaPositionOk(u.session.imageBytesReceived + 1)
    ensures Consume(lib, u, data).session.reason == Sha256UpdateFailed
    ensures ConsumeBytes(lib, u, data).session.reason == OtaWriteFailed
  {
    hide Drain, Installable, FP.Fields;
    InstallableFits(lib, u.session.packageHeader);
    PackageBytesAccounting(lib, fed, u);
    BytesNeverOverflow(lib, fed, u, data);
    BodyPiece(lib, u.session, data);
    BodyBytes(lib, u.session, data);
  }

  /** And a chunk that overflows the package counter reports that, which single bytes
      never do. */
  lemma OverflowIsChunkOnly(lib: Library, fed: seq<byte>, u: Upload, data: seq<byte>)
    requires lib.Sane() && Roomy(lib) && Inv(lib, fed, u) && !u.Failed() && |data| > U32_MAX - u.packageBytesReceived
    ensures Consume(lib, u, data).session.reason == PackageSizeOverflow
    ensures ConsumeBytes(lib, u, data).session.reason != PackageSizeOverflow
  {
    hide Drain, Inv;
    InvFacts(lib, fed, u);
    BytesNeverOverflow(lib, fed, u, data);
    BytesReasonNotOverflow(lib, u.session, data);
  }

  // The corners are reached by an upload from its first byte on.

  /** A flash whose byte 24 cannot be written, and a hash that fails from `hashFault` on. */
  function FaultyLibrary(hashFault: nat): Library {
    Library(1, 1, 0, 24, _ => EspImageHeader(true, true, 1, 1), Some(4096), true, true,
            i => i < hashFault, i => i != 24, _ => [], true, true, true)
  }

  function SmallHeader(): FP.Header {
    FP.Header(FP.FORMAT_VERSION, FP.HEADER_SIZE, FP.ROLE_MAIN, FP.CHIP_ESP32_C3, 0, 2, 26, seq(FP.SHA_SIZE, _ => 0))
  }

  lemma SmallPackageOpens(hashFault: nat, s: Session, prefix: seq<byte>) returns (fed: seq<byte>, u: Upload)
    requires |prefix| == 24 <= hashFault
    ensures var lib := FaultyLibrary(hashFault);
            && lib.Sane() && Roomy(lib) && Inv(lib, fed, u) && fed == FP.Build(SmallHeader()) + prefix
            && u == Consume(lib, Upload(0, Reset(s)), fed)
            && u.session.state == WRITING && u.session.imageBytesReceived == 24 && u.session.parsedHeader.imageSize == 26
  {
    hide Drain, FP.Build, FP.Fields, Installable, ImageStarted;
    var lib, header := FaultyLibrary(hashFault), FP.Build(SmallHeader());
    fed := header + prefix;
    var u0 := Upload(0, Reset(s));
    assert SessionInv(lib, [], u0.session);
    SmallIsInstallable(hashFault);
    var a := GoodHeaderDrains(lib, u0.session, header);
    var b := GoodPrefixDrains(lib, a, header, prefix);
    DrainSplit(lib, u0.session, header, prefix);
    u := Consume(lib, u0, fed);
    assert u.session == b;
    FP.FieldsOfBuild(SmallHeader());
  }

  lemma SmallIsInstallable(hashFault: nat)
    ensures Installable(FaultyLibrary(hashFault), FP.Build(SmallHeader()))
  {
    hide FP.Build, FP.Fields;
    FP.FieldsOfBuild(SmallHeader());
  }

  /** A declared image of 26 bytes: three bytes after the prefix are one too many, and two
      meet a hash fault after the flash fault. */
  lemma CornersAreReached(s: Session, prefix: seq<byte>, b: byte)
    requires |prefix| == 24
    ensures var lib, u, start := FaultyLibrary(30), Upload(0, Reset(s)), FP.Build(SmallHeader()) + prefix;
            && ConsumeAll(lib, u, [start, [b, b, b]]).session.reason == ImageLargerThanDeclared
            && ConsumeBytes(lib, u, start + [b, b, b]).session.reason == OtaWriteFailed
    ensures var lib, u, start := FaultyLibrary(25), Upload(0, Reset(s)), FP.Build(SmallHeader()) + prefix;
            && ConsumeAll(lib, u, [start, [b, b]]).session.reason == Sha256UpdateFailed
            && ConsumeBytes(lib, u, start + [b, b]).session.reason == OtaWriteFailed
  {
    hide Consume, Inv, FP.Build;
    var fed, u := SmallPackageOpens(30, s, prefix);
    OversizedChunkHidesFlashFault(FaultyLibrary(30), fed, u, [b, b, b]);
    TwoChunks(FaultyLibrary(30), Upload(0, Reset(s)), fed, [b, b, b]);
    fed, u := SmallPackageOpens(25, s, prefix);
    HashFaultHidesFlashFault(FaultyLibrary(25), fed, u, [b, b]);
    TwoChunks(FaultyLibrary(25), Upload(0, Reset(s)), fed, [b, b]);
  }

  lemma TwoChunks(lib: Library, u: Upload, a: seq<byte>, b: seq<byte>)
    requires u.packageBytesReceived <= U32_MAX && !Consume(lib, u, a).Failed()
    ensures ConsumeAll(lib, u, [a, b]) == Consume(lib, Consume(lib, u, a), b)
    ensures ConsumeBytes(lib, u, a + b) == ConsumeBytes(lib, Consume(lib, u, a), b)
  {
    hide Consume;
    assert [a, b][1..] == [b] && [b][1..] == [];
    assert ConsumeAll(lib, Consume(lib, u, a), [b]) == ConsumeAll(lib, Consume(lib, Consume(lib, u, a), b), []);
    BytesAppend(lib, u, a, b);
    ChunkIsItsBytes(lib, u, a);
  }

  // Whole streams.

  /** The bytes so far are taken: nothing in them fails, whatever their chunks. */
  ghost predicate Taken(lib: Library, all: seq<byte>) {
    var cut := FP.HEADER_SIZE + lib.imagePrefixSize;
    && (FP.HEADER_SIZE <= |all| ==> Installable(lib, all[..FP.HEADER_SIZE]))
    && (cut <= |all| ==>
          && LeadTaken(lib, all[..FP.HEADER_SIZE], all[FP.HEADER_SIZE..cut])
          && |all| - FP.HEADER_SIZE <= FP.Fields(all[..FP.HEADER_SIZE]).imageSize
          && lib.HashAccepts(0, |all| - FP.HEADER_SIZE) && lib.FlashAccepts(0, |all| - FP.HEADER_SIZE))
  }

  lemma TakenEarlier(lib: Library, a: seq<byte>, b: seq<byte>)
    requires lib.Sane() && Taken(lib, a + b)
    ensures Taken(lib, a)
  {
    hide Installable, FP.Fields;
    var cut := FP.HEADER_SIZE + lib.imagePrefixSize;
    if FP.HEADER_SIZE <= |a| { assert (a + b)[..FP.HEADER_SIZE] == a[..FP.HEADER_SIZE]; }
    if cut <= |a| { assert (a + b)[FP.HEADER_SIZE..cut] == a[FP.HEADER_SIZE..cut]; }
  }

  lemma NotFailedIsTaken(lib: Library, fed: seq<byte>, s: Session)
    requires lib.Sane() && SessionInv(lib, fed, s) && !s.Failed()
    ensures Taken(lib, fed)
  {
    hide Installable, FP.Fields;
    if s.state == WRITING || s.state == READY_TO_REBOOT { StartedIsTaken(lib, fed, s); }
  }

  lemma {:induction false} TakenDrains(lib: Library, fed: seq<byte>, s: Session, data: seq<byte>)
    requires lib.Sane() && SessionInv(lib, fed, s) && !s.Failed() && BuffersFit(lib, s) && Taken(lib, fed + data)
    ensures !Drain(lib, s, data).Failed()
    decreases |data|
  {
    hide Drain, SessionInv, Taken;
    var need := PieceNeeded(lib, s);
    if s.state == WRITING || s.state == READY_TO_REBOOT {
      TakenBody(lib, fed, s, data);
    } else if |data| < need {
      ShortPiece(lib, fed, s, data);
    } else {
      var a, b := data[..need], data[need..];
      assert a + b == data && (fed + a) + b == fed + data;
      TakenEarlier(lib, fed + a, b);
      PieceDrains(lib, fed, s, a);
      DrainSplit(lib, s, a, b);
      TakenDrains(lib, fed + a, Drain(lib, s, a), b);
    }
  }

  /** Bytes missing from the buffer that is being filled. */
  function PieceNeeded(lib: Library, s: Session): int {
    if |s.packageHeader| < FP.HEADER_SIZE then FP.HEADER_SIZE - |s.packageHeader| else lib.imagePrefixSize - |s.imagePrefix|
  }

  lemma TakenBody(lib: Library, fed: seq<byte>, s: Session, data: seq<byte>)
    requires lib.Sane() && SessionInv(lib, fed, s) && Taken(lib, fed + data) && (s.state == WRITING || s.state == READY_TO_REBOOT)
    ensures !Drain(lib, s, data).Failed()
  {
    hide LeadTaken, Installable, FP.Fields;
    assert (fed + data)[..FP.HEADER_SIZE] == fed[..FP.HEADER_SIZE];
  }

  lemma ShortPiece(lib: Library, fed: seq<byte>, s: Session, data: seq<byte>)
    requires SessionInv(lib, fed, s) && !s.Failed() && s.state != WRITING && s.state != READY_TO_REBOOT
    requires |data| < PieceNeeded(lib, s)
    ensures !Drain(lib, s, data).Failed()
  {
    hide AcceptHeader, StartImage, WriteData, HeaderTaken, ImageStarted;
    assert data[..|data|] == data && data[|data|..] == [];
  }

  lemma PieceDrains(lib: Library, fed: seq<byte>, s: Session, a: seq<byte>)
    requires lib.Sane() && SessionInv(lib, fed, s) && !s.Failed() && s.state != WRITING && s.state != READY_TO_REBOOT
    requires BuffersFit(lib, s) && |a| == PieceNeeded(lib, s) && Taken(lib, fed + a)
    ensures var t := Drain(lib, s, a);
            && 0 < |a| <= Lead(lib, s) && !t.Failed() && SessionInv(lib, fed + a, t) && BuffersFit(lib, t)
  {
    hide Drain, Installable, LeadTaken, ImageStarted, FP.Fields;
    DrainKeeps(lib, fed, s, a);
    if s.state == RECEIVING_IMAGE_PREFIX {
      HeaderIsTaken(lib, fed, s);
      PrefixDrains(lib, fed, s, a);
      assert (fed + a)[..FP.HEADER_SIZE] == s.packageHeader && (fed + a)[FP.HEADER_SIZE..FP.HEADER_SIZE + lib.imagePrefixSize] == s.imagePrefix + a;
    } else {
      HeaderAlone(lib, fed, s, a);
      assert (fed + a)[..FP.HEADER_SIZE] == s.packageHeader + a;
    }
    LeadIsItsBytes(lib, s, a);
  }

  /** A chunk fails exactly when it overflows the counter or the bytes up to its end are
      not taken. */
  lemma ChunkFailsIff(lib: Library, fed: seq<byte>, u: Upload, data: seq<byte>)
    requires lib.Sane() && Roomy(lib) && Inv(lib, fed, u) && !u.Failed() && data != []
    ensures Consume(lib, u, data).Failed() <==> |fed + data| > U32_MAX || !Taken(lib, fed + data)
  {
    hide Drain, Inv, Taken;
    InvFacts(lib, fed, u);
    InvCounts(lib, fed, u);
    InvIsSession(lib, fed, u);
    ConsumeKeeps(lib, fed, u, data);
    if |fed + data| <= U32_MAX {
      InvIsSession(lib, fed + data, Consume(lib, u, data));
      if Taken(lib, fed + data) { TakenDrains(lib, fed, u.session, data); }
      if !Consume(lib, u, data).Failed() { NotFailedIsTaken(lib, fed + data, Consume(lib, u, data).session); }
    }
  }

  lemma InvCounts(lib: Library, fed: seq<byte>, u: Upload)
    requires Inv(lib, fed, u) && !u.Failed()
    ensures u.packageBytesReceived == |fed|
  {
  }

  /** Every chunk up to the first that fails is reason-stable. */
  ghost predicate ChunksStable(lib: Library, fed: seq<byte>, chunks: seq<seq<byte>>)
    decreases |chunks|
  {
    chunks == []
    || ((chunks[0] == [] || ReasonStable(lib, fed, chunks[0]))
        && ((chunks[0] != [] && (|fed + chunks[0]| > U32_MAX || !Taken(lib, fed + chunks[0])))
            || ChunksStable(lib, fed + chunks[0], chunks[1..])))
  }

  /** A stream cut into chunks reports the same reason as its bytes fed one at a time if
      and only if its chunks are stable. */
  lemma {:induction false} StreamReasonAgreesIffStable(lib: Library, fed: seq<byte>, u: Upload, chunks: seq<seq<byte>>)
    requires lib.Sane() && Roomy(lib) && Inv(lib, fed, u) && !u.Failed()
    ensures ConsumeAll(lib, u, chunks).session.reason == ConsumeBytes(lib, u, Flatten(chunks)).session.reason
            <==> ChunksStable(lib, fed, chunks)
    decreases |chunks|
  {
    hide Consume, Inv, ReasonStable, Taken;
    if chunks != [] {
      var c, rest := chunks[0], Flatten(chunks[1..]);
      var t, b := Consume(lib, u, c), ConsumeBytes(lib, u, c);
      CounterInRange(lib, fed, u);
      ReasonAgreesIffStable(lib, fed, u, c);
      if c != [] { ChunkFailsIff(lib, fed, u, c); }
      EmptyChunk(lib, u);
      ChunkIsItsBytes(lib, u, c);
      BytesAppend(lib, u, c, rest);
      if t.Failed() {
        FailedStaysFailed(lib, t, chunks[1..]);
        FailedBytesStayFailed(lib, b, rest);
      } else {
        ConsumeKeeps(lib, fed, u, c);
        StreamReasonAgreesIffStable(lib, fed + c, t, chunks[1..]);
      }
    }
  }

  lemma CounterInRange(lib: Library, fed: seq<byte>, u: Upload)
    requires Inv(lib, fed, u) && !u.Failed()
    ensures u.packageBytesReceived <= U32_MAX
  {
  }

  lemma EmptyChunk(lib: Library, u: Upload)
    ensures Consume(lib, u, []) == u && ConsumeBytes(lib, u, []) == u
  {
  }

  /** With a hash and a flash that never fail, and a stream that does not overflow the
      package counter, the reason never depends on the chunks. */
  lemma {:induction false} NoFaultsNoDifference(lib: Library, fed: seq<byte>, u: Upload, chunks: seq<seq<byte>>)
    requires lib.Sane() && Roomy(lib) && Inv(lib, fed, u) && !u.Failed()
    requires forall i :: lib.shaPositionOk(i) && lib.flashPositionOk(i)
    requires |Flatten(chunks)| <= U32_MAX - u.packageBytesReceived
    ensures ChunksStable(lib, fed, chunks)
    decreases |chunks|
  {
    hide Inv, Drain, Consume, ReasonStable, Taken;
    if chunks != [] {
      var c := chunks[0];
      CounterInRange(lib, fed, u);
      if c != [] {
        FaultFreeChunk(lib, fed, u, c);
        ChunkFailsIff(lib, fed, u, c);
      }
      EmptyChunk(lib, u);
      ConsumeCounts(lib, u, c);
      ConsumeKeeps(lib, fed, u, c);
      if !Consume(lib, u, c).Failed() {
        NoFaultsNoDifference(lib, fed + c, Consume(lib, u, c), chunks[1..]);
      }
    }
  }

  lemma FaultFreeChunk(lib: Library, fed: seq<byte>, u: Upload, data: seq<byte>)
    requires lib.Sane() && Roomy(lib) && Inv(lib, fed, u) && !u.Failed() && data != []
    requires forall i :: lib.shaPositionOk(i) && lib.flashPositionOk(i)
    requires |data| <= U32_MAX - u.packageBytesReceived
    ensures ReasonStable(lib, fed, data)
  {
    hide Drain, Inv, ReasonStable, LeadTaken, FP.Fields;
    InvFacts(lib, fed, u);
    var lead := Lead(lib, u.session);
    if lead >= |data| {
      WithinLead(lib, fed, u, data);
    } else {
      StableTold(lib, fed, u, data);
      var a := data[..lead];
      var v := Upload(u.packageBytesReceived + |a|, Drain(lib, u.session, a));
      if !v.Failed() {
        assert a == [] ==> v == u by { DrainNothing(lib, u.session); }
        assert Consume(lib, u, a) == v;
        ConsumeKeeps(lib, fed, u, a);
        InvFacts(lib, fed + a, v);
        LeadIsItsBytes(lib, u.session, a);
      }
    }
  }

  lemma WithinLead(lib: Library, fed: seq<byte>, u: Upload, data: seq<byte>)
    requires lib.Sane() && Inv(lib, fed, u) && !u.Failed() && data != [] && |data| <= Lead(lib, u.session) && |data| <= U32_MAX - u.packageBytesReceived
    ensures ReasonStable(lib, fed, data)
  {
    hide BodyReasonStable, LeadTaken, Installable, FP.Fields;
    PackageBytesAccounting(lib, fed, u);
  }
}
