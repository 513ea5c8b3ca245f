/** Chunk independence of the gateway upload: however the HTTP server happens to cut a
    stream into chunks, the upload ends as if it had been fed one byte at a time. */
module MainOtaChunks {
  import opened Bytes
  import opened MainOtaSpec
  import opened Seqs
  import FP = FirmwarePackage

  /** Both uploads failed, or they are in the same state to the last byte. */
  ghost predicate SessionsAgree(s: Session, t: Session) {
    (s.Failed() && t.Failed()) || s == t
  }

  ghost predicate Agree(t: Upload, u: Upload) {
    (t.Failed() && u.Failed()) || t == u
  }

  function ConsumeAll(lib: Library, s: Upload, chunks: seq<seq<byte>>): Upload
    decreases |chunks|
  {
    if chunks == [] then s else ConsumeAll(lib, Consume(lib, s, chunks[0]), chunks[1..])
  }

  function Flatten(chunks: seq<seq<byte>>): seq<byte> {
    if chunks == [] then [] else chunks[0] + Flatten(chunks[1..])
  }

  /** Feeding a stream one byte per call. */
  function ConsumeBytes(lib: Library, s: Upload, data: seq<byte>): Upload
    decreases |data|
  {
    if data == [] then s else ConsumeBytes(lib, Consume(lib, s, [data[0]]), data[1..])
  }

  lemma AcceptsSplit(lib: Library, from: nat, m: nat, n: nat)
    ensures lib.HashAccepts(from, m + n) <==> lib.HashAccepts(from, m) && lib.HashAccepts(from + m, n)
    ensures lib.FlashAccepts(from, m + n) <==> lib.FlashAccepts(from, m) && lib.FlashAccepts(from + m, n)
  {
  }

  lemma WriteDataSplit(lib: Library, s: Session, a: seq<byte>, b: seq<byte>)
    requires !s.Failed() && a != [] && b != []
    ensures var t := WriteData(lib, s, a);
            SessionsAgree(WriteData(lib, s, a + b), if t.Failed() then t else WriteData(lib, t, b))
  {
    hide WriteData;
    AcceptsSplit(lib, s.imageBytesReceived, |a|, |b|);
    WriteDataCases(lib, s, a);
    WriteDataCases(lib, s, a + b);
    if WriteFits(lib, s, a) {
      WriteDataCases(lib, Written(s, a), b);
      assert s.flash + (a + b) == (s.flash + a) + b && s.hashInput + (a + b) == (s.hashInput + a) + b;
    }
  }

  /** A write that goes well. */
  predicate WriteFits(lib: Library, s: Session, data: seq<byte>) {
    && s.imageBytesReceived + |data| <= s.parsedHeader.imageSize
    && lib.HashAccepts(s.imageBytesReceived, |data|) && lib.FlashAccepts(s.imageBytesReceived, |data|)
  }

  function Written(s: Session, data: seq<byte>): Session {
    s.(hashInput := s.hashInput + data, flash := s.flash + data, imageBytesReceived := s.imageBytesReceived + |data|)
  }

  lemma WriteDataCases(lib: Library, s: Session, data: seq<byte>)
    requires data != [] && !s.Failed()
    ensures WriteFits(lib, s, data) ==> WriteData(lib, s, data) == Written(s, data)
    ensures WriteData(lib, s, data).Failed() <==> !WriteFits(lib, s, data)
  {
  }

  /** Bytes still missing before image data goes straight to flash. */
  function Lead(lib: Library, s: Session): int {
    FP.HEADER_SIZE - |s.packageHeader| + lib.imagePrefixSize - |s.imagePrefix|
  }

  lemma AcceptKeepsBuffers(lib: Library, s: Session)
    requires |s.packageHeader| == FP.HEADER_SIZE
    ensures AcceptHeader(lib, s).packageHeader == s.packageHeader && AcceptHeader(lib, s).imagePrefix == s.imagePrefix
  {
    hide FP.Verdict, FP.Fields;
  }

  lemma BeginKeepsBuffers(lib: Library, s: Session)
    ensures BeginWrite(lib, s).packageHeader == s.packageHeader && BeginWrite(lib, s).imagePrefix == s.imagePrefix
  {
  }

  lemma StartKeepsBuffers(lib: Library, s: Session)
    ensures StartImage(lib, s).packageHeader == s.packageHeader && StartImage(lib, s).imagePrefix == s.imagePrefix
  {
    hide BeginWrite, WriteData;
    BeginKeepsBuffers(lib, s);
    WriteDataFrame(lib, BeginWrite(lib, s), BeginWrite(lib, s).imagePrefix);
  }

  lemma WriteDataFrame(lib: Library, s: Session, data: seq<byte>)
    ensures var t := WriteData(lib, s, data);
            t.packageHeader == s.packageHeader && t.imagePrefix == s.imagePrefix
  {
  }

  /** Cutting one chunk in two does not change where the loop ends up, except possibly
      which failure it reports, and not even that before the image body. */
  lemma {:induction false} DrainSplit(lib: Library, s: Session, a: seq<byte>, b: seq<byte>)
    ensures SessionsAgree(Drain(lib, s, a + b), Drain(lib, Drain(lib, s, a), b))
    ensures |a| <= Lead(lib, s) ==> Drain(lib, s, a + b) == Drain(lib, Drain(lib, s, a), b)
    decreases |a|
  {
    hide AcceptHeader, StartImage, WriteData;
    if a == [] {
      assert a + b == b;
    } else if b == [] {
      assert a + b == a;
    } else if s.Failed() {
    } else if |s.packageHeader| < FP.HEADER_SIZE {
      DrainSplitHeader(lib, s, a, b);
    } else if |s.imagePrefix| < lib.imagePrefixSize {
      DrainSplitPrefix(lib, s, a, b);
    } else {
      WriteDataSplit(lib, s, a, b);
      WriteDataFrame(lib, s, a);
    }
  }

  lemma {:induction false} DrainSplitHeader(lib: Library, s: Session, a: seq<byte>, b: seq<byte>)
    requires a != [] && b != [] && !s.Failed() && |s.packageHeader| < FP.HEADER_SIZE
    ensures SessionsAgree(Drain(lib, s, a + b), Drain(lib, Drain(lib, s, a), b))
    ensures |a| <= Lead(lib, s) ==> Drain(lib, s, a + b) == Drain(lib, Drain(lib, s, a), b)
    decreases |a|, 0
  {
    hide AcceptHeader, StartImage, WriteData;
    var need := FP.HEADER_SIZE - |s.packageHeader|;
    if |a| < need {
      var t := s.(packageHeader := s.packageHeader + a);
      var take := Min(|b|, need - |a|);
      assert Drain(lib, s, a) == t by { assert a[..|a|] == a && a[|a|..] == []; }
      CutSecond(a, b, take);
      Assoc(s.packageHeader, a, b[..take]);
    } else {
      var t := s.(packageHeader := s.packageHeader + a[..need]);
      CutFirst(a, b, need);
      AcceptKeepsBuffers(lib, t);
      DrainSplit(lib, AcceptHeader(lib, t), a[need..], b);
    }
  }

  lemma {:induction false} DrainSplitPrefix(lib: Library, s: Session, a: seq<byte>, b: seq<byte>)
    requires a != [] && b != [] && !s.Failed() && |s.packageHeader| >= FP.HEADER_SIZE
    requires |s.imagePrefix| < lib.imagePrefixSize
    ensures SessionsAgree(Drain(lib, s, a + b), Drain(lib, Drain(lib, s, a), b))
    ensures |a| <= Lead(lib, s) ==> Drain(lib, s, a + b) == Drain(lib, Drain(lib, s, a), b)
    decreases |a|, 0
  {
    hide AcceptHeader, StartImage, WriteData;
    var need := lib.imagePrefixSize - |s.imagePrefix|;
    if |a| < need {
      var t := s.(imagePrefix := s.imagePrefix + a);
      var take := Min(|b|, need - |a|);
      assert a[..|a|] == a && a[|a|..] == [];
      assert Drain(lib, s, a) == t;
      CutSecond(a, b, take);
      Assoc(s.imagePrefix, a, b[..take]);
    } else {
      var t := s.(imagePrefix := s.imagePrefix + a[..need]);
      CutFirst(a, b, need);
      StartKeepsBuffers(lib, t);
      DrainSplit(lib, StartImage(lib, t), a[need..], b);
    }
  }

  /** A call that does not fail counts exactly the bytes it was given. */
  lemma ConsumeCounts(lib: Library, s: Upload, data: seq<byte>)
    requires s.packageBytesReceived <= U32_MAX
    ensures var t := Consume(lib, s, data);
            && t.packageBytesReceived <= U32_MAX
            && (!t.Failed() ==> t.packageBytesReceived == s.packageBytesReceived + |data|)
  {
  }

  lemma ConsumeSplit(lib: Library, s: Upload, a: seq<byte>, b: seq<byte>)
    requires s.packageBytesReceived <= U32_MAX
    ensures Agree(Consume(lib, s, a + b), Consume(lib, Consume(lib, s, a), b))
  {
    hide Drain;
    if a == [] {
      assert a + b == b;
    } else if b == [] {
      assert a + b == a;
    } else if !s.Failed() {
      DrainSplit(lib, s.session, a, b);
      DrainFailed(lib, Drain(lib, s.session, a), b);
    }
  }

  lemma DrainFailed(lib: Library, s: Session, data: seq<byte>)
    ensures s.Failed() ==> Drain(lib, s, data) == s
  {
  }

  lemma {:induction false} FailedStaysFailed(lib: Library, s: Upload, chunks: seq<seq<byte>>)
    requires s.Failed()
    ensures ConsumeAll(lib, s, chunks) == s
    decreases |chunks|
  {
    if chunks != [] {
      FailedStaysFailed(lib, s, chunks[1..]);
    }
  }

  lemma {:induction false} FailedBytesStayFailed(lib: Library, s: Upload, data: seq<byte>)
    requires s.Failed()
    ensures ConsumeBytes(lib, s, data) == s
    decreases |data|
  {
    if data != [] {
      FailedBytesStayFailed(lib, s, data[1..]);
    }
  }

  lemma {:induction false} ChunkIsItsBytes(lib: Library, s: Upload, data: seq<byte>)
    requires s.packageBytesReceived <= U32_MAX
    ensures Agree(Consume(lib, s, data), ConsumeBytes(lib, s, data))
    decreases |data|
  {
    hide Drain;
    if data != [] {
      var t := Consume(lib, s, [data[0]]);
      assert [data[0]] + data[1..] == data;
      ConsumeSplit(lib, s, [data[0]], data[1..]);
      ConsumeCounts(lib, s, [data[0]]);
      ChunkIsItsBytes(lib, t, data[1..]);
    }
  }

  lemma {:induction false} BytesAppend(lib: Library, s: Upload, a: seq<byte>, b: seq<byte>)
    ensures ConsumeBytes(lib, s, a + b) == ConsumeBytes(lib, ConsumeBytes(lib, s, a), b)
    decreases |a|
  {
    hide Consume;
    if a == [] {
      assert a + b == b;
    } else {
      assert (a + b)[1..] == a[1..] + b;
      BytesAppend(lib, Consume(lib, s, [a[0]]), a[1..], b);
    }
  }

  /** The main result: for every stream and every way of cutting it, with the libraries
      failing wherever they like, the upload fails exactly when byte-by-byte feeding
      does, and otherwise both end with the same buffers, counters, flash contents and
      hash input, so finishing gives the same verdict. */
  lemma {:induction false} ChunkIndependence(lib: Library, s: Upload, chunks: seq<seq<byte>>)
    requires s.packageBytesReceived <= U32_MAX
    ensures var t, u := ConsumeAll(lib, s, chunks), ConsumeBytes(lib, s, Flatten(chunks));
            && Agree(t, u)
            && Agree(Finish(lib, t), Finish(lib, u))
            && (Finish(lib, t).session.state == READY_TO_REBOOT <==> Finish(lib, u).session.state == READY_TO_REBOOT)
    decreases |chunks|
  {
    hide Consume;
    if chunks != [] {
      var c, rest := chunks[0], Flatten(chunks[1..]);
      ChunkIsItsBytes(lib, s, c);
      BytesAppend(lib, s, c, rest);
      ConsumeCounts(lib, s, c);
      var t, u := Consume(lib, s, c), ConsumeBytes(lib, s, c);
      if t.Failed() {
        FailedStaysFailed(lib, t, chunks[1..]);
        FailedBytesStayFailed(lib, u, rest);
      } else {
        ChunkIndependence(lib, t, chunks[1..]);
      }
    }
  }
}
