/** The in-place UTF-8 truncation of main/src/utility.cpp, against RFC 3629. */
module Utf8 {
  import opened Bytes

  // What RFC 3629 says.

  /** A Unicode scalar value (section 3 of RFC 3629 excludes the surrogates). */
  predicate IsScalar(c: int) {
    0 <= c < 0xD800 || 0xE000 <= c <= 0x10FFFF
  }

  /** The encoding table in section 3 of RFC 3629. */
  function EncodeScalar(c: int): (r: seq<byte>)
    requires IsScalar(c)
    ensures 1 <= |r| <= 4
  {
    if c < 0x80 then [c]
    else if c < 0x800 then [0xC0 + c / 64, 0x80 + c % 64]
    else if c < 0x1_0000 then [0xE0 + c / 4096, 0x80 + c / 64 % 64, 0x80 + c % 64]
    else [0xF0 + c / 262144, 0x80 + c / 4096 % 64, 0x80 + c / 64 % 64, 0x80 + c % 64]
  }

  function EncodeAll(cs: seq<int>): seq<byte>
    requires forall c <- cs :: IsScalar(c)
  {
    if cs == [] then [] else EncodeScalar(cs[0]) + EncodeAll(cs[1..])
  }

  ghost predicate AllScalars(cs: seq<int>) {
    forall c <- cs :: IsScalar(c)
  }

  /** A string is well formed when it encodes some sequence of scalar values. */
  ghost predicate WellFormed(s: seq<byte>) {
    exists cs: seq<int> :: AllScalars(cs) && s == EncodeAll(cs)
  }

  // What the firmware computes.

  predicate IsContinuation(c: byte) {
    0x80 <= c < 0xC0
  }

  /** Length of the sequence at the front of `s`, or 0 when there is none. */
  function SequenceLength(s: seq<byte>): (n: nat)
    ensures n <= |s| && n <= 4
  {
    if s == [] then 0
    else
      var c0 := s[0];
      if c0 <= 0x7F then 1
      else if 0xC2 <= c0 <= 0xDF then
        if |s| >= 2 && IsContinuation(s[1]) then 2 else 0
      else if c0 == 0xE0 then
        if |s| >= 3 && 0xA0 <= s[1] <= 0xBF && IsContinuation(s[2]) then 3 else 0
      else if 0xE1 <= c0 <= 0xEC || 0xEE <= c0 <= 0xEF then
        if |s| >= 3 && IsContinuation(s[1]) && IsContinuation(s[2]) then 3 else 0
      else if c0 == 0xED then
        if |s| >= 3 && 0x80 <= s[1] <= 0x9F && IsContinuation(s[2]) then 3 else 0
      else if c0 == 0xF0 then
        if |s| >= 4 && 0x90 <= s[1] <= 0xBF && IsContinuation(s[2]) && IsContinuation(s[3]) then 4 else 0
      else if 0xF1 <= c0 <= 0xF3 then
        if |s| >= 4 && IsContinuation(s[1]) && IsContinuation(s[2]) && IsContinuation(s[3]) then 4 else 0
      else if c0 == 0xF4 then
        if |s| >= 4 && 0x80 <= s[1] <= 0x8F && IsContinuation(s[2]) && IsContinuation(s[3]) then 4 else 0
      else 0
  }

  /** What a call leaves in the buffer, NUL excluded: undecodable bytes are dropped
      and copying stops at the first character that does not fit. */
  function Truncated(s: seq<byte>, max: nat): (r: seq<byte>)
    ensures |r| <= max && |r| <= |s|
    decreases |s|
  {
    if s == [] then []
    else
      var n := SequenceLength(s);
      if n == 0 then Truncated(s[1..], max)
      else if n > max then []
      else s[..n] + Truncated(s[n..], max - n)
  }

  method CopyTruncated(src: Option<seq<byte>>, dst: array?<byte>) returns (written: nat)
    modifies dst
    ensures dst == null || dst.Length == 0 ==> written == 0
    ensures dst != null && dst.Length > 0 ==>
              && written < dst.Length
              && dst[written] == 0
              && dst[..written] == (if src.None? then [] else Truncated(src.value, dst.Length - 1))
              && (src.Some? ==> dst[written + 1..] == old(dst[written + 1..]))
  {
    written := 0;
    if dst != null && dst.Length > 0 {
      dst[0] := 0;
      if src.Some? {
        written := CopyText(src.value, dst);
      }
    }
  }

  method CopyText(s: seq<byte>, dst: array<byte>) returns (written: nat)
    requires dst.Length > 0
    modifies dst
    ensures written < dst.Length && dst[written] == 0
    ensures dst[..written] == Truncated(s, dst.Length - 1)
    ensures dst[written + 1..] == old(dst[written + 1..])
  {
    hide SequenceLength, Truncated;
    ghost var orig := dst[..];
    var cur, maxBytes := 0, dst.Length - 1;
    written := 0;
    while cur < |s|
      invariant cur <= |s| && written <= maxBytes
      invariant dst[..written] + Truncated(s[cur..], maxBytes - written) == Truncated(s, maxBytes)
      invariant dst[written + 1..] == orig[written + 1..]
    {
      var seqLen := SequenceLength(s[cur..]);
      TruncatedStep(dst[..written], s, cur, maxBytes - written);
      if seqLen == 0 {
        cur := cur + 1;
        continue;
      }
      if written + seqLen > maxBytes { break; }
      DropMore(dst[..], orig, written + 1, seqLen);
      CopyPiece(dst, written, s[cur..cur + seqLen]);
      written := written + seqLen;
      cur := cur + seqLen;
    }
    if cur == |s| { TruncatedEnd(dst[..written], s, maxBytes - written); }
    assert dst[..written] == Truncated(s, maxBytes);
    dst[written] := 0;
  }

  method CopyPiece(dst: array<byte>, at: nat, piece: seq<byte>)
    requires at + |piece| < dst.Length
    modifies dst
    ensures dst[..at + |piece|] == old(dst[..at]) + piece
    ensures dst[at + |piece| + 1..] == old(dst[at + |piece| + 1..])
  {
    MemCpy(dst, at, piece);
    ghost var now := dst[..];
    assert now[..at + |piece|] == old(dst[..])[..at] + piece;
    assert now[at + |piece| + 1..] == old(dst[..])[at + |piece|..][1..];
  }

  lemma DropMore(a: seq<byte>, b: seq<byte>, i: nat, n: nat)
    requires i + n <= |a| == |b| && a[i..] == b[i..]
    ensures a[i + n..] == b[i + n..]
  {
  }

  /** One round of the copy loop moves a character, or a dropped byte, from the
      remaining input to the output. */
  lemma TruncatedStep(acc: seq<byte>, s: seq<byte>, cur: nat, room: nat)
    requires cur < |s|
    ensures var n := SequenceLength(s[cur..]);
            && (n == 0 ==> Truncated(s[cur + 1..], room) == Truncated(s[cur..], room))
            && (n > room ==> acc + Truncated(s[cur..], room) == acc)
            && (0 < n <= room ==> acc + Truncated(s[cur..], room)
                                  == (acc + s[cur..cur + n]) + Truncated(s[cur + n..], room - n))
  {
    hide SequenceLength;
    var rest, n := s[cur..], SequenceLength(s[cur..]);
    assert rest[1..] == s[cur + 1..] && rest[..n] == s[cur..cur + n] && rest[n..] == s[cur + n..];
    if 0 < n <= room {
      FrontIsKept(rest, room);
      assert acc + (rest[..n] + Truncated(rest[n..], room - n)) == (acc + rest[..n]) + Truncated(rest[n..], room - n);
    }
  }

  lemma TruncatedEnd(acc: seq<byte>, s: seq<byte>, room: nat)
    ensures acc + Truncated(s[|s|..], room) == acc
  {
  }

  // The byte classes above are exactly the encodings of section 3.

  /** The scalar value encoded at the front of `s`. */
  function DecodeFront(s: seq<byte>): (c: int)
    requires SequenceLength(s) > 0
  {
    match SequenceLength(s)
    case 1 => s[0]
    case 2 => (s[0] as int - 0xC0) * 64 + (s[1] as int - 0x80)
    case 3 => (s[0] as int - 0xE0) * 4096 + (s[1] as int - 0x80) * 64 + (s[2] as int - 0x80)
    case _ => (s[0] as int - 0xF0) * 262144 + (s[1] as int - 0x80) * 4096 + (s[2] as int - 0x80) * 64 + (s[3] as int - 0x80)
  }

  /** The bytes of a recognised sequence. */
  lemma RecognisedBytes(s: seq<byte>)
    requires SequenceLength(s) > 0
    ensures var n := SequenceLength(s);
            && (forall i :: 1 <= i < n ==> 0x80 <= s[i] < 0xC0)
            && (n == 1 ==> s[0] <= 0x7F) && (n == 2 ==> 0xC2 <= s[0] <= 0xDF)
            && (n == 3 ==> 0xE0 <= s[0] <= 0xEF && (s[0] == 0xE0 ==> s[1] >= 0xA0) && (s[0] == 0xED ==> s[1] <= 0x9F))
            && (n == 4 ==> 0xF0 <= s[0] <= 0xF4 && (s[0] == 0xF0 ==> s[1] >= 0x90) && (s[0] == 0xF4 ==> s[1] <= 0x8F))
  {
  }

  lemma DecodeIsScalar(s: seq<byte>)
    requires SequenceLength(s) > 0
    ensures IsScalar(DecodeFront(s))
    ensures EncodeScalar(DecodeFront(s)) == s[..SequenceLength(s)]
  {
    hide SequenceLength, IsScalar, EncodeScalar;
    RecognisedBytes(s);
    match SequenceLength(s)
    case 1 => EncodeOne(s);
    case 2 => EncodeTwo(s);
    case 3 => EncodeThree(s);
    case _ => EncodeFour(s);
  }

  lemma EncodeOne(s: seq<byte>)
    requires |s| >= 1 && s[0] <= 0x7F
    ensures IsScalar(s[0]) && EncodeScalar(s[0]) == s[..1]
  {
  }

  lemma EncodeTwo(s: seq<byte>)
    requires |s| >= 2 && 0xC2 <= s[0] <= 0xDF && 0x80 <= s[1] < 0xC0
    ensures var c := (s[0] as int - 0xC0) * 64 + (s[1] as int - 0x80); IsScalar(c) && EncodeScalar(c) == s[..2]
  {
    DecodeTwo(s[0], s[1]);
  }

  lemma EncodeThree(s: seq<byte>)
    requires |s| >= 3 && 0xE0 <= s[0] <= 0xEF && 0x80 <= s[1] < 0xC0 && 0x80 <= s[2] < 0xC0
    requires (s[0] == 0xE0 ==> s[1] >= 0xA0) && (s[0] == 0xED ==> s[1] <= 0x9F)
    ensures var c := (s[0] as int - 0xE0) * 4096 + (s[1] as int - 0x80) * 64 + (s[2] as int - 0x80);
            IsScalar(c) && EncodeScalar(c) == s[..3]
  {
    DecodeThree(s[0], s[1], s[2]);
  }

  lemma EncodeFour(s: seq<byte>)
    requires |s| >= 4 && 0xF0 <= s[0] <= 0xF4 && 0x80 <= s[1] < 0xC0 && 0x80 <= s[2] < 0xC0 && 0x80 <= s[3] < 0xC0
    requires (s[0] == 0xF0 ==> s[1] >= 0x90) && (s[0] == 0xF4 ==> s[1] <= 0x8F)
    ensures var c := (s[0] as int - 0xF0) * 262144 + (s[1] as int - 0x80) * 4096 + (s[2] as int - 0x80) * 64 + (s[3] as int - 0x80);
            IsScalar(c) && EncodeScalar(c) == s[..4]
  {
    DecodeFour(s[0], s[1], s[2], s[3]);
  }

  lemma DecodeTwo(a: int, b: int)
    requires 0xC2 <= a <= 0xDF && 0x80 <= b < 0xC0
    ensures var c := (a - 0xC0) * 64 + (b - 0x80);
            0x80 <= c < 0x800 && c / 64 == a - 0xC0 && c % 64 == b - 0x80
  {
  }

  lemma DecodeThree(a: int, b: int, d: int)
    requires 0xE0 <= a <= 0xEF && 0x80 <= b < 0xC0 && 0x80 <= d < 0xC0
    requires a == 0xE0 ==> b >= 0xA0
    ensures var c := (a - 0xE0) * 4096 + (b - 0x80) * 64 + (d - 0x80);
            && 0x800 <= c < 0x1_0000
            && c / 4096 == a - 0xE0 && c / 64 % 64 == b - 0x80 && c % 64 == d - 0x80
            && (a < 0xED ==> c < 0xD000) && (a == 0xED && b <= 0x9F ==> c < 0xD800) && (a > 0xED ==> c >= 0xE000)
  {
    var c := (a - 0xE0) * 4096 + (b - 0x80) * 64 + (d - 0x80);
    assert c / 64 == (a - 0xE0) * 64 + (b - 0x80);
  }

  lemma DecodeFour(a: int, b: int, d: int, e: int)
    requires 0xF0 <= a <= 0xF4 && 0x80 <= b < 0xC0 && 0x80 <= d < 0xC0 && 0x80 <= e < 0xC0
    requires (a == 0xF0 ==> b >= 0x90) && (a == 0xF4 ==> b <= 0x8F)
    ensures var c := (a - 0xF0) * 262144 + (b - 0x80) * 4096 + (d - 0x80) * 64 + (e - 0x80);
            && 0x1_0000 <= c <= 0x10FFFF
            && c / 262144 == a - 0xF0 && c / 4096 % 64 == b - 0x80
            && c / 64 % 64 == d - 0x80 && c % 64 == e - 0x80
  {
    var c := (a - 0xF0) * 262144 + (b - 0x80) * 4096 + (d - 0x80) * 64 + (e - 0x80);
    assert c / 64 == (a - 0xF0) * 4096 + (b - 0x80) * 64 + (d - 0x80);
    assert c / 4096 == (a - 0xF0) * 64 + (b - 0x80);
  }

  lemma EncodeIsRecognised(c: int, rest: seq<byte>)
    requires IsScalar(c)
    ensures SequenceLength(EncodeScalar(c) + rest) == |EncodeScalar(c)|
  {
    var e := EncodeScalar(c);
    FrontBytes(c);
    assert forall i :: 0 <= i < |e| ==> (e + rest)[i] == e[i];
  }

  /** The bounds on the first two bytes that keep overlong forms, surrogates and
      values past U+10FFFF out. */
  lemma FrontBytes(c: int)
    requires IsScalar(c)
    ensures var e := EncodeScalar(c);
            && (forall i :: 1 <= i < |e| ==> IsContinuation(e[i]))
            && (|e| == 2 ==> 0xC2 <= e[0] <= 0xDF)
            && (|e| == 3 ==> 0xE0 <= e[0] <= 0xEF && (e[0] == 0xE0 ==> e[1] >= 0xA0) && (e[0] == 0xED ==> e[1] <= 0x9F))
            && (|e| == 4 ==> 0xF0 <= e[0] <= 0xF4 && (e[0] == 0xF0 ==> e[1] >= 0x90) && (e[0] == 0xF4 ==> e[1] <= 0x8F))
  {
    if 0x800 <= c < 0x1_0000 {
      assert c / 64 == c / 4096 * 64 + c / 64 % 64;
    } else if c >= 0x1_0000 {
      assert c / 4096 == c / 262144 * 64 + c / 4096 % 64;
    }
  }

  /** utf8_sequence_length answers n > 0 exactly when the string starts with the
      n-byte encoding of a Unicode scalar value. */
  lemma SequenceLengthIsRfc3629(s: seq<byte>, n: nat)
    requires n > 0
    ensures SequenceLength(s) == n <==>
            exists c: int :: IsScalar(c) && |EncodeScalar(c)| == n && EncodeScalar(c) <= s
  {
    if SequenceLength(s) == n {
      DecodeIsScalar(s);
      assert EncodeScalar(DecodeFront(s)) <= s;
    }
    if c: int :| IsScalar(c) && |EncodeScalar(c)| == n && EncodeScalar(c) <= s {
      EncodeIsRecognised(c, s[n..]);
      assert EncodeScalar(c) + s[n..] == s;
    }
  }

  // Well-formedness, peeled one character at a time.

  lemma WellFormedCons(s: seq<byte>)
    requires SequenceLength(s) > 0 && WellFormed(s[SequenceLength(s)..])
    ensures WellFormed(s)
  {
    var n := SequenceLength(s);
    DecodeIsScalar(s);
    var cs :| AllScalars(cs) && s[n..] == EncodeAll(cs);
    var all := [DecodeFront(s)] + cs;
    assert all[1..] == cs;
    assert AllScalars(all) && s == EncodeAll(all);
  }

  lemma WellFormedSplit(s: seq<byte>)
    requires WellFormed(s) && s != []
    ensures SequenceLength(s) > 0 && WellFormed(s[SequenceLength(s)..])
  {
    var cs :| AllScalars(cs) && s == EncodeAll(cs);
    var first := EncodeScalar(cs[0]);
    EncodeIsRecognised(cs[0], EncodeAll(cs[1..]));
    assert s[|first|..] == EncodeAll(cs[1..]) && AllScalars(cs[1..]);
  }

  lemma EmptyWellFormed()
    ensures WellFormed([])
  {
    assert AllScalars([]) && EncodeAll([]) == [];
  }

  /** A sequence is recognised by its own bytes alone. */
  lemma SequenceLengthLocal(s: seq<byte>, t: seq<byte>)
    requires SequenceLength(s) > 0
    ensures SequenceLength(s[..SequenceLength(s)] + t) == SequenceLength(s)
  {
  }

  // Main results about the copy.

  /** Whatever the input, the buffer ends up holding well-formed UTF-8 made of the
      input's own bytes (so it has no NUL of its own). */
  lemma {:induction false} TruncatedIsWellFormed(s: seq<byte>, max: nat)
    ensures WellFormed(Truncated(s, max))
    ensures forall b <- Truncated(s, max) :: b in s
    decreases |s|
  {
    hide SequenceLength, WellFormed;
    EmptyWellFormed();
    if s != [] {
      var n := SequenceLength(s);
      if n == 0 {
        TruncatedIsWellFormed(s[1..], max);
      } else if n <= max {
        TruncatedIsWellFormed(s[n..], max - n);
        var r := Truncated(s, max);
        SequenceLengthLocal(s, Truncated(s[n..], max - n));
        assert r[n..] == Truncated(s[n..], max - n);
        WellFormedCons(r);
      }
    }
  }

  /** The copy is the identity exactly on well-formed strings that fit. */
  lemma TruncatedIdentity(s: seq<byte>, max: nat)
    ensures Truncated(s, max) == s <==> WellFormed(s) && |s| <= max
  {
    if Truncated(s, max) == s {
      TruncatedIsWellFormed(s, max);
    }
    if WellFormed(s) && |s| <= max {
      WellFormedIsKept(s, max);
    }
  }

  lemma {:induction false} WellFormedIsKept(s: seq<byte>, max: nat)
    requires WellFormed(s) && |s| <= max
    ensures Truncated(s, max) == s
    decreases |s|
  {
    hide SequenceLength, WellFormed;
    if s != [] {
      WellFormedSplit(s);
      WellFormedIsKept(s[SequenceLength(s)..], max - SequenceLength(s));
    }
  }

  lemma TruncatedIdempotent(s: seq<byte>, max: nat)
    ensures Truncated(Truncated(s, max), max) == Truncated(s, max)
  {
    TruncatedIsWellFormed(s, max);
    WellFormedIsKept(Truncated(s, max), max);
  }

  /** On well-formed input the result is a prefix, and no longer well-formed prefix
      fits the buffer: whole characters only, and as many as fit. */
  lemma TruncatedIsLongestPrefix(s: seq<byte>, max: nat, p: seq<byte>)
    requires WellFormed(s)
    ensures Truncated(s, max) <= s
    ensures WellFormed(p) && p <= s && |p| <= max ==> p <= Truncated(s, max)
  {
    hide WellFormed, Truncated;
    TruncatedIsPrefix(s, max);
    if WellFormed(p) && p <= s && |p| <= max { NoLongerPrefix(s, max, p); }
  }

  lemma {:induction false} TruncatedIsPrefix(s: seq<byte>, max: nat)
    requires WellFormed(s)
    ensures Truncated(s, max) <= s
    decreases |s|
  {
    hide SequenceLength, WellFormed;
    if s != [] {
      WellFormedSplit(s);
      var n := SequenceLength(s);
      if n <= max { TruncatedIsPrefix(s[n..], max - n); }
    }
  }

  lemma {:induction false} NoLongerPrefix(s: seq<byte>, max: nat, p: seq<byte>)
    requires WellFormed(s) && WellFormed(p) && p <= s && |p| <= max
    ensures p <= Truncated(s, max)
    decreases |s|
  {
    hide SequenceLength, WellFormed, Truncated;
    if p != [] {
      WellFormedSplit(s);
      WellFormedSplit(p);
      PrefixStartsAlike(p, s);
      var n := SequenceLength(s);
      PrefixTail(p, s, n);
      FrontIsKept(s, max);
      NoLongerPrefix(s[n..], max - n, p[n..]);
      PrefixJoin(p, s, n, Truncated(s[n..], max - n));
    }
  }

  lemma FrontIsKept(s: seq<byte>, max: nat)
    requires 0 < SequenceLength(s) <= max
    ensures Truncated(s, max) == s[..SequenceLength(s)] + Truncated(s[SequenceLength(s)..], max - SequenceLength(s))
  {
    hide SequenceLength;
  }

  lemma PrefixTail(p: seq<byte>, s: seq<byte>, n: nat)
    requires p <= s && n <= |p|
    ensures p[..n] == s[..n] && p[n..] <= s[n..]
  {
  }

  lemma PrefixJoin(p: seq<byte>, s: seq<byte>, n: nat, t: seq<byte>)
    requires p <= s && n <= |p| && p[n..] <= t
    ensures p <= s[..n] + t
  {
    assert p == p[..n] + p[n..];
  }

  lemma PrefixStartsAlike(p: seq<byte>, s: seq<byte>)
    requires p <= s && SequenceLength(p) > 0
    ensures SequenceLength(s) == SequenceLength(p)
  {
  }

  /** The bytes of `s` that belong to some character. */
  function Cleaned(s: seq<byte>): seq<byte> {
    Truncated(s, |s|)
  }

  /** On ill-formed input the call first drops the undecodable bytes and then behaves
      as on the well-formed remainder. */
  lemma {:induction false} TruncatedCleansFirst(s: seq<byte>, max: nat, room: nat)
    requires room >= |s|
    ensures Truncated(s, max) == Truncated(Truncated(s, room), max)
    decreases |s|
  {
    hide SequenceLength, Truncated;
    if s == [] {
      NothingKept(max);
      NothingKept(room);
    } else {
      var n := SequenceLength(s);
      TruncatedCases(s, max);
      TruncatedCases(s, room);
      if n == 0 {
        TruncatedCleansFirst(s[1..], max, room);
      } else {
        var tail := Truncated(s[n..], room - n);
        var r := s[..n] + tail;
        SequenceLengthLocal(s, tail);
        assert r[n..] == tail && r[..n] == s[..n];
        TruncatedCases(r, max);
        if n <= max { TruncatedCleansFirst(s[n..], max - n, room - n); }
      }
    }
  }

  lemma NothingKept(max: nat)
    ensures Truncated([], max) == []
  {
  }

  lemma TruncatedCases(s: seq<byte>, max: nat)
    requires s != []
    ensures var n := SequenceLength(s);
            Truncated(s, max) == if n == 0 then Truncated(s[1..], max) else if n > max then [] else s[..n] + Truncated(s[n..], max - n)
  {
    hide SequenceLength;
  }

  /** For every input, well formed or not: the result is the longest well-formed
      prefix of the cleaned input that fits. */
  lemma TruncatedOnAnyInput(s: seq<byte>, max: nat, p: seq<byte>)
    ensures Truncated(s, max) <= Cleaned(s)
    ensures WellFormed(p) && p <= Cleaned(s) && |p| <= max ==> p <= Truncated(s, max)
  {
    TruncatedIsWellFormed(s, |s|);
    TruncatedCleansFirst(s, max, |s|);
    TruncatedIsLongestPrefix(Cleaned(s), max, p);
  }
}
