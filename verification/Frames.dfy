/** The frame of the link: [SOF] [LEN 2] [OPCODE] [CORR_ID 2] [PAYLOAD] [CRC 2]. */
module Frames {
  import opened Bytes
  import Crc

  const SOF: byte := 0xaa
  const HEADER_LEN := 6
  const OVERHEAD := 8
  const MAX_PAYLOAD := 1024
  const FRAME_MAX := MAX_PAYLOAD + OVERHEAD

  const OFF_LEN := 1
  const OFF_OPCODE := 3
  const OFF_CORR_ID := 4

  const ERR_ARG := -1
  const ERR_SPACE := -2
  const ERR_TOO_LARGE := -3

  /** The correlation ID of a frame that no request asked for. */
  const CORR_ID_PUSH: u16 := 0

  datatype Frame = Frame(opcode: byte, corrId: u16, payload: seq<byte>)

  predicate Fits(f: Frame) {
    |f.payload| <= MAX_PAYLOAD
  }

  function Size(f: Frame): nat {
    |f.payload| + OVERHEAD
  }

  /** The bytes that the check value covers: LEN to the end of the payload. */
  function Body(f: Frame): (s: seq<byte>)
    requires Fits(f)
    ensures |s| == HEADER_LEN - 1 + |f.payload|
  {
    PutU16(|f.payload|) + [f.opcode] + PutU16(f.corrId) + f.payload
  }

  function Encoded(f: Frame): (s: seq<byte>)
    requires Fits(f)
    ensures |s| == Size(f)
  {
    [SOF] + Body(f) + PutU16(Crc.Check(Body(f)))
  }

  /** The bytes that a payload pointer and its length name. */
  function Taken(payload: array?<byte>, len: nat): (s: seq<byte>)
    requires payload != null ==> len <= payload.Length
    reads payload
    ensures |s| == if payload == null then 0 else len
  {
    if payload == null then [] else payload[..len]
  }

  /** The error of a call, or the length of the frame. */
  function EncodeResult(dst: array?<byte>, dstlen: nat, payload: array?<byte>, payloadLen: u16): int {
    if dst == null || (payload == null && payloadLen > 0) then ERR_ARG
    else if payloadLen > MAX_PAYLOAD then ERR_TOO_LARGE
    else if dstlen < payloadLen + OVERHEAD then ERR_SPACE
    else payloadLen + OVERHEAD
  }

  /** When each code of a call comes, and which comes first. */
  lemma EncodeCodes(dst: array?<byte>, dstlen: nat, payload: array?<byte>, payloadLen: u16)
    ensures var n := EncodeResult(dst, dstlen, payload, payloadLen);
            && (n == -1 <==> dst == null || (payload == null && payloadLen != 0))
            && (n == -3 <==> n != -1 && payloadLen > 1024)
            && (n == -2 <==> n != -1 && n != -3 && payloadLen + 8 > dstlen)
            && (n >= 0 <==> n == payloadLen + 8) && n >= -3
  {
  }

  /** SOF, and the fields before the payload. */
  function Header(n: u16, opcode: byte, corrId: u16): (s: seq<byte>)
    ensures |s| == HEADER_LEN
  {
    [SOF] + PutU16(n) + [opcode] + PutU16(corrId)
  }

  lemma BodyFollowsHeader(f: Frame)
    requires Fits(f)
    ensures [SOF] + Body(f) == Header(|f.payload|, f.opcode, f.corrId) + f.payload
  {
  }

  method PutHeader(dst: array<byte>, n: u16, opcode: byte, corrId: u16)
    requires HEADER_LEN <= dst.Length
    modifies dst
    ensures dst[..HEADER_LEN] == Header(n, opcode, corrId)
    ensures dst[HEADER_LEN..] == old(dst[HEADER_LEN..])
  {
    dst[0] := SOF;
    dst[OFF_LEN], dst[OFF_LEN + 1] := n % 0x100, n / 0x100;
    dst[OFF_OPCODE] := opcode;
    dst[OFF_CORR_ID], dst[OFF_CORR_ID + 1] := corrId % 0x100, corrId / 0x100;
  }

  /** Write the header and the payload. */
  method PutBody(dst: array<byte>, opcode: byte, corrId: u16, payload: array?<byte>, payloadLen: u16)
    requires payload != null ==> payloadLen <= payload.Length && payload != dst
    requires payload == null ==> payloadLen == 0
    requires payloadLen <= MAX_PAYLOAD && payloadLen + OVERHEAD <= dst.Length
    modifies dst
    ensures dst[..HEADER_LEN + payloadLen] == [SOF] + Body(Frame(opcode, corrId, Taken(payload, payloadLen)))
    ensures dst[HEADER_LEN + payloadLen..] == old(dst[HEADER_LEN + payloadLen..])
  {
    hide Body, Header;
    var end := HEADER_LEN + payloadLen;
    ghost var rest := dst[end..];
    PutHeader(dst, payloadLen, opcode, corrId);
    assert dst[end..] == dst[HEADER_LEN..][payloadLen..] == old(dst[HEADER_LEN..])[payloadLen..] == rest;
    ghost var header := dst[..HEADER_LEN];
    if payloadLen > 0 {
      forall i | 0 <= i < payloadLen {
        dst[HEADER_LEN + i] := payload[i];
      }
    }
    BodyFollowsHeader(Frame(opcode, corrId, Taken(payload, payloadLen)));
    assert dst[..HEADER_LEN] == header;
    assert dst[HEADER_LEN..end] == Taken(payload, payloadLen);
    assert dst[..end] == dst[..HEADER_LEN] + dst[HEADER_LEN..end];
    assert dst[end..] == rest;
  }

  /** Write the check value at the end of a frame. */
  method PutCheck(dst: array<byte>, end: nat, want: u16)
    requires end + 2 <= dst.Length
    modifies dst
    ensures dst[..end + 2] == old(dst[..end]) + PutU16(want)
    ensures dst[end + 2..] == old(dst[end + 2..])
  {
    dst[end], dst[end + 1] := want % 0x100, want / 0x100;
    assert dst[..end] == old(dst[..end]);
    assert dst[..end + 2] == dst[..end] + [dst[end], dst[end + 1]];
  }

  /** Write the header, the payload and the check value. */
  method WriteFrame(dst: array<byte>, opcode: byte, corrId: u16, payload: array?<byte>, payloadLen: u16)
    requires payload != null ==> payloadLen <= payload.Length && payload != dst
    requires payload == null ==> payloadLen == 0
    requires payloadLen <= MAX_PAYLOAD && payloadLen + OVERHEAD <= dst.Length
    modifies dst
    ensures dst[..payloadLen + OVERHEAD] == Encoded(Frame(opcode, corrId, Taken(payload, payloadLen)))
    ensures dst[payloadLen + OVERHEAD..] == old(dst[payloadLen + OVERHEAD..])
  {
    hide Body, PutU16, Taken;
    var end := HEADER_LEN + payloadLen;
    ghost var body := Body(Frame(opcode, corrId, Taken(payload, payloadLen)));
    ghost var before := dst[..];
    PutBody(dst, opcode, corrId, payload, payloadLen);
    ghost var was := dst[..];
    SliceOfSlice(was, 0, end, OFF_LEN, end);
    var crc := Crc.Crc16(dst, OFF_LEN, HEADER_LEN - 1 + payloadLen);
    var want := Crc.Value(crc);
    PutCheck(dst, end, want);
    assert was[OFF_LEN..end] == body;
    SameTail(before, was, end);
  }

  lemma SameTail(s: seq<byte>, t: seq<byte>, end: nat)
    requires end + 2 <= |s| == |t| && s[end..] == t[end..]
    ensures s[end + 2..] == t[end + 2..]
  {
    assert s[end + 2..] == s[end..][2..] && t[end + 2..] == t[end..][2..];
  }

  /** Write a whole frame into dst, or nothing at all. */
  method Encode(dst: array?<byte>, dstlen: nat, opcode: byte, corrId: u16,
                payload: array?<byte>, payloadLen: u16) returns (n: int)
    requires dst != null ==> dstlen <= dst.Length
    requires payload != null ==> payloadLen <= payload.Length && payload != dst
    modifies dst
    ensures n == EncodeResult(dst, dstlen, payload, payloadLen)
    ensures n < 0 && dst != null ==> dst[..] == old(dst[..])
    ensures 0 <= n ==>
              && n <= dst.Length && payloadLen <= MAX_PAYLOAD
              && dst[..n] == Encoded(Frame(opcode, corrId, Taken(payload, payloadLen)))
              && dst[n..] == old(dst[n..])
  {
    if dst == null || (payload == null && payloadLen > 0) {
      return ERR_ARG;
    }
    if payloadLen > MAX_PAYLOAD {
      return ERR_TOO_LARGE;
    }
    n := payloadLen + OVERHEAD;
    if dstlen < n {
      return ERR_SPACE;
    }
    WriteFrame(dst, opcode, corrId, payload, payloadLen);
  }

  // ---------------------------------------------------------------------------
  // The verdict on the bytes at the front of a stream
  // ---------------------------------------------------------------------------

  datatype Verdict = Wait | NotSof | BadLength | BadCrc | Good(frame: Frame)

  function Judge(s: seq<byte>): (v: Verdict)
    requires s != []
    ensures v.Good? ==> Fits(v.frame) && Size(v.frame) <= |s|
    ensures v.Wait? ==> |s| < FRAME_MAX
  {
    if s[0] != SOF then NotSof
    else if |s| < HEADER_LEN then Wait
    else
      var n := GetU16(s, OFF_LEN);
      if n > MAX_PAYLOAD then BadLength
      else if |s| < n + OVERHEAD then Wait
      else if Crc.Check(s[OFF_LEN..HEADER_LEN + n]) != GetU16(s, HEADER_LEN + n) then BadCrc
      else Good(Frame(s[OFF_OPCODE], GetU16(s, OFF_CORR_ID), s[HEADER_LEN..HEADER_LEN + n]))
  }

  /** More bytes never change a verdict. */
  lemma JudgeIsStable(s: seq<byte>, more: seq<byte>)
    requires s != [] && !Judge(s).Wait?
    ensures Judge(s + more) == Judge(s)
  {
    var t := s + more;
    if s[0] == SOF && |s| >= HEADER_LEN {
      var n := GetU16(s, OFF_LEN);
      assert GetU16(t, OFF_LEN) == n;
      if n <= MAX_PAYLOAD && |s| >= n + OVERHEAD {
        assert t[OFF_LEN..HEADER_LEN + n] == s[OFF_LEN..HEADER_LEN + n];
        assert t[HEADER_LEN..HEADER_LEN + n] == s[HEADER_LEN..HEADER_LEN + n];
      }
    }
  }

  /** What the encoder writes is accepted whatever follows it. */
  lemma EncodedIsGood(f: Frame, more: seq<byte>)
    requires Fits(f)
    ensures Judge(Encoded(f) + more) == Good(f)
  {
    var s := Encoded(f);
    var n := |f.payload|;
    EncodedFields(f);
    assert Judge(s) == Good(f);
    JudgeIsStable(s, more);
  }

  lemma EncodedFields(f: Frame)
    requires Fits(f)
    ensures var s, n := Encoded(f), |f.payload|;
            && s[0] == SOF && GetU16(s, OFF_LEN) == n
            && s[OFF_OPCODE] == f.opcode && GetU16(s, OFF_CORR_ID) == f.corrId
            && s[HEADER_LEN..HEADER_LEN + n] == f.payload
            && s[OFF_LEN..HEADER_LEN + n] == Body(f)
            && GetU16(s, HEADER_LEN + n) == Crc.Check(Body(f))
  {
    var s, n := Encoded(f), |f.payload|;
    assert s[OFF_LEN..HEADER_LEN + n] == Body(f);
    var len, id, crc := PutU16(n), PutU16(f.corrId), PutU16(Crc.Check(Body(f)));
    assert s[1] == len[0] && s[2] == len[1];
    assert s[4] == id[0] && s[5] == id[1];
    assert s[6 + n] == crc[0] && s[7 + n] == crc[1];
  }

  /** Nothing else is accepted: a good verdict means the bytes are an encoding. */
  lemma GoodIsEncoded(s: seq<byte>)
    requires s != [] && Judge(s).Good?
    ensures var f := Judge(s).frame; s[..Size(f)] == Encoded(f)
  {
    var f := Judge(s).frame;
    var n := |f.payload|;
    PutGet(s, OFF_LEN);
    PutGet(s, OFF_CORR_ID);
    PutGet(s, HEADER_LEN + n);
    assert s[OFF_LEN..HEADER_LEN + n] == Body(f);
    assert s[..Size(f)] == [s[0]] + s[OFF_LEN..HEADER_LEN + n] + s[HEADER_LEN + n..HEADER_LEN + n + 2];
  }

  /** Every verdict in terms of the bytes: a candidate waits only while its header or the
      length that its header names is not there, and is taken exactly when it is an encoding. */
  lemma VerdictExactlyWhen(s: seq<byte>)
    requires s != []
    ensures Judge(s).NotSof? <==> s[0] != 0xaa
    ensures Judge(s).BadLength? <==> s[0] == 0xaa && |s| >= 6 && s[1] as int + 0x100 * s[2] as int > 1024
    ensures Judge(s).Wait? <==>
            s[0] == 0xaa && (|s| < 6 || |s| < s[1] as int + 0x100 * s[2] as int + 8 <= 1032)
    ensures Judge(s).Good? <==> exists f :: Fits(f) && Encoded(f) <= s
  {
    hide Encoded;
    if Judge(s).Good? {
      var f := Judge(s).frame;
      GoodIsEncoded(s);
      assert Encoded(f) == s[..|Encoded(f)|];
    }
    if f: Frame :| Fits(f) && Encoded(f) <= s {
      EncodedIsGood(f, s[|Encoded(f)|..]);
      assert s == Encoded(f) + s[|Encoded(f)|..];
    }
  }

  /** The bytes of a frame. */
  lemma FrameLayout(f: Frame)
    requires |f.payload| <= 1024
    ensures var s, n := Encoded(f), |f.payload|;
            && |s| == n + 8 && s[0] == 0xaa && s[1] as int + 0x100 * s[2] as int == n
            && s[3] == f.opcode && s[4] as int + 0x100 * s[5] as int == f.corrId
            && s[6..6 + n] == f.payload
            && s[6 + n] as int + 0x100 * s[7 + n] as int == Crc.Check(s[1..6 + n])
  {
    hide Encoded;
    EncodedFields(f);
  }

  lemma PutGet(s: seq<byte>, at: nat)
    requires at + 2 <= |s|
    ensures PutU16(GetU16(s, at)) == s[at..at + 2]
  {
  }

  /** A frame changed in one byte, or in two adjacent ones, of the opcode, the ID or
      the payload is rejected at its own SOF. */
  lemma ChangedFrameIsRejected(f: Frame, t: seq<byte>, i: nat, more: seq<byte>)
    requires Fits(f) && |t| == Size(f) && t != Encoded(f)
    requires OFF_OPCODE <= i && i + 1 < HEADER_LEN + |f.payload|
    requires forall k :: 0 <= k < |t| && k != i && k != i + 1 ==> t[k] == Encoded(f)[k]
    ensures Judge(t + more) == BadCrc
  {
    hide Encoded;
    var s, n := Encoded(f), |f.payload|;
    EncodedFields(f);
    assert GetU16(t, OFF_LEN) == n;
    var covered, changed := s[OFF_LEN..HEADER_LEN + n], t[OFF_LEN..HEADER_LEN + n];
    var k :| 0 <= k < |t| && t[k] != s[k];
    assert covered[k - 1] != changed[k - 1];
    Crc.TwoAdjacentBytesDetected(covered, changed, i - 1);
    assert GetU16(t, HEADER_LEN + n) == GetU16(s, HEADER_LEN + n);
    assert Judge(t) == BadCrc;
    JudgeIsStable(t, more);
  }
}
