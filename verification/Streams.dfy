/** What the parser does over whole histories, however the bytes were cut. */
module Streams {
  import opened Bytes
  import opened Frames
  import opened Scan
  import opened Parser

  function Concat(chunks: seq<seq<byte>>): seq<byte> {
    if chunks == [] then [] else chunks[0] + Concat(chunks[1..])
  }

  function Pushes(chunks: seq<seq<byte>>): seq<Event> {
    seq(|chunks|, i requires 0 <= i < |chunks| => Data(chunks[i]))
  }

  /** Every split of the same bytes delivers the same frames, leaves the same buffer
      and counts the same losses as one scan of the whole stream. */
  lemma {:induction false} ChunkIndependence(history: seq<Event>, chunks: seq<seq<byte>>)
    ensures var r := Replay(history);
            Replay(history + Pushes(chunks)).out == Join(r.out, ScanAll(r.out.rest + Concat(chunks)))
    decreases |chunks|
  {
    hide Judge, ScanAll, Join, PushResyncs, Replay, Settled;
    var r := Replay(history);
    if chunks == [] {
      assert history + Pushes(chunks) == history;
      assert r.out.rest + Concat(chunks) == r.out.rest;
      ScanOfSettled(r.out);
    } else {
      var c, rest := chunks[0], Concat(chunks[1..]);
      var next := history + [Data(c)];
      assert history + Pushes(chunks) == next + Pushes(chunks[1..]);
      ChunkIndependence(next, chunks[1..]);
      ReplayPush(history, c);
      var one := ScanAll(r.out.rest + c);
      JoinRest(r.out, one);
      assert r.out.rest + Concat(chunks) == (r.out.rest + c) + rest;
      ScanSplits(r.out.rest + c, rest);
      JoinAssociative(r.out, one, ScanAll(one.rest + rest));
    }
  }

  lemma ScanOfSettled(o: Outcome)
    requires Settled(o.rest)
    ensures Join(o, ScanAll(o.rest)) == o
  {
    hide Judge;
  }

  lemma JoinRest(a: Outcome, b: Outcome)
    ensures Join(a, b).rest == b.rest
  {
  }

  /** Two splits of the same bytes may differ in the count of resyncs alone. */
  lemma SameBytesSameOutcome(history: seq<Event>, a: seq<seq<byte>>, b: seq<seq<byte>>)
    requires Concat(a) == Concat(b)
    ensures Replay(history + Pushes(a)).out == Replay(history + Pushes(b)).out
  {
    hide Judge, ScanAll, Replay;
    ChunkIndependence(history, a);
    ChunkIndependence(history, b);
  }

  /** By how much they differ: bytes pushed in two pieces cost the cut between them, and each
      push costs its own cuts at the end of the buffer. */
  lemma ResyncsOfTwoPushes(history: seq<Event>, a: seq<byte>, b: seq<byte>)
    ensures var held := Replay(history).out.rest;
            var mid := ScanAll(held + a).rest;
            && |mid| < FRAME_MAX
            && Replay(history + [Data(a)] + [Data(b)]).resyncs + PushCuts(held, a + b)
            == Replay(history + [Data(a + b)]).resyncs + CutCost(held + a, b) + PushCuts(held, a) + PushCuts(mid, b)
  {
    hide Judge, ScanAll, Replay, DrainResyncs, PushResyncs, PushCuts, CutCost, Settled;
    var held := Replay(history).out.rest;
    var mid := ScanAll(held + a).rest;
    RestIsSettled(held + a);
    ReplayPush(history, a);
    ReplayPush(history + [Data(a)], b);
    ReplayPush(history, a + b);
    ResyncsOfAPush(held, a);
    ResyncsOfAPush(mid, b);
    ResyncsOfAPush(held, a + b);
    ResyncsOfACut(held + a, b);
    assert (held + a) + b == held + (a + b);
  }

  /** Pieces that fit the buffer together: cutting them costs one resync exactly when the
      first ends in one and the second does not start with a SOF. */
  lemma CuttingCostsExactlyWhen(history: seq<Event>, a: seq<byte>, b: seq<byte>)
    requires |Replay(history).out.rest| + |a| + |b| <= FRAME_MAX
    ensures var held := Replay(history).out.rest;
            Replay(history + [Data(a)] + [Data(b)]).resyncs
            == Replay(history + [Data(a + b)]).resyncs
               + if LostAll(held + a) && b != [] && b[0] != SOF then 1 else 0
  {
    hide Judge, ScanAll, Replay, LostAll, Settled;
    RestIsSettled(Replay(history).out.rest + a);
    RestShrinks(Replay(history).out.rest + a);
    ResyncsOfTwoPushes(history, a, b);
  }

  /** They do differ: two bad bytes cost one resync together and two apart. */
  lemma ResyncsDependOnTheSplit()
    ensures Concat([[0, 0]]) == Concat([[0], [0]])
    ensures Replay(Pushes([[0, 0]])).resyncs == 1
    ensures Replay(Pushes([[0], [0]])).resyncs == 2
  {
    hide Judge, Replay, DrainResyncs, ScanAll, Skipped;
    var z: seq<byte>, zz: seq<byte> := [0], [0, 0];
    ConcatFirst(z, []);
    ConcatFirst(zz, []);
    ConcatFirst(z, [z]);
    BadBytes(z);
    BadBytes(zz);
    FreshReplay();
    OnePush([], zz);
    OnePush([], z);
    assert [] + [Data(z)] == [Data(z)];
    OnePush([Data(z)], z);
    assert Pushes([zz]) == [] + [Data(zz)];
    assert Pushes([z, z]) == [Data(z)] + [Data(z)];
  }

  lemma ConcatFirst(c: seq<byte>, rest: seq<seq<byte>>)
    ensures Concat([c] + rest) == c + Concat(rest)
    ensures rest == [] ==> Concat([c]) == c
  {
    assert ([c] + rest)[1..] == rest;
    assert rest == [] ==> [c] + rest == [c] && c + Concat(rest) == c;
  }

  lemma FreshReplay()
    ensures Replay([]).resyncs == 0 && Replay([]).out.rest == []
  {
  }

  lemma BadBytes(s: seq<byte>)
    requires s == [0] || s == [0, 0]
    ensures DrainResyncs(s) == 1 && ScanAll(s).rest == []
  {
    assert Judge(s) == NotSof && Skipped(s, 1) == |s|;
    assert s[|s|..] == [];
    assert s[1..] == [] || (s[1..] == [0] && Judge(s[1..]) == NotSof && s[1..][1..] == []);
  }

  lemma OnePush(history: seq<Event>, s: seq<byte>)
    requires 0 < |s| < 3 && Replay(history).out.rest == []
    ensures var r := Replay(history + [Data(s)]);
            r.resyncs == Replay(history).resyncs + DrainResyncs(s) && r.out.rest == ScanAll(s).rest
  {
    hide Judge, ScanAll, DrainResyncs, Replay;
    ReplayPush(history, s);
    assert [] + s == s && [] + s[..|s|] == s && s[|s|..] == [];
    assert PushResyncs([], s) == DrainResyncs([] + s[..|s|]) + PushResyncs(ScanAll([] + s[..|s|]).rest, s[|s|..]);
  }

  // ---------------------------------------------------------------------------
  // Accounting
  // ---------------------------------------------------------------------------

  /** A stream cut into the bytes that were lost and the frames that were kept. */
  datatype Piece = Lost(b: byte) | Kept(f: Frame)

  function Spelled(pieces: seq<Piece>): seq<byte>
    requires forall p :: p in pieces && p.Kept? ==> Fits(p.f)
  {
    if pieces == [] then [] else SpelledOne(pieces[0]) + Spelled(pieces[1..])
  }

  function SpelledOne(p: Piece): seq<byte>
    requires p.Kept? ==> Fits(p.f)
  {
    if p.Lost? then [p.b] else Encoded(p.f)
  }

  function KeptIn(pieces: seq<Piece>): seq<Frame> {
    if pieces == [] then [] else KeptOne(pieces[0]) + KeptIn(pieces[1..])
  }

  function KeptOne(p: Piece): seq<Frame> {
    if p.Lost? then [] else [p.f]
  }

  function LostIn(pieces: seq<Piece>): nat {
    if pieces == [] then 0
    else (if pieces[0].Lost? then 1 else 0) + LostIn(pieces[1..])
  }

  /** `o` accounts for `s`: every byte was lost, kept in a frame, or still waits. */
  ghost predicate Accounts(pieces: seq<Piece>, s: seq<byte>, o: Outcome) {
    && (forall p :: p in pieces && p.Kept? ==> Fits(p.f))
    && s == Spelled(pieces) + o.rest
    && o.frames == KeptIn(pieces)
    && o.dropped == LostIn(pieces)
  }

  lemma {:induction false} PiecesJoin(a: seq<Piece>, b: seq<Piece>)
    requires forall p :: p in a + b && p.Kept? ==> Fits(p.f)
    ensures Spelled(a + b) == Spelled(a) + Spelled(b)
    ensures KeptIn(a + b) == KeptIn(a) + KeptIn(b) && LostIn(a + b) == LostIn(a) + LostIn(b)
    decreases a
  {
    hide SpelledOne, KeptOne, Fits;
    if a == [] {
      assert a + b == b;
    } else {
      assert (a + b)[1..] == a[1..] + b;
      PiecesJoin(a[1..], b);
      Associates(SpelledOne(a[0]), Spelled(a[1..]), Spelled(b));
      Associates(KeptOne(a[0]), KeptIn(a[1..]), KeptIn(b));
    }
  }

  lemma Associates<T>(a: seq<T>, b: seq<T>, c: seq<T>)
    ensures a + (b + c) == (a + b) + c
  {
  }

  lemma AccountsJoin(a: seq<Piece>, s: seq<byte>, o: Outcome, b: seq<Piece>, more: seq<byte>, o': Outcome)
    requires Accounts(a, s, o) && Accounts(b, o.rest + more, o')
    ensures Accounts(a + b, s + more, Join(o, o'))
  {
    hide Spelled, KeptIn, LostIn;
    PiecesJoin(a, b);
    assert s + more == Spelled(a) + (o.rest + more);
    assert Spelled(a) + (Spelled(b) + o'.rest) == (Spelled(a) + Spelled(b)) + o'.rest;
  }

  lemma OnePieceAccounts(s: seq<byte>)
    requires s != []
    ensures var v := Judge(s);
            Accounts([if v.Good? then Kept(v.frame) else Lost(s[0])], s, Count(v, Nothing(s[Step(s)..])))
  {
    hide Judge, Encoded, Spelled, KeptIn, LostIn;
    var v := Judge(s);
    if v.Good? {
      var f := v.frame;
      GoodIsEncoded(s);
      OnePiece(Kept(f));
      assert s == Encoded(f) + s[Size(f)..];
    } else {
      OnePiece(Lost(s[0]));
      assert s == [s[0]] + s[1..];
    }
  }

  lemma OnePiece(p: Piece)
    requires p.Kept? ==> Fits(p.f)
    ensures Spelled([p]) == SpelledOne(p) && KeptIn([p]) == KeptOne(p)
    ensures LostIn([p]) == if p.Lost? then 1 else 0
  {
    assert [p][1..] == [];
    assert SpelledOne(p) + [] == SpelledOne(p) && KeptOne(p) + [] == KeptOne(p);
  }

  lemma {:induction false} ScanAccounts(s: seq<byte>) returns (pieces: seq<Piece>)
    ensures Accounts(pieces, s, ScanAll(s))
    decreases |s|
  {
    hide Judge, Accounts;
    pieces := [];
    if Settled(s) {
      NothingAccounts(s);
    } else {
      var v, t := Judge(s), s[Step(s)..];
      var tail := ScanAccounts(t);
      pieces := [if v.Good? then Kept(v.frame) else Lost(s[0])] + tail;
      OnePieceAccounts(s);
      assert t + [] == t && s + [] == s;
      AccountsJoin(pieces[..1], s, Count(v, Nothing(t)), tail, [], ScanAll(t));
      CountJoin(v, t, ScanAll(t));
    }
  }

  lemma {:induction false} FlushAccounts(s: seq<byte>) returns (pieces: seq<Piece>)
    ensures Accounts(pieces, s, Flush(s))
    decreases |s|
  {
    hide Judge, Accounts;
    pieces := [];
    if s == [] {
      NothingAccounts(s);
    } else {
      var v, t := Judge(s), s[Step(s)..];
      var tail := FlushAccounts(t);
      pieces := [if v.Good? then Kept(v.frame) else Lost(s[0])] + tail;
      OnePieceAccounts(s);
      assert t + [] == t && s + [] == s;
      AccountsJoin(pieces[..1], s, Count(v, Nothing(t)), tail, [], Flush(t));
      CountJoin(v, t, Flush(t));
    }
  }

  lemma NothingAccounts(s: seq<byte>)
    ensures Accounts([], s, Nothing(s))
  {
  }

  lemma CountJoin(v: Verdict, t: seq<byte>, o: Outcome)
    ensures Join(Count(v, Nothing(t)), o) == Count(v, o)
  {
  }

  function Received(history: seq<Event>): seq<byte> {
    if history == [] then []
    else
      var e := history[|history| - 1];
      Received(history[..|history| - 1]) + if e.Data? then e.bytes else []
  }

  /** In every reachable state the bytes received are the lost ones, the encodings of
      the delivered frames and the held ones, in order. */
  lemma {:induction false} EveryByteIsAccountedFor(history: seq<Event>) returns (pieces: seq<Piece>)
    ensures Accounts(pieces, Received(history), Replay(history).out)
    decreases |history|
  {
    hide Judge, Accounts, ScanAll, Flush, Join;
    pieces := [];
    if history == [] {
      NothingAccounts([]);
    } else {
      var before, e := history[..|history| - 1], history[|history| - 1];
      var r := Replay(before);
      var first := EveryByteIsAccountedFor(before);
      var more := if e.Data? then e.bytes else [];
      assert e.Idle? ==> r.out.rest + more == r.out.rest;
      var second := [];
      if e.Data? {
        second := ScanAccounts(r.out.rest + more);
      } else {
        second := FlushAccounts(r.out.rest);
      }
      pieces := first + second;
      AccountsJoin(first, Received(before), r.out, second, more,
                   if e.Data? then ScanAll(r.out.rest + more) else Flush(r.out.rest));
    }
  }

  function SizeOf(frames: seq<Frame>): nat {
    if frames == [] then 0 else Size(frames[0]) + SizeOf(frames[1..])
  }

  lemma {:induction false} SpelledLength(pieces: seq<Piece>)
    requires forall p :: p in pieces && p.Kept? ==> Fits(p.f)
    ensures |Spelled(pieces)| == LostIn(pieces) + SizeOf(KeptIn(pieces))
    decreases pieces
  {
    if pieces != [] {
      SpelledLength(pieces[1..]);
      var rest := KeptIn(pieces[1..]);
      if pieces[0].Kept? {
        assert ([pieces[0].f] + rest)[1..] == rest;
      } else {
        assert [] + rest == rest;
      }
    }
  }

  /** Bytes in = bytes dropped + bytes of accepted frames + bytes held. */
  lemma Conservation(history: seq<Event>)
    ensures var o := Replay(history).out;
            |Received(history)| == o.dropped + SizeOf(o.frames) + |o.rest|
  {
    var pieces := EveryByteIsAccountedFor(history);
    SpelledLength(pieces);
  }

  // ---------------------------------------------------------------------------
  // Recovery
  // ---------------------------------------------------------------------------

  function EncodeAll(frames: seq<Frame>): seq<byte>
    requires forall f :: f in frames ==> Fits(f)
  {
    if frames == [] then [] else Encoded(frames[0]) + EncodeAll(frames[1..])
  }

  lemma {:induction false} ScanUndoesEncode(frames: seq<Frame>)
    requires forall f :: f in frames ==> Fits(f)
    ensures ScanAll(EncodeAll(frames)) == Outcome(frames, [], 0, 0, 0)
    decreases frames
  {
    hide Judge, Encoded;
    if frames != [] {
      var f, rest := frames[0], EncodeAll(frames[1..]);
      EncodedIsGood(f, rest);
      assert (Encoded(f) + rest)[Size(f)..] == rest;
      ScanUndoesEncode(frames[1..]);
    }
  }

  /** From every reachable state, an idle line followed by any split of encoded frames
      delivers exactly those frames and loses nothing more. */
  lemma Recovery(history: seq<Event>, frames: seq<Frame>, chunks: seq<seq<byte>>)
    requires forall f :: f in frames ==> Fits(f)
    requires Concat(chunks) == EncodeAll(frames)
    ensures Replay(history + [Idle] + Pushes(chunks)).out
         == Join(Replay(history + [Idle]).out, Outcome(frames, [], 0, 0, 0))
  {
    hide Judge, ScanAll, Replay, Join;
    ReplayIdle(history);
    FlushEmpties(Replay(history).out.rest);
    JoinRest(Replay(history).out, Flush(Replay(history).out.rest));
    ChunkIndependence(history + [Idle], chunks);
    assert [] + Concat(chunks) == EncodeAll(frames);
    ScanUndoesEncode(frames);
  }

  // ---------------------------------------------------------------------------
  // Damage without an idle line
  // ---------------------------------------------------------------------------

  /** A candidate for a frame starts the held bytes, and it is one that more bytes can finish:
      its header is not whole, or names a length that fits and is not there yet. */
  lemma HeldIsACandidate(history: seq<Event>)
    ensures var rest := Replay(history).out.rest;
            rest != [] ==>
              && rest[0] == 0xaa
              && (|rest| < 6 || |rest| < rest[1] as int + 0x100 * rest[2] as int + 8 <= 1032)
  {
    hide Judge, Replay;
    var rest := Replay(history).out.rest;
    if rest != [] {
      VerdictExactlyWhen(rest);
    }
  }

  /** A part of a stream: a frame, bytes that start no frame, a header that names more than
      the maximum, or a frame that fails its check. */
  datatype Part = Sound(f: Frame) | Noise(bytes: seq<byte>) | Overlong(header: seq<byte>) | Damaged(bytes: seq<byte>)

  predicate NoSof(s: seq<byte>) {
    forall i :: 0 <= i < |s| ==> s[i] != 0xaa
  }

  /** Beyond its first byte a bad part holds no SOF, which would start a candidate of its own. */
  ghost predicate PartOk(p: Part) {
    match p
    case Sound(f) => Fits(f)
    case Noise(s) => NoSof(s)
    case Overlong(s) => |s| == 6 && s[0] == 0xaa && NoSof(s[1..]) && s[1] as int + 0x100 * s[2] as int > 1024
    case Damaged(s) =>
      && |s| >= 8 && s[0] == 0xaa && NoSof(s[1..]) && |s| == s[1] as int + 0x100 * s[2] as int + 8 <= 1032
      && forall f :: Fits(f) ==> Encoded(f) != s
  }

  ghost function PartBytes(p: Part): seq<byte>
    requires PartOk(p)
  {
    match p
    case Sound(f) => Encoded(f)
    case Noise(s) => s
    case Overlong(s) => s
    case Damaged(s) => s
  }

  ghost function PartsBytes(parts: seq<Part>): seq<byte>
    requires forall p :: p in parts ==> PartOk(p)
  {
    if parts == [] then [] else PartBytes(parts[0]) + PartsBytes(parts[1..])
  }

  /** What a part gives, ahead of what the others give. */
  function PartOutcome(p: Part, o: Outcome): Outcome {
    match p
    case Sound(f) => o.(frames := [f] + o.frames)
    case Noise(s) => o.(dropped := |s| + o.dropped)
    case Overlong(s) => o.(badLength := 1 + o.badLength, dropped := |s| + o.dropped)
    case Damaged(s) => o.(crcErrors := 1 + o.crcErrors, dropped := |s| + o.dropped)
  }

  function PartsOutcome(parts: seq<Part>): Outcome {
    if parts == [] then Outcome([], [], 0, 0, 0) else PartOutcome(parts[0], PartsOutcome(parts[1..]))
  }

  /** A bad candidate without a SOF behind its first byte costs exactly its bytes. */
  lemma BadPartIsLost(s: seq<byte>, more: seq<byte>)
    requires s != [] && NoSof(s[1..]) && !Judge(s).Good? && !Judge(s).Wait?
    ensures ScanAll(s + more) == Lose(Judge(s), |s|, ScanAll(more))
  {
    hide Judge, ScanAll;
    JudgeIsStable(s, more);
    OneVerdict(s + more);
    assert (s + more)[1..] == s[1..] + more;
    JumpLikeScan((s + more)[1..], |s| - 1);
    assert (s[1..] + more)[|s| - 1..] == more;
  }

  lemma DamagedIsBadCrc(s: seq<byte>)
    requires PartOk(Damaged(s))
    ensures Judge(s) == BadCrc
  {
    hide Judge, Encoded;
    VerdictExactlyWhen(s);
    if f: Frame :| Fits(f) && Encoded(f) <= s {
      FrameLayout(f);
      assert false;
    }
  }

  lemma PartScans(p: Part, more: seq<byte>)
    requires PartOk(p)
    ensures ScanAll(PartBytes(p) + more) == PartOutcome(p, ScanAll(more))
  {
    hide Judge, ScanAll, Encoded;
    match p
    case Sound(f) =>
      EncodedIsGood(f, more);
      OneVerdict(Encoded(f) + more);
      assert (Encoded(f) + more)[Size(f)..] == more;
    case Noise(s) =>
      JumpLikeScan(s + more, |s|);
      assert (s + more)[|s|..] == more;
    case Overlong(s) =>
      VerdictExactlyWhen(s);
      BadPartIsLost(s, more);
    case Damaged(s) =>
      DamagedIsBadCrc(s);
      BadPartIsLost(s, more);
  }

  lemma {:induction false} PartsScan(parts: seq<Part>)
    requires forall p :: p in parts ==> PartOk(p)
    ensures ScanAll(PartsBytes(parts)) == PartsOutcome(parts)
    decreases parts
  {
    hide Judge, PartOk, PartBytes, PartOutcome;
    if parts != [] {
      assert PartOk(parts[0]);
      PartsScan(parts[1..]);
      PartScans(parts[0], PartsBytes(parts[1..]));
    }
  }

  /** From every reachable state that holds nothing, however the bytes are cut and without an
      idle line: of any frames with damage between them all frames arrive in order, and each
      bad part costs its own bytes and at most one error of its kind. */
  lemma DamageCostsItself(history: seq<Event>, parts: seq<Part>, chunks: seq<seq<byte>>)
    requires forall p :: p in parts ==> PartOk(p)
    requires Replay(history).out.rest == [] && Concat(chunks) == PartsBytes(parts)
    ensures Replay(history + Pushes(chunks)).out == Join(Replay(history).out, PartsOutcome(parts))
  {
    hide Judge, ScanAll, Replay, Join, PartOk, PartOutcome;
    ChunkIndependence(history, chunks);
    assert [] + Concat(chunks) == PartsBytes(parts);
    PartsScan(parts);
  }

  /** A frame that was cut short and names more bytes than came: what came behind it inside that
      length waits with it, and an idle line delivers it, at the cost of the cut frame alone. */
  lemma IdleFreesWhatWaits(history: seq<Event>, part: seq<byte>, frames: seq<Frame>)
    requires Replay(history).out.rest == [] && forall f :: f in frames ==> Fits(f)
    requires |part| >= 3 && part[0] == 0xaa && NoSof(part[1..])
    requires |part + EncodeAll(frames)| < part[1] as int + 0x100 * part[2] as int + 8 <= 1032
    ensures var s, waits := part + EncodeAll(frames), Replay(history + [Data(part + EncodeAll(frames))]);
            && waits.out.frames == Replay(history).out.frames && waits.out.rest == s
            && Replay(history + [Data(s)] + [Idle]).out
               == Join(Replay(history).out, Outcome(frames, [], 0, 0, |part|))
  {
    hide Judge, ScanAll, Flush, Replay, Join, EncodeAll;
    var s := part + EncodeAll(frames);
    ReplayPush(history, s);
    ReplayIdle(history + [Data(s)]);
    assert [] + s == s;
    VerdictExactlyWhen(s);
    CandidateWaits(s);
    FlushOfCut(part, frames);
    JoinWaiting(Replay(history).out, s, Outcome(frames, [], 0, 0, |part|));
  }

  lemma CandidateWaits(s: seq<byte>)
    requires s != [] && Judge(s).Wait?
    ensures ScanAll(s) == Nothing(s)
  {
  }

  lemma JoinWaiting(a: Outcome, s: seq<byte>, o: Outcome)
    ensures Join(a, Nothing(s)).frames == a.frames && Join(a, Nothing(s)).rest == s
    ensures Join(Join(a, Nothing(s)), o) == Join(a, o)
  {
  }

  lemma FlushOfCut(part: seq<byte>, frames: seq<Frame>)
    requires part != [] && NoSof(part[1..]) && forall f :: f in frames ==> Fits(f)
    requires Judge(part + EncodeAll(frames)).Wait?
    ensures Flush(part + EncodeAll(frames)) == Outcome(frames, [], 0, 0, |part|)
  {
    hide Judge, ScanAll, EncodeAll, Flush, Fits;
    var all := EncodeAll(frames);
    FlushWaiting(part + all);
    WithoutFirst(part, all);
    FlushSkips(part[1..], all);
    FlushFinishesScan(all);
    ScanUndoesEncode(frames);
    EmptyFlush();
  }

  lemma FlushWaiting(s: seq<byte>)
    requires s != [] && Judge(s).Wait?
    ensures Flush(s) == Lose(Wait, 1, Flush(s[1..]))
  {
    hide Judge;
  }

  lemma WithoutFirst(a: seq<byte>, b: seq<byte>)
    requires a != []
    ensures (a + b)[1..] == a[1..] + b
  {
  }

  lemma FlushSkips(noise: seq<byte>, more: seq<byte>)
    requires NoSof(noise)
    ensures Flush(noise + more) == Lose(NotSof, |noise|, Flush(more))
  {
    hide Judge, ScanAll, Flush;
    JumpLikeScan(noise + more, |noise|);
    assert (noise + more)[|noise|..] == more;
  }

  lemma EmptyFlush()
    ensures Flush([]) == Nothing([])
  {
  }

  lemma {:induction false} SoundCostsNoResync(frames: seq<Frame>)
    requires forall f :: f in frames ==> Fits(f)
    ensures DrainResyncs(EncodeAll(frames)) == 0
    decreases frames
  {
    hide Judge, Encoded;
    if frames != [] {
      var f, rest := frames[0], EncodeAll(frames[1..]);
      EncodedIsGood(f, rest);
      assert (Encoded(f) + rest)[Size(f)..] == rest;
      SoundCostsNoResync(frames[1..]);
    }
  }

  lemma {:induction false} SkippedTo(s: seq<byte>, from: nat, to: nat)
    requires from <= to <= |s| && (to == |s| || s[to] == SOF)
    requires forall i :: from <= i < to ==> s[i] != SOF
    ensures Skipped(s, from) == to
    decreases |s| - from
  {
    if from < to {
      SkippedTo(s, from + 1, to);
    }
  }

  /** A bad part in front of frames costs one resync, whatever is wrong with it. */
  lemma BadPartCostsOneResync(p: Part, frames: seq<Frame>)
    requires PartOk(p) && !p.Sound? && PartBytes(p) != [] && forall f :: f in frames ==> Fits(f)
    ensures DrainResyncs(PartBytes(p) + EncodeAll(frames)) == 1
  {
    hide Judge, EncodeAll, Skipped, ScanAll;
    var part, all := PartBytes(p), EncodeAll(frames);
    BadVerdict(p);
    JudgeIsStable(part, all);
    StartsWithSof(frames);
    var s := part + all;
    assert forall i :: 1 <= i < |part| ==> s[i] == part[i] != SOF by {
      NoSofBehind(p);
    }
    SkippedTo(s, 1, |part|);
    OneJump(s);
    assert s[|part|..] == all;
    SoundCostsNoResync(frames);
  }

  lemma NoSofBehind(p: Part)
    requires PartOk(p) && !p.Sound? && PartBytes(p) != []
    ensures forall i :: 1 <= i < |PartBytes(p)| ==> PartBytes(p)[i] != 0xaa
  {
    var s := PartBytes(p);
    assert forall i :: 1 <= i < |s| ==> s[i] == s[1..][i - 1];
  }

  lemma BadVerdict(p: Part)
    requires PartOk(p) && !p.Sound? && PartBytes(p) != []
    ensures !Judge(PartBytes(p)).Good? && !Judge(PartBytes(p)).Wait?
  {
    hide Judge;
    VerdictExactlyWhen(PartBytes(p));
    if p.Damaged? {
      DamagedIsBadCrc(p.bytes);
    }
  }

  lemma StartsWithSof(frames: seq<Frame>)
    requires forall f :: f in frames ==> Fits(f)
    ensures EncodeAll(frames) != [] ==> EncodeAll(frames)[0] == SOF
  {
    if frames != [] {
      assert Fits(frames[0]);
      FrameLayout(frames[0]);
    }
  }
}
