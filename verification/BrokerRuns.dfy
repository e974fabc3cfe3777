/** The broker over whole runs, on a link that loses, repeats and delays frames. */
module BrokerRuns {
  import opened Bytes
  import opened Frames
  import opened BrokerCore
  import opened Scan

  /** What happens next. A reply on the link was made for the request `serial`, and it
      may arrive any number of times, at any later moment, or never. */
  datatype Event =
    | FromPeer(arrival: Arrival)
    | Reply(serial: nat, opcode: byte, payload: seq<byte>)
    | Push(opcode: byte, payload: seq<byte>)
    | Timer

  const IDS := 0xffff

  /** The link ID of the request number `serial`. */
  function LinkId(serial: nat): u16 {
    serial % IDS + 1
  }

  /** A frame that a peer sent. `passed`: raw bytes that went to the line instead. */
  datatype Taken = Taken(peer: nat, frame: Frame, passed: bool)

  datatype Cause = ByBroker | ByReply(origin: nat, serial: nat) | ByTimeout(serial: nat)

  /** An answer to the frame number `tag`. */
  datatype Answer = Answer(tag: nat, out: ToPeer, cause: Cause)

  datatype Write = Sent(serial: nat, bytes: seq<byte>) | RawOut(tag: nat, bytes: seq<byte>)

  /** A run so far: the broker, and the log of what it took, answered and wrote.
      `owners[k]` is the frame for which request k was started. */
  datatype Sys = Sys(core: Core, peers: seq<seq<byte>>, taken: seq<Taken>, owners: seq<nat>,
                     answers: seq<Answer>, line: seq<Write>)

  function Start(peers: seq<seq<byte>>): Sys {
    Sys(INITIAL, peers, [], [], [], [])
  }

  /** The broker's answers, tagged with the frame they are for. */
  function Tagged(tag: nat, outs: seq<ToPeer>, cause: Cause): (a: seq<Answer>)
    ensures |a| == |outs|
  {
    seq(|outs|, i requires 0 <= i < |outs| => Answer(tag, outs[i], cause))
  }

  function Current(s: Sys): nat {
    if s.owners == [] then 0 else s.owners[|s.owners| - 1]
  }

  function SentAs(serial: nat, writes: seq<seq<byte>>): seq<Write> {
    seq(|writes|, i requires 0 <= i < |writes| => Sent(serial, writes[i]))
  }

  function RawAs(tag: nat, writes: seq<seq<byte>>): seq<Write> {
    seq(|writes|, i requires 0 <= i < |writes| => RawOut(tag, writes[i]))
  }

  function Last(s: Sys): nat {
    if s.owners == [] then 0 else |s.owners| - 1
  }

  function FromPeerStep(s: Sys, a: Arrival): Sys {
    var e := OnPeerFrame(s.core, a.peer, a.frame, a.nodes);
    var tag := |s.taken|;
    var passed := a.frame.opcode == OP_RAW_DATA && s.core.raw == a.peer;
    var started := e.core.nextId != s.core.nextId;
    s.(core := e.core,
       taken := s.taken + [Taken(a.peer, a.frame, passed)],
       owners := if started then s.owners + [tag] else s.owners,
       answers := s.answers + Tagged(tag, e.outs, ByBroker),
       line := s.line + if passed then RawAs(tag, e.writes) else SentAs(|s.owners|, e.writes))
  }

  function ReplyStep(s: Sys, origin: nat, f: Frame): Sys {
    var e := OnLinkFrame(s.core, s.peers, f);
    s.(core := e.core, answers := s.answers + Tagged(Current(s), e.outs, ByReply(origin, Last(s))))
  }

  function TimerStep(s: Sys): Sys {
    var e := OnTimer(s.core);
    s.(core := e.core,
       answers := s.answers + Tagged(Current(s), e.outs, ByTimeout(Last(s))),
       line := s.line + SentAs(Last(s), e.writes))
  }

  function Step(s: Sys, ev: Event): Sys {
    match ev
    case FromPeer(a) => FromPeerStep(s, a)
    case Reply(serial, opcode, payload) =>
      // No reply exists before its request, and raw mode parses no frame.
      if serial < |s.owners| && s.core.raw < 0 then
        ReplyStep(s, serial, Frame(opcode, LinkId(serial), payload))
      else s
    case Push(opcode, payload) =>
      s.(core := OnLinkFrame(s.core, s.peers, Frame(opcode, CORR_ID_PUSH, payload)).core)
    case Timer => TimerStep(s)
  }

  function Runs(peers: seq<seq<byte>>, events: seq<Event>): Sys {
    if events == [] then Start(peers)
    else Step(Runs(peers, events[..|events| - 1]), events[|events| - 1])
  }

  // ---------------------------------------------------------------------------
  // Counting in the log
  // ---------------------------------------------------------------------------

  function AnswersTo(answers: seq<Answer>, tag: nat): nat {
    if answers == [] then 0
    else AnswersTo(answers[..|answers| - 1], tag) + if answers[|answers| - 1].tag == tag then 1 else 0
  }

  function Attempts(line: seq<Write>, serial: nat): nat {
    if line == [] then 0
    else
      var w := line[|line| - 1];
      Attempts(line[..|line| - 1], serial) + if w.Sent? && w.serial == serial then 1 else 0
  }

  /** The raw payloads on the line, and those that the raw holders sent. */
  function RawWritten(line: seq<Write>): seq<seq<byte>> {
    if line == [] then []
    else
      var w := line[|line| - 1];
      RawWritten(line[..|line| - 1]) + if w.RawOut? then [w.bytes] else []
  }

  function RawSent(taken: seq<Taken>): seq<seq<byte>> {
    if taken == [] then []
    else
      var t := taken[|taken| - 1];
      RawSent(taken[..|taken| - 1]) + if t.passed then [t.frame.payload] else []
  }

  lemma AnswersToAppend(answers: seq<Answer>, a: Answer, tag: nat)
    ensures AnswersTo(answers + [a], tag) == AnswersTo(answers, tag) + if a.tag == tag then 1 else 0
  {
    assert (answers + [a])[..|answers|] == answers;
  }

  lemma AttemptsAppend(line: seq<Write>, w: Write, serial: nat)
    ensures Attempts(line + [w], serial) == Attempts(line, serial) + if w.Sent? && w.serial == serial then 1 else 0
  {
    assert (line + [w])[..|line|] == line;
  }

  // ---------------------------------------------------------------------------
  // What every step keeps
  // ---------------------------------------------------------------------------

  /** The bytes of request k, whatever the attempt. */
  function RequestBytes(s: Sys, k: nat): seq<byte>
    requires k < |s.owners| && s.owners[k] < |s.taken| && Fits(s.taken[s.owners[k]].frame)
  {
    var f := s.taken[s.owners[k]].frame;
    Encoded(Frame(f.opcode, LinkId(k), f.payload))
  }

  ghost predicate OwnersInv(s: Sys) {
    && s.core.nextId == LinkId(|s.owners|)
    && (forall k :: 0 <= k < |s.owners| ==> s.owners[k] < |s.taken| && !s.taken[s.owners[k]].passed)
  }

  /** The request in flight is the last one started, as its peer sent it, and no peer
      holds raw mode. */
  ghost predicate InflightInv(s: Sys)
    requires OwnersInv(s)
  {
    s.core.inflight.Busy? ==>
      var r := s.core.inflight;
      && s.owners != []
      && var t := s.taken[Current(s)];
      && r.peer == t.peer && r.peerId == t.frame.corrId && Fits(t.frame)
      && r.linkId == LinkId(Last(s)) && r.bytes == RequestBytes(s, Last(s))
      && 1 <= r.tries <= REPLY_TRIES && r.tries == Attempts(s.line, Last(s))
      && s.core.raw < 0
  }

  /** Each frame but raw bytes has one answer, or is in flight with none yet. */
  ghost predicate CountInv(s: Sys) {
    forall t: nat :: AnswersTo(s.answers, t)
                     == if t < |s.taken| && !s.taken[t].passed && !(s.core.inflight.Busy? && t == Current(s))
                        then 1 else 0
  }

  ghost predicate AnswerOk(s: Sys, a: Answer)
    requires OwnersInv(s)
  {
    && a.tag < |s.taken|
    && a.out.peer == s.taken[a.tag].peer && a.out.id == s.taken[a.tag].frame.corrId
    && match a.cause
       case ByBroker => true
       case ByReply(origin, serial) =>
         origin <= serial < |s.owners| && s.owners[serial] == a.tag && (origin == serial || serial - origin >= IDS)
       case ByTimeout(serial) =>
         serial < |s.owners| && s.owners[serial] == a.tag && Attempts(s.line, serial) == REPLY_TRIES
         && a.out == Nack(a.out.peer, a.out.id, ERR_FAILED)
  }

  ghost predicate WriteOk(s: Sys, w: Write)
    requires OwnersInv(s)
  {
    w.Sent? ==> w.serial < |s.owners| && Fits(s.taken[s.owners[w.serial]].frame) && w.bytes == RequestBytes(s, w.serial)
  }

  ghost predicate LineInv(s: Sys)
    requires OwnersInv(s)
  {
    && (forall i :: 0 <= i < |s.line| ==> WriteOk(s, s.line[i]))
    && (forall k: nat :: Attempts(s.line, k) <= if k < |s.owners| then REPLY_TRIES else 0)
    && RawWritten(s.line) == RawSent(s.taken)
  }

  ghost predicate AnswersInv(s: Sys)
    requires OwnersInv(s)
  {
    forall i :: 0 <= i < |s.answers| ==> AnswerOk(s, s.answers[i])
  }

  ghost predicate Inv(s: Sys) {
    OwnersInv(s) && InflightInv(s) && CountInv(s) && AnswersInv(s) && LineInv(s)
  }

  lemma NextIdIsLinkId(n: nat)
    ensures NextId(LinkId(n)) == LinkId(n + 1)
  {
  }

  /** Equal link IDs belong to one request, or to two that lie 65535 apart. */
  lemma EqualIds(a: nat, b: nat)
    requires a <= b && LinkId(a) == LinkId(b)
    ensures a == b || b - a >= IDS
  {
    if b - a < IDS {
      assert a % IDS == b % IDS;
      assert b == a + (b - a);
    }
  }

  lemma StartInv(peers: seq<seq<byte>>)
    ensures Inv(Start(peers))
  {
  }

  /** A frame that the broker answers itself, the request in flight untouched. */
  lemma AnswerKeepsInv(s: Sys, c: Core, t: Taken, out: ToPeer, s': Sys)
    requires Inv(s) && !t.passed && out.peer == t.peer && out.id == t.frame.corrId
    requires c.inflight == s.core.inflight && c.nextId == s.core.nextId
    requires c.inflight.Busy? ==> c.raw < 0
    requires s' == s.(core := c, taken := s.taken + [t],
                      answers := s.answers + [Answer(|s.taken|, out, ByBroker)])
    ensures Inv(s')
  {
    hide Encoded;
    assert s'.taken[..|s.taken|] == s.taken;
    forall tag: nat
      ensures AnswersTo(s'.answers, tag) == AnswersTo(s.answers, tag) + if |s.taken| == tag then 1 else 0
    {
      AnswersToAppend(s.answers, Answer(|s.taken|, out, ByBroker), tag);
    }
    assert CountInv(s');
    assert OwnersInv(s');
    assert InflightInv(s');
    assert RawWritten(s'.line) == RawSent(s'.taken);
    assert LineInv(s');
    assert AnswersInv(s');
  }

  /** Raw bytes of the holder, put on the line as they are. */
  lemma PassKeepsInv(s: Sys, t: Taken, s': Sys)
    requires Inv(s) && t.passed
    requires s' == s.(taken := s.taken + [t], line := s.line + [RawOut(|s.taken|, t.frame.payload)])
    ensures Inv(s')
  {
    hide Encoded;
    assert s'.taken[..|s.taken|] == s.taken && s'.line[..|s.line|] == s.line;
    forall k: nat
      ensures Attempts(s'.line, k) == Attempts(s.line, k)
    {
      AttemptsAppend(s.line, RawOut(|s.taken|, t.frame.payload), k);
    }
    assert OwnersInv(s');
    assert InflightInv(s');
    assert CountInv(s');
    assert AnswersInv(s');
    assert LineInv(s');
  }

  /** A request that the broker starts. */
  lemma StartKeepsInv(s: Sys, t: Taken, s': Sys)
    requires Inv(s) && !t.passed && Fits(t.frame)
    requires s.core.inflight.Free? && s.core.raw < 0
    requires var bytes := Encoded(Frame(t.frame.opcode, s.core.nextId, t.frame.payload));
             s' == s.(core := Core(Busy(s.core.nextId, t.peer, t.frame.corrId, 1, bytes),
                                   s.core.raw, NextId(s.core.nextId), s.core.settings),
                      taken := s.taken + [t], owners := s.owners + [|s.taken|],
                      line := s.line + [Sent(|s.owners|, bytes)])
    ensures Inv(s')
  {
    hide Encoded;
    var w := s'.line[|s.line|];
    assert s'.taken[..|s.taken|] == s.taken && s'.line[..|s.line|] == s.line;
    NextIdIsLinkId(|s.owners|);
    forall k: nat
      ensures Attempts(s'.line, k) == Attempts(s.line, k) + if k == |s.owners| then 1 else 0
    {
      AttemptsAppend(s.line, w, k);
    }
    assert OwnersInv(s');
    assert InflightInv(s');
    assert CountInv(s');
    assert AnswersInv(s');
    assert RawWritten(s'.line) == RawSent(s'.taken);
    assert LineInv(s');
  }

  /** A request too large for the link: its ID is spent and the broker answers it. */
  lemma RefuseKeepsInv(s: Sys, t: Taken, out: ToPeer, s': Sys)
    requires Inv(s) && !t.passed && out.peer == t.peer && out.id == t.frame.corrId
    requires s.core.inflight.Free?
    requires s' == s.(core := s.core.(nextId := NextId(s.core.nextId)),
                      taken := s.taken + [t], owners := s.owners + [|s.taken|],
                      answers := s.answers + [Answer(|s.taken|, out, ByBroker)])
    ensures Inv(s')
  {
    hide Encoded;
    assert s'.taken[..|s.taken|] == s.taken;
    NextIdIsLinkId(|s.owners|);
    forall tag: nat
      ensures AnswersTo(s'.answers, tag) == AnswersTo(s.answers, tag) + if |s.taken| == tag then 1 else 0
    {
      AnswersToAppend(s.answers, Answer(|s.taken|, out, ByBroker), tag);
    }
    assert OwnersInv(s');
    assert CountInv(s');
    assert AnswersInv(s');
    assert RawWritten(s'.line) == RawSent(s'.taken);
    assert LineInv(s');
  }

  /** The answer to the request in flight, from a reply or from the last timeout. */
  lemma SettleKeepsInv(s: Sys, out: ToPeer, cause: Cause, s': Sys)
    requires Inv(s) && s.core.inflight.Busy?
    requires out.peer == s.core.inflight.peer && out.id == s.core.inflight.peerId
    requires AnswerOk(s, Answer(Current(s), out, cause))
    requires s' == s.(core := s.core.(inflight := Free), answers := s.answers + [Answer(Current(s), out, cause)])
    ensures Inv(s')
  {
    hide Encoded;
    var a := Answer(Current(s), out, cause);
    forall tag: nat
      ensures AnswersTo(s'.answers, tag) == AnswersTo(s.answers, tag) + if Current(s) == tag then 1 else 0
    {
      AnswersToAppend(s.answers, a, tag);
    }
    assert CountInv(s');
    assert AnswersInv(s');
    assert LineInv(s');
  }

  /** One more attempt, with the same bytes. */
  lemma ResendKeepsInv(s: Sys, s': Sys)
    requires Inv(s) && s.core.inflight.Busy? && s.core.inflight.tries < REPLY_TRIES
    requires var r := s.core.inflight;
             s' == s.(core := s.core.(inflight := r.(tries := r.tries + 1)),
                      line := s.line + [Sent(Last(s), r.bytes)])
    ensures Inv(s')
  {
    hide Encoded;
    var w := Sent(Last(s), s.core.inflight.bytes);
    assert s'.line[..|s.line|] == s.line;
    forall k: nat
      ensures Attempts(s'.line, k) == Attempts(s.line, k) + if k == Last(s) then 1 else 0
    {
      AttemptsAppend(s.line, w, k);
    }
    StillOwed(s);
    assert OwnersInv(s');
    assert InflightInv(s');
    assert CountInv(s');
    assert AnswersInv(s');
    assert RawWritten(s'.line) == RawSent(s'.taken);
    assert LineInv(s');
  }

  /** No answer so far came from a timeout of the request in flight. */
  lemma StillOwed(s: Sys)
    requires Inv(s) && s.core.inflight.Busy?
    ensures forall i :: 0 <= i < |s.answers| ==> s.answers[i].tag != Current(s)
  {
    forall i | 0 <= i < |s.answers|
      ensures s.answers[i].tag != Current(s)
    {
      Answered(s.answers, i);
    }
  }

  lemma {:induction false} Answered(answers: seq<Answer>, i: nat)
    requires i < |answers|
    ensures AnswersTo(answers, answers[i].tag) >= 1
    decreases |answers|
  {
    if i < |answers| - 1 {
      Answered(answers[..|answers| - 1], i);
    }
  }

  lemma FromPeerKeepsInv(s: Sys, a: Arrival)
    requires Inv(s)
    ensures Inv(FromPeerStep(s, a))
  {
    hide Inv, Encoded;
    var s' := FromPeerStep(s, a);
    var e := OnPeerFrame(s.core, a.peer, a.frame, a.nodes);
    var t := s'.taken[|s.taken|];
    NextIdMoves(s.core.nextId);
    if t.passed {
      assert s'.line == s.line + [RawOut(|s.taken|, t.frame.payload)];
      PassKeepsInv(s, t, s');
    } else if e.core.nextId == s.core.nextId {
      assert |e.outs| == 1 && e.writes == [];
      assert s'.answers == s.answers + [Answer(|s.taken|, e.outs[0], ByBroker)];
      RawNeedsIdle(s, a);
      AnswerKeepsInv(s, e.core, t, e.outs[0], s');
    } else if Fits(a.frame) {
      assert s'.line == s.line + [Sent(|s.owners|, e.writes[0])];
      StartKeepsInv(s, t, s');
    } else {
      assert s'.answers == s.answers + [Answer(|s.taken|, e.outs[0], ByBroker)];
      RefuseKeepsInv(s, t, e.outs[0], s');
    }
  }

  lemma NextIdMoves(id: u16)
    ensures NextId(id) != id
  {
  }

  lemma RawNeedsIdle(s: Sys, a: Arrival)
    requires Inv(s)
    ensures var c := OnPeerFrame(s.core, a.peer, a.frame, a.nodes).core;
            c.nextId == s.core.nextId && c.inflight.Busy? ==> c.raw < 0
  {
  }

  lemma ReplyKeepsInv(s: Sys, origin: nat, f: Frame)
    requires Inv(s) && origin < |s.owners| && f.corrId == LinkId(origin)
    ensures Inv(ReplyStep(s, origin, f))
  {
    hide Encoded;
    var s' := ReplyStep(s, origin, f);
    if s.core.inflight.Busy? && s.core.inflight.linkId == f.corrId {
      EqualIds(origin, Last(s));
      var out := OnLinkFrame(s.core, s.peers, f).outs[0];
      SettleKeepsInv(s, out, ByReply(origin, Last(s)), s');
    } else {
      assert s' == s;
    }
  }

  lemma TimerKeepsInv(s: Sys)
    requires Inv(s)
    ensures Inv(TimerStep(s))
  {
    hide Encoded;
    var s' := TimerStep(s);
    if s.core.inflight.Free? {
      assert s' == s;
    } else if s.core.inflight.tries >= REPLY_TRIES {
      SettleKeepsInv(s, OnTimer(s.core).outs[0], ByTimeout(Last(s)), s');
    } else {
      assert s'.answers == s.answers;
      ResendKeepsInv(s, s');
    }
  }

  lemma {:induction false} Reachable(peers: seq<seq<byte>>, events: seq<Event>)
    ensures Inv(Runs(peers, events))
    decreases events
  {
    hide Inv, FromPeerStep, ReplyStep, TimerStep;
    if events == [] {
      StartInv(peers);
    } else {
      var s := Runs(peers, events[..|events| - 1]);
      Reachable(peers, events[..|events| - 1]);
      match events[|events| - 1]
      case FromPeer(a) => FromPeerKeepsInv(s, a);
      case Reply(serial, opcode, payload) =>
        if serial < |s.owners| && s.core.raw < 0 {
          ReplyKeepsInv(s, serial, Frame(opcode, LinkId(serial), payload));
        }
      case Push(opcode, payload) =>
        assert OnLinkFrame(s.core, s.peers, Frame(opcode, CORR_ID_PUSH, payload)).core == s.core;
      case Timer => TimerKeepsInv(s);
    }
  }

  // ---------------------------------------------------------------------------
  // Results over every run
  // ---------------------------------------------------------------------------

  /** Each frame of a peer has exactly one answer, to that peer and with its own ID. The
      raw bytes of the holder have none, and the request in flight has none yet. */
  lemma EachFrameAnsweredOnce(peers: seq<seq<byte>>, events: seq<Event>)
    ensures var s := Runs(peers, events);
            && (forall t :: 0 <= t < |s.taken| ==>
                  AnswersTo(s.answers, t)
                  == if s.taken[t].passed || (s.core.inflight.Busy? && t == Current(s)) then 0 else 1)
            && (forall i :: 0 <= i < |s.answers| ==>
                  var a := s.answers[i];
                  a.tag < |s.taken| && a.out.peer == s.taken[a.tag].peer && a.out.id == s.taken[a.tag].frame.corrId)
  {
    hide Runs;
    Reachable(peers, events);
    var s := Runs(peers, events);
    forall i | 0 <= i < |s.answers|
      ensures AnswerOk(s, s.answers[i])
    {
    }
  }

  /** A reply answers the request it was made for, or one 65535 or more requests later. */
  lemma RepliesAnswerTheirRequest(peers: seq<seq<byte>>, events: seq<Event>)
    ensures var s := Runs(peers, events);
            forall i :: 0 <= i < |s.answers| && s.answers[i].cause.ByReply? ==>
              var a := s.answers[i];
              && a.cause.origin <= a.cause.serial < |s.owners|
              && s.owners[a.cause.serial] == a.tag
              && (a.cause.origin == a.cause.serial || a.cause.serial - a.cause.origin >= IDS)
  {
    hide Runs;
    Reachable(peers, events);
    var s := Runs(peers, events);
    forall i | 0 <= i < |s.answers|
      ensures AnswerOk(s, s.answers[i])
    {
    }
  }

  /** In every reachable state a reply is taken exactly when its age is a multiple of
      65535 requests. */
  lemma ReplyTakenExactlyWhen(peers: seq<seq<byte>>, events: seq<Event>, origin: nat, f: Frame)
    requires var s := Runs(peers, events);
             s.core.inflight.Busy? && origin < |s.owners| && f.corrId == LinkId(origin)
    ensures var s := Runs(peers, events);
            ReplyStep(s, origin, f).core.inflight.Free? <==> (Last(s) - origin) % IDS == 0
  {
    hide Runs, Encoded;
    Reachable(peers, events);
    var s := Runs(peers, events);
    SameIdIff(origin, Last(s));
  }

  /** In every reachable state with a request in flight, a reply on the link is handed whole to
      the peer of that request, under the ID that it gave, or changes nothing at all. */
  lemma ReplyReachesItsPeer(peers: seq<seq<byte>>, events: seq<Event>, origin: nat, opcode: byte, payload: seq<byte>)
    requires var s := Runs(peers, events); s.core.inflight.Busy? && origin < |s.owners|
    ensures var s, t := Runs(peers, events), Runs(peers, events + [Reply(origin, opcode, payload)]);
            && Current(s) < |s.taken|
            && var from := s.taken[Current(s)];
               if (Last(s) - origin) % IDS == 0 then
                 && t.core == s.core.(inflight := Free)
                 && t.answers == s.answers + [Answer(Current(s), ToPeer(from.peer, opcode, from.frame.corrId, payload),
                                                     ByReply(origin, Last(s)))]
                 && t == s.(core := t.core, answers := t.answers)
               else t == s
  {
    hide Runs, Encoded, CountInv, LineInv, AnswersInv;
    Reachable(peers, events);
    RunNext(peers, events, Reply(origin, opcode, payload));
    SameIdIff(origin, Last(Runs(peers, events)));
  }

  /** Where the content of an answer comes from: from a reply that the link gave for that
      request, or from the broker itself. */
  ghost predicate ContentOk(events: seq<Event>, a: Answer) {
    match a.cause
    case ByBroker => (a.out.opcode == 0xf0 && a.out.payload == [])
                     || (a.out.opcode == 0xf1 && (a.out.payload == [2] || a.out.payload == [3] || a.out.payload == [4]))
    case ByReply(origin, _) => Reply(origin, a.out.opcode, a.out.payload) in events
    case ByTimeout(_) => a.out.opcode == 0xf1 && a.out.payload == [5]
  }

  /** Over every run, an answer to a request carries the opcode and the payload of a reply on
      the link, or is a NACK for three attempts without one; and the broker itself answers
      with an empty ACK or a NACK of one of three codes. */
  lemma {:induction false} AnswersCarryTheirReplies(peers: seq<seq<byte>>, events: seq<Event>)
    ensures forall a :: a in Runs(peers, events).answers ==> ContentOk(events, a)
    decreases events
  {
    hide Step, ContentOk;
    if events != [] {
      var before, ev := events[..|events| - 1], events[|events| - 1];
      var s, t := Runs(peers, before), Runs(peers, events);
      AnswersCarryTheirReplies(peers, before);
      StepAnswers(s, ev);
      assert events == before + [ev];
      forall a | a in t.answers
        ensures ContentOk(events, a)
      {
        if a in s.answers {
          MoreEvents(before, events, a);
        } else {
          MoreEvents([ev], events, a);
        }
      }
    }
  }

  lemma MoreEvents(some: seq<Event>, events: seq<Event>, a: Answer)
    requires ContentOk(some, a) && forall ev :: ev in some ==> ev in events
    ensures ContentOk(events, a)
  {
  }

  /** The answers of one step, if there are any. */
  lemma StepAnswers(s: Sys, ev: Event)
    ensures forall a :: a in Step(s, ev).answers && a !in s.answers ==> ContentOk([ev], a)
  {
    hide Encoded;
    if ev.FromPeer? {
      PeerFrameExactlyWhen(s.core, ev.arrival);
      hide OnPeerFrame;
    }
  }

  lemma SameIdIff(a: nat, b: nat)
    requires a <= b
    ensures LinkId(a) == LinkId(b) <==> (b - a) % IDS == 0
  {
    assert b == (b - a) + a;
  }

  /** A request goes on the line at most three times, each time with the same bytes, and
      a broker that reports FAILED has used all three. */
  lemma RetriesAreBounded(peers: seq<seq<byte>>, events: seq<Event>)
    ensures var s := Runs(peers, events);
            && (forall k: nat :: Attempts(s.line, k) <= 3)
            && (forall i :: 0 <= i < |s.line| && s.line[i].Sent? ==>
                  var k := s.line[i].serial;
                  && k < |s.owners| && s.owners[k] < |s.taken| && Fits(s.taken[s.owners[k]].frame)
                  && s.line[i].bytes == RequestBytes(s, k))
            && (forall i :: 0 <= i < |s.answers| && s.answers[i].cause.ByTimeout? ==>
                  Attempts(s.line, s.answers[i].cause.serial) == 3)
  {
    hide Runs, Encoded;
    Reachable(peers, events);
    var s := Runs(peers, events);
    forall i | 0 <= i < |s.line|
      ensures WriteOk(s, s.line[i])
    {
    }
    forall i | 0 <= i < |s.answers|
      ensures AnswerOk(s, s.answers[i])
    {
    }
  }

  /** A request in flight excludes a raw holder, and the line carries the raw payloads of
      the holders in order, unchanged, and no others. */
  lemma RawModeIsExclusive(peers: seq<seq<byte>>, events: seq<Event>)
    ensures var s := Runs(peers, events);
            && !(s.core.inflight.Busy? && s.core.raw >= 0)
            && RawWritten(s.line) == RawSent(s.taken)
  {
    hide Runs;
    Reachable(peers, events);
  }

  /** Without a reply, three overdue timers end any request. */
  lemma ThreeTimersSettle(peers: seq<seq<byte>>, events: seq<Event>)
    ensures Runs(peers, events + [Timer, Timer, Timer]).core.inflight.Free?
  {
    hide Encoded, Runs, Inv, TimerStep;
    var s := Runs(peers, events);
    Reachable(peers, events);
    assert events + [Timer, Timer, Timer] == events + [Timer] + [Timer] + [Timer];
    RunNext(peers, events, Timer);
    RunNext(peers, events + [Timer], Timer);
    RunNext(peers, events + [Timer] + [Timer], Timer);
    ThreeAttempts(s);
  }

  lemma RunNext(peers: seq<seq<byte>>, events: seq<Event>, ev: Event)
    ensures Runs(peers, events + [ev]) == Step(Runs(peers, events), ev)
  {
    hide Step;
    assert (events + [ev])[..|events|] == events;
  }

  /** A request in flight has one attempt behind it at least. */
  lemma ThreeAttempts(s: Sys)
    requires Inv(s)
    ensures TimerStep(TimerStep(TimerStep(s))).core.inflight.Free?
  {
    hide Encoded, CountInv, AnswersInv, LineInv, Tagged, SentAs, RequestBytes;
  }

  /** No RAW of the run was taken by one node of the line driver and refused by the other. */
  predicate WholeSettings(events: seq<Event>) {
    forall i :: 0 <= i < |events| && events[i].FromPeer? ==>
      events[i].arrival.nodes.baudOk ==> events[i].arrival.nodes.formatOk
  }

  /** In every such run the line has the settings of the protocol whenever no peer holds it. */
  lemma {:induction false} ProtocolHasItsLine(peers: seq<seq<byte>>, events: seq<Event>)
    requires WholeSettings(events)
    ensures var c := Runs(peers, events).core; c.raw < 0 ==> c.settings == PROTOCOL
    decreases events
  {
    hide Encoded;
    if events != [] {
      ProtocolHasItsLine(peers, events[..|events| - 1]);
      StepKeepsLine(Runs(peers, events[..|events| - 1]), events[|events| - 1]);
    }
  }

  lemma StepKeepsLine(s: Sys, ev: Event)
    requires s.core.raw < 0 ==> s.core.settings == PROTOCOL
    requires ev.FromPeer? ==> ev.arrival.nodes.baudOk ==> ev.arrival.nodes.formatOk
    ensures var c := Step(s, ev).core; c.raw < 0 ==> c.settings == PROTOCOL
  {
    hide Encoded;
  }

  /** The events of arrivals that come one after the other. */
  function Coming(arrivals: seq<Arrival>): seq<Event> {
    seq(|arrivals|, i requires 0 <= i < |arrivals| => FromPeer(arrivals[i]))
  }

  /** What was handed to the peers. */
  function Outs(answers: seq<Answer>): seq<ToPeer> {
    seq(|answers|, i requires 0 <= i < |answers| => answers[i].out)
  }

  /** A run in which arrivals come one after the other is what the broker makes of them. */
  lemma {:induction false} ArrivalsAreSteps(peers: seq<seq<byte>>, events: seq<Event>, arrivals: seq<Arrival>)
    ensures var s, t := Runs(peers, events), Runs(peers, events + Coming(arrivals));
            var e := OnArrivals(s.core, arrivals);
            t.core == e.core && Outs(t.answers) == Outs(s.answers) + e.outs
    decreases arrivals
  {
    hide OnPeerFrame, FromPeerStep, Runs, Outs;
    if arrivals == [] {
      assert events + Coming(arrivals) == events;
      assert Outs(Runs(peers, events).answers) + [] == Outs(Runs(peers, events).answers);
    } else {
      var init, last := arrivals[..|arrivals| - 1], arrivals[|arrivals| - 1];
      ArrivalsAreSteps(peers, events, init);
      assert events + Coming(arrivals) == events + Coming(init) + [FromPeer(last)];
      RunNext(peers, events + Coming(init), FromPeer(last));
      OneArrival(Runs(peers, events + Coming(init)), last);
    }
  }

  lemma OneArrival(s: Sys, a: Arrival)
    ensures var t, e := FromPeerStep(s, a), OnPeerFrame(s.core, a.peer, a.frame, a.nodes);
            t.core == e.core && Outs(t.answers) == Outs(s.answers) + e.outs
  {
    hide OnPeerFrame;
  }

  // ---------------------------------------------------------------------------
  // The frames of a parser always fit
  // ---------------------------------------------------------------------------

  lemma {:induction false} ParsedFramesFit(stream: seq<byte>, i: nat)
    requires i < |ScanAll(stream).frames|
    ensures Fits(ScanAll(stream).frames[i])
    decreases |stream|
  {
    hide Judge;
    var v, tail := Judge(stream), ScanAll(stream[Scan.Step(stream)..]);
    assert ScanAll(stream) == Count(v, tail);
    if !v.Good? {
      ParsedFramesFit(stream[Scan.Step(stream)..], i);
    } else if i > 0 {
      ParsedFramesFit(stream[Scan.Step(stream)..], i - 1);
    }
  }

  /** Thus the refusal for a frame too large for the link is never taken. */
  lemma ParsedRequestsStart(stream: seq<byte>, i: nat, c: Core, peer: nat, nodes: Nodes)
    requires i < |ScanAll(stream).frames|
    requires c.inflight.Free? && c.raw < 0
    requires ScanAll(stream).frames[i].opcode !in {OP_RAW, OP_RAW_DATA}
    ensures var e := OnPeerFrame(c, peer, ScanAll(stream).frames[i], nodes);
            e.core.inflight.Busy? && e.outs == [] && e.writes == [e.core.inflight.bytes]
  {
    hide ScanAll, Encoded;
    ParsedFramesFit(stream, i);
  }
}
