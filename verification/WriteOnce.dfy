/** The write-once protocol of a USB channel: an alternating sequence that rides on the
    retries of the broker, over a link that loses frames but keeps their order. */
module WriteOnce {
  import opened Bytes
  import BrokerCore
  import BrokerRuns

  /** A request of tg-usb: the write number `write`, or any other one, of which a
      subscription resets the sequence. `Foreign` is a request of another peer. */
  datatype Request = Write(write: nat, seqNo: byte, data: seq<byte>) | Other(subscribes: bool) | Foreign

  /** One copy of a request on its way to the board. */
  datatype Copy = Copy(serial: nat, request: Request)

  /** The answer of the board to the request `serial`; `ack`: it is no NACK. */
  datatype Reply = Reply(serial: nat, ack: bool)

  /** The answer in the response pipe, with the request it is for. */
  datatype Answer = Answer(of: Request, ack: bool)

  datatype Inflight = Free | Busy(serial: nat, tries: nat, request: Request)

  /** What tg-usb waits for. */
  datatype Waiting = Idle | ForWrite | ForOther(subscribes: bool)

  /** `writes` are the writes the caller makes, each repeated until it is ACKed; `acked`
      of them were. `asked` tells whether the current write was asked for yet. `sent`
      records the request of each serial, `has` whether the board took the current
      write, `last` the sequence of the last ACKed write, and `made` and `took` count
      the asks and the answers read. */
  datatype State = State(
    writes: seq<seq<byte>>,
    acked: nat, clientSeq: byte, asked: bool, waiting: Waiting,  // tg-usb
    requests: seq<Request>, answers: seq<Answer>,                // the two pipes
    inflight: Inflight,                                          // the broker
    toBoard: seq<Copy>, toBroker: seq<Reply>,                    // the link
    seqValid: bool, boardSeq: byte, stream: seq<byte>,           // the board
    sent: seq<Request>, has: bool, last: byte, made: nat, took: nat) // the log

  datatype Event =
    | Ask                        // the caller writes, or repeats a failed write
    | AskOther(subscribes: bool) // tg-usb asks something else
    | Deadline                   // tg-usb stops waiting
    | ClientReads(n: nat)        // tg-usb reads n answers at once, and takes the last
    | ClientDrains               // a read of the channel empties the response pipe
    | BrokerStarts
    | BrokerRefuses              // another peer holds the link
    | ForeignRequest             // a request of another peer comes and goes
    | Timer
    | BoardTakes(ok: bool)       // the board does what a copy asks, or refuses
    | BrokerTakes
    | LoseCopy(i: nat)
    | LoseReply(i: nat)

  function Start(writes: seq<seq<byte>>): State {
    State(writes, 0, 0, false, Idle, [], [], Free, [], [], false, 0, [], [], false, 0, 0, 0)
  }

  function Without<T>(s: seq<T>, i: nat): seq<T>
    requires i < |s|
  {
    s[..i] + s[i + 1..]
  }

  /** tg-usb takes an answer for the one it waits for. An ACK alone moves the sequence. */
  function Answered(s: State, ack: bool): (t: State)
    ensures t.writes == s.writes
  {
    match s.waiting
    case Idle => s
    case ForWrite =>
      if ack then
        s.(waiting := Idle, asked := false, acked := s.acked + 1, last := s.clientSeq,
           clientSeq := (s.clientSeq + 1) % 0x100, has := false)
      else s.(waiting := Idle)
    case ForOther(subscribes) =>
      s.(waiting := Idle, clientSeq := if ack && subscribes then 0 else s.clientSeq)
  }

  /** The board takes a copy: a repeated sequence adds nothing to the stream. */
  function BoardStep(s: State, c: Copy, ok: bool): (t: State)
    ensures t.writes == s.writes
  {
    if !c.request.Write? then s.(toBroker := s.toBroker + [Reply(c.serial, ok)])
    else if s.seqValid && s.boardSeq == c.request.seqNo then
      s.(toBroker := s.toBroker + [Reply(c.serial, true)])
    else if c.request.data != [] && !ok then
      s.(toBroker := s.toBroker + [Reply(c.serial, false)])
    else
      s.(stream := s.stream + c.request.data, seqValid := true, boardSeq := c.request.seqNo, has := true,
         toBroker := s.toBroker + [Reply(c.serial, true)])
  }

  function Transmit(s: State): (t: State)
    requires s.inflight.Busy?
    ensures t.writes == s.writes
  {
    var r := s.inflight;
    s.(inflight := r.(tries := r.tries + 1), toBoard := s.toBoard + [Copy(r.serial, r.request)])
  }

  function Asked(s: State, w: Waiting, r: Request): State {
    s.(waiting := w, requests := s.requests + [r], made := s.made + 1)
  }

  function Step(s: State, ev: Event): State {
    match ev
    case Ask =>
      if !s.waiting.Idle? || s.acked >= |s.writes| then s
      else Asked(s.(asked := true), ForWrite, Write(s.acked, s.clientSeq, s.writes[s.acked]))
    case AskOther(subscribes) =>
      if !s.waiting.Idle? then s else Asked(s, ForOther(subscribes), Other(subscribes))
    case Deadline => s.(waiting := Idle)
    case ClientReads(n) =>
      if s.waiting.Idle? || n == 0 || n > |s.answers| then s
      else Answered(s.(answers := s.answers[n..], took := s.took + n), s.answers[n - 1].ack)
    case ClientDrains =>
      if !s.waiting.Idle? || s.answers == [] then s
      else s.(answers := s.answers[1..], took := s.took + 1)
    case BrokerStarts =>
      if s.inflight.Busy? || s.requests == [] then s
      else
        var r := s.requests[0];
        Transmit(s.(requests := s.requests[1..], sent := s.sent + [r], inflight := Busy(|s.sent|, 0, r)))
    case BrokerRefuses =>
      if s.requests == [] then s
      else s.(requests := s.requests[1..], answers := s.answers + [Answer(s.requests[0], false)])
    case ForeignRequest =>
      if s.inflight.Busy? then s else s.(sent := s.sent + [Foreign])
    case Timer =>
      if s.inflight.Free? then s
      else if s.inflight.tries >= BrokerCore.REPLY_TRIES then
        s.(inflight := Free, answers := s.answers + [Answer(s.inflight.request, false)])
      else Transmit(s)
    case BoardTakes(ok) =>
      if s.toBoard == [] then s
      else BoardStep(s.(toBoard := s.toBoard[1..]), s.toBoard[0], ok)
    case BrokerTakes =>
      if s.toBroker == [] then s
      else
        var r := s.toBroker[0];
        var s' := s.(toBroker := s.toBroker[1..]);
        if s.inflight.Free? || BrokerRuns.LinkId(r.serial) != BrokerRuns.LinkId(s.inflight.serial) then s'
        else s'.(inflight := Free, answers := s.answers + [Answer(s.inflight.request, r.ack)])
    case LoseCopy(i) => if i < |s.toBoard| then s.(toBoard := Without(s.toBoard, i)) else s
    case LoseReply(i) => if i < |s.toBroker| then s.(toBroker := Without(s.toBroker, i)) else s
  }

  function Play(s: State, events: seq<Event>): State {
    if events == [] then s else Step(Play(s, events[..|events| - 1]), events[|events| - 1])
  }

  function Run(writes: seq<seq<byte>>, events: seq<Event>): State {
    Play(Start(writes), events)
  }

  // ---------------------------------------------------------------------------
  // The rules
  // ---------------------------------------------------------------------------

  /** A request that is not the current write. */
  predicate Stale(r: Request, acked: nat) {
    !(r.Write? && r.write == acked)
  }

  /** An ACK of the request in flight can still arrive: an attempt is left, or a copy or an
      ACK of it is on the link. */
  predicate Alive(inflight: Inflight, toBoard: seq<Copy>, toBroker: seq<Reply>) {
    && inflight.Busy?
    && (inflight.tries < BrokerCore.REPLY_TRIES
        || (exists i :: 0 <= i < |toBoard| && toBoard[i].serial == inflight.serial)
        || Reply(inflight.serial, true) in toBroker)
  }

  predicate InflightLate(acked: nat, inflight: Inflight, toBoard: seq<Copy>, toBroker: seq<Reply>) {
    Alive(inflight, toBoard, toBroker) && Stale(inflight.request, acked)
  }

  predicate StaleRequest(acked: nat, requests: seq<Request>) {
    exists i :: 0 <= i < |requests| && Stale(requests[i], acked)
  }

  predicate StaleAck(acked: nat, answers: seq<Answer>) {
    exists i :: 0 <= i < |answers| && answers[i].ack && Stale(answers[i].of, acked)
  }

  /** An ACK of something else than the current write can still arrive. */
  predicate LateAck(s: State) {
    || StaleRequest(s.acked, s.requests)
    || StaleAck(s.acked, s.answers)
    || InflightLate(s.acked, s.inflight, s.toBoard, s.toBroker)
  }

  /** The next write has the sequence of the last one. */
  predicate SameSeq(s: State) {
    s.seqValid && s.boardSeq == s.clientSeq
  }

  /** A write may be asked for: the board has it, or no other ACK can be taken for its own
      and its sequence is new to the board. */
  predicate AskOk(s: State) {
    s.has || (!LateAck(s) && !SameSeq(s))
  }

  predicate Current(r: Request, acked: nat) {
    r.Write? && r.write == acked
  }

  /** A copy of the current write can still come to the board: it waits in the pipe, has an
      attempt left, or is on the link. */
  predicate CurrentReach(acked: nat, requests: seq<Request>, inflight: Inflight, toBoard: seq<Copy>) {
    || (exists i :: 0 <= i < |requests| && Current(requests[i], acked))
    || (inflight.Busy? && inflight.tries < BrokerCore.REPLY_TRIES && Current(inflight.request, acked))
    || (exists i :: 0 <= i < |toBoard| && Current(toBoard[i].request, acked))
  }

  /** A subscription may be asked for: between two writes, under the sequence 0, or when the
      current write is not at the board and can not come to it any more. */
  predicate SubscribeOk(s: State) {
    || !s.asked || s.clientSeq == 0
    || (!s.has && !CurrentReach(s.acked, s.requests, s.inflight, s.toBoard))
  }

  /** The caller asks for writes and subscribes by these rules. The link holds no reply
      until 65535 more requests were made. */
  predicate Allowed(s: State, ev: Event) {
    && (ev.Ask? && s.waiting.Idle? && s.acked < |s.writes| ==> AskOk(s))
    && (ev == AskOther(true) && s.waiting.Idle? ==> SubscribeOk(s))
    && (ev.BrokerTakes? && s.toBroker != [] ==> |s.sent| - s.toBroker[0].serial <= BrokerRuns.IDS)
  }

  predicate LegalFrom(s: State, events: seq<Event>) {
    events != [] ==>
      && LegalFrom(s, events[..|events| - 1])
      && Allowed(Play(s, events[..|events| - 1]), events[|events| - 1])
  }

  predicate Legal(writes: seq<seq<byte>>, events: seq<Event>) {
    LegalFrom(Start(writes), events)
  }

  function Concat(writes: seq<seq<byte>>): seq<byte> {
    if writes == [] then [] else Concat(writes[..|writes| - 1]) + writes[|writes| - 1]
  }

  /** The device stream is the ACKed writes in order and at most the current one. */
  predicate Kept(s: State) {
    && s.acked <= |s.writes|
    && (s.stream == Concat(s.writes[..s.acked])
        || (s.acked < |s.writes| && s.stream == Concat(s.writes[..s.acked + 1])))
  }

  // ---------------------------------------------------------------------------
  // The invariant
  // ---------------------------------------------------------------------------

  /** What the caller and the board hold of the current write. */
  datatype Turn = Turn(writes: seq<seq<byte>>, acked: nat, asked: bool, has: bool, clientSeq: byte,
                       seqValid: bool, boardSeq: byte)

  function Now(s: State): Turn {
    Turn(s.writes, s.acked, s.asked, s.has, s.clientSeq, s.seqValid, s.boardSeq)
  }

  /** The current write is ACKed. */
  function Acked(c: Turn): Turn {
    c.(acked := c.acked + 1, asked := false, has := false, clientSeq := (c.clientSeq + 1) % 0x100)
  }

  /** The board takes the current write. */
  function Taken(c: Turn): Turn {
    c.(has := true, seqValid := true, boardSeq := c.clientSeq)
  }

  /** A write on its way is the current one, which is new to a board that has it not, or
      the one before it while the board has not taken the current one. */
  predicate WriteOk(c: Turn, r: Request)
    requires r.Write?
  {
    && r.write < |c.writes| && r.data == c.writes[r.write]
    && ((r.write == c.acked && c.asked && r.seqNo == c.clientSeq
         && (c.has || !c.seqValid || c.boardSeq != c.clientSeq))
        || (r.write + 1 == c.acked && !c.has && r.seqNo == c.boardSeq))
  }

  /** The same of a request that the broker has still to send. */
  ghost predicate ToSend(c: Turn, r: Request) {
    r.Write? ==> WriteOk(c, r) && (c.asked ==> r.write == c.acked)
  }

  ghost predicate ClientInv(c: Turn, waiting: Waiting, answers: seq<Answer>) {
    && c.acked <= |c.writes| && (c.has ==> c.asked) && (c.asked ==> c.acked < |c.writes|)
    && (waiting.ForWrite? ==> c.asked)
    && (forall i :: 0 <= i < |answers| && answers[i].of.Write? ==>
          answers[i].of.write <= c.acked && (answers[i].ack && answers[i].of.write == c.acked ==> c.has))
  }

  ghost predicate RequestsInv(c: Turn, requests: seq<Request>) {
    forall i :: 0 <= i < |requests| ==> !requests[i].Foreign? && ToSend(c, requests[i])
  }

  /** A write in flight that can still be ACKed is in order. */
  ghost predicate InflightInv(c: Turn, inflight: Inflight, sent: seq<Request>,
                              toBoard: seq<Copy>, toBroker: seq<Reply>) {
    inflight.Busy? ==>
      var r := inflight.request;
      && inflight.serial + 1 == |sent| && sent[inflight.serial] == r && !r.Foreign?
      && (r.Write? ==> r.write <= c.acked)
      && (Alive(inflight, toBoard, toBroker) ==> ToSend(c, r))
  }

  ghost predicate CopyOk(c: Turn, sent: seq<Request>, q: Copy) {
    && q.serial < |sent| && q.request == sent[q.serial]
    && (q.request.Write? ==> WriteOk(c, q.request))
  }

  ghost predicate CopiesInv(c: Turn, sent: seq<Request>, toBoard: seq<Copy>) {
    && (forall i :: 0 <= i < |toBoard| ==> CopyOk(c, sent, toBoard[i]))
    && (forall i, j :: 0 <= i < j < |toBoard| && toBoard[i].request.Write? && toBoard[j].request.Write? ==>
          toBoard[i].request.write <= toBoard[j].request.write)
  }

  /** An ACK on the link is for a write that the board took, or for no write. */
  ghost predicate ReplyOk(acked: nat, has: bool, sent: seq<Request>, r: Reply) {
    && r.serial < |sent|
    && (r.ack && sent[r.serial].Write? ==>
          sent[r.serial].write < acked || (sent[r.serial].write == acked && has))
  }

  ghost predicate RepliesInv(acked: nat, has: bool, sent: seq<Request>, toBroker: seq<Reply>) {
    forall i :: 0 <= i < |toBroker| ==> ReplyOk(acked, has, sent, toBroker[i])
  }

  ghost predicate StreamInv(c: Turn, stream: seq<byte>)
    requires c.acked <= |c.writes| && (c.has ==> c.acked < |c.writes|)
  {
    && stream == Concat(c.writes[..c.acked]) + (if c.has then c.writes[c.acked] else [])
    && (c.seqValid <==> c.has || c.acked > 0)
    && (c.has ==> c.boardSeq == c.clientSeq)
  }

  /** While a write is asked for, nothing else can be taken for its ACK; while tg-usb
      subscribes, no write that was asked for needs its sequence. */
  ghost predicate WaitInv(s: State) {
    && (s.waiting.ForWrite? ==> s.has || !LateAck(s))
    && (s.waiting == ForOther(true) ==> SubscribeOk(s))
  }

  ghost predicate Inv(s: State) {
    && ClientInv(Now(s), s.waiting, s.answers)
    && RequestsInv(Now(s), s.requests)
    && InflightInv(Now(s), s.inflight, s.sent, s.toBoard, s.toBroker)
    && CopiesInv(Now(s), s.sent, s.toBoard)
    && RepliesInv(s.acked, s.has, s.sent, s.toBroker)
    && StreamInv(Now(s), s.stream)
    && WaitInv(s)
  }

  lemma SeqsDiffer(n: nat)
    requires n > 0
    ensures (n - 1) % 0x100 != n % 0x100
  {
  }

  lemma ConcatNext(writes: seq<seq<byte>>, n: nat)
    requires n < |writes|
    ensures Concat(writes[..n + 1]) == Concat(writes[..n]) + writes[n]
  {
    assert writes[..n + 1][..n] == writes[..n];
  }

  lemma StartInv(writes: seq<seq<byte>>)
    ensures Inv(Start(writes))
  {
    assert writes[..0] == [];
  }

  /** A new serial joins the log of the broker. */
  lemma LogGrows(s: State, r: Request)
    requires CopiesInv(Now(s), s.sent, s.toBoard)
    requires RepliesInv(s.acked, s.has, s.sent, s.toBroker)
    ensures CopiesInv(Now(s), s.sent + [r], s.toBoard)
    ensures RepliesInv(s.acked, s.has, s.sent + [r], s.toBroker)
  {
    hide WriteOk;
    forall i | 0 <= i < |s.toBoard|
      ensures CopyOk(Now(s), s.sent + [r], s.toBoard[i])
    {
      assert CopyOk(Now(s), s.sent, s.toBoard[i]);
    }
    forall i | 0 <= i < |s.toBroker|
      ensures ReplyOk(s.acked, s.has, s.sent + [r], s.toBroker[i])
    {
      assert ReplyOk(s.acked, s.has, s.sent, s.toBroker[i]);
    }
  }

  /** A copy of what the broker works on joins the queue to the board. */
  lemma CopyJoins(s: State, c: Copy)
    requires CopiesInv(Now(s), s.sent, s.toBoard)
    requires CopyOk(Now(s), s.sent, c)
    requires c.request.Write? && s.asked ==> c.request.write == s.acked
    ensures CopiesInv(Now(s), s.sent, s.toBoard + [c])
  {
    var q := s.toBoard + [c];
    forall i, j | 0 <= i < j < |q| && q[i].request.Write? && q[j].request.Write?
      ensures q[i].request.write <= q[j].request.write
    {
      assert CopyOk(Now(s), s.sent, q[i]);
    }
  }

  lemma ReplyJoins(s: State, has: bool, r: Reply)
    requires RepliesInv(s.acked, s.has, s.sent, s.toBroker) && ReplyOk(s.acked, has, s.sent, r)
    requires s.has ==> has
    ensures RepliesInv(s.acked, has, s.sent, s.toBroker + [r])
  {
    var q := s.toBroker + [r];
    forall i | 0 <= i < |q|
      ensures ReplyOk(s.acked, has, s.sent, q[i])
    {
      if i < |s.toBroker| {
        assert ReplyOk(s.acked, s.has, s.sent, s.toBroker[i]);
      }
    }
  }

  /** One more attempt: the request is not out of tries, so it is known to be in order. */
  lemma TransmitKeepsInv(s: State)
    requires Inv(s) && s.inflight.Busy? && s.inflight.tries < BrokerCore.REPLY_TRIES
    ensures Inv(Transmit(s))
  {
    hide StreamInv, CopiesInv, RequestsInv, ClientInv, StaleRequest, StaleAck;
    var r := s.inflight.request;
    assert Alive(s.inflight, s.toBoard, s.toBroker);
    CopyJoins(s, Copy(s.inflight.serial, r));
  }

  lemma AskKeepsInv(s: State)
    requires Inv(s) && Allowed(s, Ask)
    ensures Inv(Step(s, Ask))
  {
    hide Concat, RepliesInv, Alive;
    if s.waiting.Idle? && s.acked < |s.writes| {
      var s' := Step(s, Ask);
      if !s.asked {
        NothingStale(s);
      }
      forall i | 0 <= i < |s.toBoard|
        ensures CopyOk(Now(s).(asked := true), s.sent, s.toBoard[i])
      {
        assert CopyOk(Now(s), s.sent, s.toBoard[i]);
      }
      assert WaitInv(s');
    }
  }

  /** Before the first ask of a write by the rules, no request waits. */
  lemma NothingStale(s: State)
    requires Inv(s) && AskOk(s) && !s.asked
    ensures s.requests == [] && !Alive(s.inflight, s.toBoard, s.toBroker)
  {
    hide Concat, RepliesInv, CopiesInv, StreamInv;
    assert s.requests != [] ==> Stale(s.requests[0], s.acked);
  }

  /** tg-usb takes an answer. While it waits for the one to a write, an ACK means that the
      board has the write. */
  lemma ClientReadsKeepsInv(s: State, n: nat)
    requires Inv(s)
    ensures Inv(Step(s, ClientReads(n)))
  {
    hide StreamInv, CopiesInv, RepliesInv, RequestsInv, InflightInv, InflightLate, StaleRequest;
    if !s.waiting.Idle? && 0 < n <= |s.answers| {
      var a := s.answers[n - 1];
      if s.waiting.ForWrite? && a.ack {
        AckIsOwn(s, n - 1);
        AckMovesOn(s);
      } else if s.waiting == ForOther(true) && a.ack && s.clientSeq != 0 {
        SequenceResets(s);
      }
    }
  }

  lemma AckIsOwn(s: State, i: nat)
    requires Inv(s) && s.waiting.ForWrite? && i < |s.answers| && s.answers[i].ack
    ensures s.has
  {
    hide StreamInv, CopiesInv, RepliesInv, RequestsInv, InflightInv, InflightLate, StaleRequest;
  }

  /** What holds on the way and of the stream once the current write is ACKed. */
  lemma AckMovesOn(s: State)
    requires Inv(s) && s.has
    ensures RequestsInv(Acked(Now(s)), s.requests)
    ensures InflightInv(Acked(Now(s)), s.inflight, s.sent, s.toBoard, s.toBroker)
    ensures CopiesInv(Acked(Now(s)), s.sent, s.toBoard)
    ensures RepliesInv(s.acked + 1, false, s.sent, s.toBroker)
    ensures StreamInv(Acked(Now(s)), s.stream)
  {
    hide Concat;
    ConcatNext(s.writes, s.acked);
    forall i | 0 <= i < |s.toBoard|
      ensures CopyOk(Acked(Now(s)), s.sent, s.toBoard[i])
    {
      assert CopyOk(Now(s), s.sent, s.toBoard[i]);
    }
    forall i | 0 <= i < |s.toBroker|
      ensures ReplyOk(s.acked + 1, false, s.sent, s.toBroker[i])
    {
      assert ReplyOk(s.acked, s.has, s.sent, s.toBroker[i]);
    }
  }

  /** A write that the board has not, and that cannot come to it, cannot be ACKed. */
  lemma NoCurrentAck(s: State)
    requires Inv(s) && !s.has && !CurrentReach(s.acked, s.requests, s.inflight, s.toBoard)
    requires s.inflight.Busy? && Current(s.inflight.request, s.acked)
    ensures !Alive(s.inflight, s.toBoard, s.toBroker)
  {
    hide Concat, ClientInv, RequestsInv, StreamInv, WaitInv, WriteOk, ToSend;
    forall i | 0 <= i < |s.toBoard|
      ensures s.toBoard[i].serial != s.inflight.serial
    {
      assert CopyOk(Now(s), s.sent, s.toBoard[i]) && !Current(s.toBoard[i].request, s.acked);
    }
    forall i | 0 <= i < |s.toBroker|
      ensures s.toBroker[i] != Reply(s.inflight.serial, true)
    {
      assert ReplyOk(s.acked, s.has, s.sent, s.toBroker[i]);
    }
  }

  /** Where a subscription is allowed, the sequence of the caller is not in use anywhere. */
  lemma SequenceResets(s: State)
    requires Inv(s) && SubscribeOk(s) && s.clientSeq != 0
    ensures RequestsInv(Now(s).(clientSeq := 0), s.requests)
    ensures InflightInv(Now(s).(clientSeq := 0), s.inflight, s.sent, s.toBoard, s.toBroker)
    ensures CopiesInv(Now(s).(clientSeq := 0), s.sent, s.toBoard)
    ensures StreamInv(Now(s).(clientSeq := 0), s.stream)
  {
    hide Concat;
    if s.asked && s.inflight.Busy? && Current(s.inflight.request, s.acked) {
      NoCurrentAck(s);
    }
    hide RepliesInv, Alive;
    forall i | 0 <= i < |s.toBoard|
      ensures CopyOk(Now(s).(clientSeq := 0), s.sent, s.toBoard[i])
    {
      assert CopyOk(Now(s), s.sent, s.toBoard[i]);
    }
  }

  lemma BrokerStartsKeepsInv(s: State)
    requires Inv(s)
    ensures Inv(Step(s, BrokerStarts))
  {
    hide StreamInv, CopiesInv, RepliesInv, ClientInv;
    if s.inflight.Free? && s.requests != [] {
      var r := s.requests[0];
      LogGrows(s, r);
      var t := s.(requests := s.requests[1..], sent := s.sent + [r], inflight := Busy(|s.sent|, 0, r));
      assert WaitInv(t);
      TransmitKeepsInv(t);
    }
  }

  lemma PipesKeepInv(s: State, ev: Event)
    requires Inv(s) && Allowed(s, ev)
    requires ev.Deadline? || ev.ClientDrains? || ev.BrokerRefuses? || ev.AskOther?
    ensures Inv(Step(s, ev))
  {
    hide StreamInv, CopiesInv, RepliesInv, InflightLate;
  }

  lemma ForeignKeepsInv(s: State)
    requires Inv(s)
    ensures Inv(Step(s, ForeignRequest))
  {
    hide StreamInv, CopiesInv, RepliesInv, ClientInv, RequestsInv, LateAck;
    if s.inflight.Free? {
      LogGrows(s, Foreign);
      assert WaitInv(Step(s, ForeignRequest)) by {
        SameLateAck(s, Step(s, ForeignRequest));
      }
    }
  }

  lemma SameLateAck(s: State, t: State)
    requires t.acked == s.acked && t.requests == s.requests && t.answers == s.answers
    requires t.inflight == s.inflight && t.toBoard == s.toBoard && t.toBroker == s.toBroker
    ensures LateAck(t) == LateAck(s)
  {
  }

  lemma TimerKeepsInv(s: State)
    requires Inv(s)
    ensures Inv(Step(s, Timer))
  {
    hide StreamInv, CopiesInv, RepliesInv, RequestsInv, StaleRequest;
    if s.inflight.Busy? && s.inflight.tries < BrokerCore.REPLY_TRIES {
      TransmitKeepsInv(s);
    }
  }

  lemma BrokerTakesKeepsInv(s: State)
    requires Inv(s) && Allowed(s, BrokerTakes)
    ensures Inv(Step(s, BrokerTakes))
  {
    hide StreamInv, CopiesInv, RequestsInv, StaleRequest;
    if s.toBroker != [] {
      var r, rest := s.toBroker[0], s.toBroker[1..];
      assert ReplyOk(s.acked, s.has, s.sent, r);
      assert RepliesInv(s.acked, s.has, s.sent, rest);
      assert forall x: Reply :: x in rest ==> x in s.toBroker;
      if s.inflight.Busy? && BrokerRuns.LinkId(r.serial) == BrokerRuns.LinkId(s.inflight.serial) {
        BrokerRuns.EqualIds(r.serial, s.inflight.serial);
      }
    }
  }

  /** Frames that leave the link make no ACK possible that was not. */
  lemma LinkShrinks(s: State, toBoard: seq<Copy>, toBroker: seq<Reply>)
    requires Inv(s)
    requires forall i :: 0 <= i < |toBoard| ==> toBoard[i] in s.toBoard
    requires forall i :: 0 <= i < |toBroker| ==> toBroker[i] in s.toBroker
    ensures InflightLate(s.acked, s.inflight, toBoard, toBroker)
            ==> InflightLate(s.acked, s.inflight, s.toBoard, s.toBroker)
    ensures InflightInv(Now(s), s.inflight, s.sent,
                        toBoard, toBroker)
    ensures WaitInv(s.(toBoard := toBoard, toBroker := toBroker))
  {
    hide StreamInv, CopiesInv, RepliesInv, ClientInv, RequestsInv, StaleRequest, StaleAck, WriteOk;
  }

  lemma LossKeepsInv(s: State, i: nat)
    requires Inv(s)
    ensures Inv(Step(s, LoseCopy(i))) && Inv(Step(s, LoseReply(i)))
  {
    hide StreamInv, ClientInv, RequestsInv, InflightInv, WaitInv, WriteOk;
    if i < |s.toBoard| {
      var q := Without(s.toBoard, i);
      forall k | 0 <= k < |q|
        ensures CopyOk(Now(s), s.sent, q[k]) && q[k] in s.toBoard
      {
        assert q[k] == s.toBoard[if k < i then k else k + 1];
      }
      LinkShrinks(s, q, s.toBroker);
    }
    if i < |s.toBroker| {
      var q := Without(s.toBroker, i);
      forall k | 0 <= k < |q|
        ensures ReplyOk(s.acked, s.has, s.sent, q[k]) && q[k] in s.toBroker
      {
        assert q[k] == s.toBroker[if k < i then k else k + 1];
      }
      LinkShrinks(s, s.toBoard, q);
    }
  }

  /** Once the board takes the current write, every write behind is that one. */
  lemma RestIsCurrent(s: State)
    requires Inv(s) && s.toBoard != [] && s.toBoard[0].request.Write? && s.toBoard[0].request.write == s.acked
    requires !s.has
    ensures CopiesInv(Taken(Now(s)), s.sent, s.toBoard[1..])
  {
    hide StreamInv, RepliesInv, InflightInv, RequestsInv, WaitInv;
    var q := s.toBoard[1..];
    forall i | 0 <= i < |q|
      ensures CopyOk(Taken(Now(s)), s.sent, q[i])
    {
      assert q[i] == s.toBoard[i + 1];
      assert CopyOk(Now(s), s.sent, s.toBoard[i + 1]);
    }
  }

  lemma RestKeeps(s: State)
    requires CopiesInv(Now(s), s.sent, s.toBoard)
    requires s.toBoard != []
    ensures CopiesInv(Now(s), s.sent, s.toBoard[1..])
    ensures CopyOk(Now(s), s.sent, s.toBoard[0])
  {
    hide WriteOk;
  }

  /** A copy carries the sequence of the board exactly when the board took its write. */
  lemma RepeatIsKnown(s: State, c: Copy)
    requires Inv(s) && c.request.Write?
    requires CopyOk(Now(s), s.sent, c)
    ensures (s.seqValid && s.boardSeq == c.request.seqNo) <==> (c.request.write < s.acked || s.has)
  {
    hide CopiesInv, RepliesInv, RequestsInv, InflightInv, WaitInv, Concat;
  }

  /** A copy that the board answers makes no ACK possible that was not. */
  lemma AnswerJoins(s: State, ack: bool)
    requires Inv(s) && s.toBoard != []
    requires var c := s.toBoard[0]; ReplyOk(s.acked, s.has, s.sent, Reply(c.serial, ack))
    ensures var c, q := s.toBoard[0], s.toBroker + [Reply(s.toBoard[0].serial, ack)];
            && InflightInv(Now(s), s.inflight, s.sent,
                           s.toBoard[1..], q)
            && WaitInv(s.(toBoard := s.toBoard[1..], toBroker := q))
            && RepliesInv(s.acked, s.has, s.sent, q)
  {
    hide StreamInv, CopiesInv, ClientInv, RequestsInv, StaleRequest, StaleAck, WriteOk;
    var c, q := s.toBoard[0], s.toBroker + [Reply(s.toBoard[0].serial, ack)];
    ReplyJoins(s, s.has, Reply(c.serial, ack));
    assert InflightLate(s.acked, s.inflight, s.toBoard[1..], q) ==>
           InflightLate(s.acked, s.inflight, s.toBoard, s.toBroker);
  }

  lemma BoardTakesKeepsInv(s: State, ok: bool)
    requires Inv(s)
    ensures Inv(Step(s, BoardTakes(ok)))
  {
    hide CopiesInv, RepliesInv, RequestsInv, InflightInv, WaitInv, ClientInv;
    if s.toBoard != [] {
      var c := s.toBoard[0];
      RestKeeps(s);
      if !c.request.Write? {
        AnswerJoins(s, ok);
      } else {
        RepeatIsKnown(s, c);
        if s.seqValid && s.boardSeq == c.request.seqNo {
          AnswerJoins(s, true);
        } else if c.request.data != [] && !ok {
          AnswerJoins(s, false);
        } else {
          BoardHasIt(s);
        }
      }
    }
  }

  /** The board takes the current write. */
  lemma BoardHasIt(s: State)
    requires Inv(s) && s.toBoard != [] && s.toBoard[0].request.Write?
    requires s.toBoard[0].request.write == s.acked && !s.has
    requires CopyOk(Now(s), s.sent, s.toBoard[0])
    ensures var c := s.toBoard[0];
            Inv(s.(toBoard := s.toBoard[1..], stream := s.stream + c.request.data, seqValid := true,
                   boardSeq := c.request.seqNo, has := true, toBroker := s.toBroker + [Reply(c.serial, true)]))
  {
    hide Concat;
    var c := s.toBoard[0];
    RestIsCurrent(s);
    ReplyJoins(s, true, Reply(c.serial, true));
    hide CopiesInv, RepliesInv;
    var q := s.toBroker + [Reply(c.serial, true)];
    assert InflightLate(s.acked, s.inflight, s.toBoard[1..], q) ==>
           InflightLate(s.acked, s.inflight, s.toBoard, s.toBroker);
  }

  lemma StepKeepsInv(s: State, ev: Event)
    requires Inv(s) && Allowed(s, ev)
    ensures Inv(Step(s, ev))
  {
    hide Inv, Step, Allowed;
    match ev
    case Ask => AskKeepsInv(s);
    case AskOther(_) => PipesKeepInv(s, ev);
    case Deadline => PipesKeepInv(s, ev);
    case ClientReads(n) => ClientReadsKeepsInv(s, n);
    case ClientDrains => PipesKeepInv(s, ev);
    case BrokerStarts => BrokerStartsKeepsInv(s);
    case BrokerRefuses => PipesKeepInv(s, ev);
    case ForeignRequest => ForeignKeepsInv(s);
    case Timer => TimerKeepsInv(s);
    case BoardTakes(ok) => BoardTakesKeepsInv(s, ok);
    case BrokerTakes => BrokerTakesKeepsInv(s);
    case LoseCopy(i) => LossKeepsInv(s, i);
    case LoseReply(i) => LossKeepsInv(s, i);
  }

  lemma {:induction false} PlayKeepsInv(s: State, events: seq<Event>)
    requires Inv(s) && LegalFrom(s, events)
    ensures Inv(Play(s, events))
    decreases events
  {
    hide Inv, Step, Allowed;
    if events != [] {
      PlayKeepsInv(s, events[..|events| - 1]);
      StepKeepsInv(Play(s, events[..|events| - 1]), events[|events| - 1]);
    }
  }

  lemma Reachable(writes: seq<seq<byte>>, events: seq<Event>)
    requires Legal(writes, events)
    ensures Inv(Run(writes, events))
  {
    hide Inv, Play, LegalFrom;
    StartInv(writes);
    PlayKeepsInv(Start(writes), events);
  }

  lemma InvKeeps(s: State)
    requires Inv(s)
    ensures Kept(s)
  {
    hide CopiesInv, RepliesInv, RequestsInv, InflightInv, WaitInv, Concat;
    if s.has {
      ConcatNext(s.writes, s.acked);
    }
  }

  lemma {:induction false} WritesFixed(s: State, events: seq<Event>)
    ensures Play(s, events).writes == s.writes
    decreases events
  {
    hide Step;
    if events != [] {
      StepKeepsWrites(Play(s, events[..|events| - 1]), events[|events| - 1]);
      WritesFixed(s, events[..|events| - 1]);
    }
  }

  lemma StepKeepsWrites(s: State, ev: Event)
    ensures Step(s, ev).writes == s.writes
  {
    hide Answered, BoardStep, Transmit, Without, BrokerRuns.LinkId;
  }

  /** Over every such run, through repeats, retries, lost frames, subscriptions and the wrap
      of the sequence, the device stream is the ACKed writes in order and at most the
      current one. */
  lemma StreamIsTheAckedWrites(writes: seq<seq<byte>>, events: seq<Event>)
    requires Legal(writes, events)
    ensures var s := Run(writes, events);
            && s.writes == writes && s.acked <= |writes|
            && (s.stream == Concat(writes[..s.acked])
                || (s.acked < |writes| && s.stream == Concat(writes[..s.acked + 1])))
  {
    hide Inv, Legal, Play, Concat;
    Reachable(writes, events);
    InvKeeps(Run(writes, events));
    WritesFixed(Start(writes), events);
  }

  // ---------------------------------------------------------------------------
  // When a write may be asked for: every continuation
  // ---------------------------------------------------------------------------

  /** Some events that keep the rules lead from s to t. */
  ghost predicate CanReach(s: State, t: State) {
    exists events :: LegalFrom(s, events) && Play(s, events) == t
  }

  lemma NoEvents(s: State)
    ensures CanReach(s, s)
  {
    assert LegalFrom(s, []) && Play(s, []) == s;
  }

  lemma OneEvent(s: State, ev: Event)
    requires Allowed(s, ev)
    ensures CanReach(s, Step(s, ev))
  {
    hide Step, Allowed;
    var e := [ev];
    assert e[..|e| - 1] == [];
    assert LegalFrom(s, e) && Play(s, e) == Step(s, ev);
  }

  lemma {:induction false} PlayConcat(s: State, a: seq<Event>, b: seq<Event>)
    ensures Play(s, a + b) == Play(Play(s, a), b)
    ensures LegalFrom(s, a + b) <==> LegalFrom(s, a) && LegalFrom(Play(s, a), b)
    decreases b
  {
    hide Step, Allowed;
    if b == [] {
      assert a + b == a;
    } else {
      assert (a + b)[..|a + b| - 1] == a + b[..|b| - 1];
      PlayConcat(s, a, b[..|b| - 1]);
    }
  }

  lemma ReachOn(s: State, t: State, u: State)
    requires CanReach(s, t) && CanReach(t, u)
    ensures CanReach(s, u)
  {
    hide Play, LegalFrom;
    var a :| LegalFrom(s, a) && Play(s, a) == t;
    var b :| LegalFrom(t, b) && Play(t, b) == u;
    PlayConcat(s, a, b);
  }

  /** The promise holds in every continuation of an ask. */
  ghost predicate AskIsSafe(s: State) {
    forall t :: CanReach(Step(s, Ask), t) ==> Kept(t)
  }

  /** The steps of the broker, the link and the board leave the caller and the stream. */
  predicate SameWrites(s: State, t: State) {
    Now(t) == Now(s) && t.waiting == s.waiting && t.stream == s.stream
  }

  /** The board answers this request with an ACK and takes nothing. */
  predicate AcksAnyway(s: State, r: Request) {
    r.Write? ==> s.seqValid && s.boardSeq == r.seqNo
  }

  /** The link loses the copies before number i. */
  lemma {:induction false} LoseCopies(s: State, i: nat)
    requires i <= |s.toBoard|
    ensures CanReach(s, s.(toBoard := s.toBoard[i..]))
    decreases i
  {
    hide CanReach;
    if i == 0 {
      assert s.toBoard[0..] == s.toBoard;
      NoEvents(s);
    } else {
      OneEvent(s, LoseCopy(0));
      var t := Step(s, LoseCopy(0));
      assert t.toBoard == s.toBoard[1..] && t.toBoard[i - 1..] == s.toBoard[i..];
      LoseCopies(t, i - 1);
      ReachOn(s, t, s.(toBoard := s.toBoard[i..]));
    }
  }

  lemma {:induction false} LoseReplies(s: State, i: nat)
    requires i <= |s.toBroker|
    ensures CanReach(s, s.(toBroker := s.toBroker[i..]))
    decreases i
  {
    hide CanReach;
    if i == 0 {
      assert s.toBroker[0..] == s.toBroker;
      NoEvents(s);
    } else {
      OneEvent(s, LoseReply(0));
      var t := Step(s, LoseReply(0));
      assert t.toBroker == s.toBroker[1..] && t.toBroker[i - 1..] == s.toBroker[i..];
      LoseReplies(t, i - 1);
      ReachOn(s, t, s.(toBroker := s.toBroker[i..]));
    }
  }

  /** The last answer is an ACK. */
  predicate EndsWithAck(s: State) {
    s.answers != [] && s.answers[|s.answers| - 1].ack
  }

  predicate InOrder(s: State) {
    s.inflight.Busy? ==> s.inflight.serial + 1 == |s.sent|
  }

  /** An ACK on the link for the request in flight reaches the pipe. */
  lemma ReplyArrives(s: State, i: nat) returns (t: State)
    requires InOrder(s) && s.inflight.Busy? && i < |s.toBroker| && s.toBroker[i] == Reply(s.inflight.serial, true)
    ensures CanReach(s, t) && SameWrites(s, t) && EndsWithAck(t)
  {
    hide CanReach, BrokerRuns.LinkId;
    var u := s.(toBroker := s.toBroker[i..]);
    LoseReplies(s, i);
    t := Step(u, BrokerTakes);
    OneEvent(u, BrokerTakes);
    ReachOn(s, u, t);
  }

  /** A copy of the request in flight that the board only acknowledges. */
  lemma CopyArrives(s: State, i: nat) returns (t: State)
    requires InOrder(s) && s.inflight.Busy? && i < |s.toBoard|
    requires s.toBoard[i].serial == s.inflight.serial && AcksAnyway(s, s.toBoard[i].request)
    ensures CanReach(s, t) && SameWrites(s, t) && EndsWithAck(t)
  {
    hide CanReach;
    var u := s.(toBoard := s.toBoard[i..]);
    LoseCopies(s, i);
    var v := Step(u, BoardTakes(true));
    OneEvent(u, BoardTakes(true));
    ReachOn(s, u, v);
    t := ReplyArrives(v, |s.toBroker|);
    ReachOn(s, v, t);
  }

  lemma AttemptArrives(s: State) returns (t: State)
    requires InOrder(s) && s.inflight.Busy? && s.inflight.tries < BrokerCore.REPLY_TRIES
    requires AcksAnyway(s, s.inflight.request)
    ensures CanReach(s, t) && SameWrites(s, t) && EndsWithAck(t)
  {
    hide CanReach;
    var u := Step(s, Timer);
    OneEvent(s, Timer);
    t := CopyArrives(u, |s.toBoard|);
    ReachOn(s, u, t);
  }

  /** Overdue timers settle whatever is in flight. */
  lemma {:induction false} TimersSettle(s: State) returns (t: State)
    ensures CanReach(s, t) && SameWrites(s, t) && t.inflight.Free? && t.requests == s.requests
    decreases if s.inflight.Busy? && s.inflight.tries < BrokerCore.REPLY_TRIES
              then BrokerCore.REPLY_TRIES - s.inflight.tries else 0
  {
    hide CanReach;
    t := s;
    NoEvents(s);
    if s.inflight.Busy? {
      var u := Step(s, Timer);
      OneEvent(s, Timer);
      t := u;
      if s.inflight.tries < BrokerCore.REPLY_TRIES {
        t := TimersSettle(u);
        ReachOn(s, u, t);
      }
    }
  }

  lemma {:induction false} RefuseFirst(s: State, i: nat) returns (t: State)
    requires i <= |s.requests|
    ensures CanReach(s, t) && SameWrites(s, t) && t.inflight == s.inflight && t.requests == s.requests[i..]
    decreases i
  {
    hide CanReach;
    if i == 0 {
      t := s;
      assert s.requests[0..] == s.requests;
      NoEvents(s);
    } else {
      var u := Step(s, BrokerRefuses);
      OneEvent(s, BrokerRefuses);
      assert u.requests[i - 1..] == s.requests[i..];
      t := RefuseFirst(u, i - 1);
      ReachOn(s, u, t);
    }
  }

  /** A request in the pipe comes to the link, in flight and as the last copy. */
  lemma RequestIsSent(s: State, i: nat) returns (t: State)
    requires i < |s.requests|
    ensures CanReach(s, t) && SameWrites(s, t) && InOrder(t) && t.requests == s.requests[i + 1..]
    ensures t.inflight.Busy? && t.toBoard != []
    ensures t.toBoard[|t.toBoard| - 1] == Copy(t.inflight.serial, s.requests[i])
  {
    hide CanReach;
    var u := RefuseFirst(s, i);
    var v := TimersSettle(u);
    ReachOn(s, u, v);
    assert v.requests[0] == s.requests[i] && v.requests[1..] == s.requests[i + 1..];
    t := Step(v, BrokerStarts);
    OneEvent(v, BrokerStarts);
    ReachOn(s, v, t);
  }

  /** A request in the pipe that the board only acknowledges. */
  lemma RequestArrives(s: State, i: nat) returns (t: State)
    requires i < |s.requests| && AcksAnyway(s, s.requests[i])
    ensures CanReach(s, t) && SameWrites(s, t) && EndsWithAck(t)
  {
    hide CanReach;
    var u := RequestIsSent(s, i);
    t := CopyArrives(u, |u.toBoard| - 1);
    ReachOn(s, u, t);
  }

  /** What does not come from the current write is acknowledged without being taken. */
  lemma StaleIsAcked(s: State)
    requires Inv(s) && !s.has && LateAck(s)
    ensures forall i :: 0 <= i < |s.requests| && Stale(s.requests[i], s.acked) ==> AcksAnyway(s, s.requests[i])
    ensures InflightLate(s.acked, s.inflight, s.toBoard, s.toBroker) ==> AcksAnyway(s, s.inflight.request)
    ensures InOrder(s)
    ensures s.inflight.Busy? ==> forall i :: 0 <= i < |s.toBoard| && s.toBoard[i].serial == s.inflight.serial ==>
                                   s.toBoard[i].request == s.inflight.request
  {
    hide Concat, RepliesInv, StaleRequest, StaleAck;
  }

  /** A late ACK comes while the caller waits for the current write. */
  lemma LateAckArrives(s: State) returns (t: State, n: nat)
    requires Inv(s) && s.waiting.Idle? && s.acked < |s.writes| && !s.has && LateAck(s)
    ensures CanReach(Step(s, Ask), t) && SameWrites(Step(s, Ask), t)
    ensures 0 < n <= |t.answers| && t.answers[n - 1].ack
  {
    hide CanReach, Inv;
    StaleIsAcked(s);
    t := Step(s, Ask);
    NoEvents(t);
    if StaleAck(s.acked, s.answers) {
      var i :| 0 <= i < |s.answers| && s.answers[i].ack && Stale(s.answers[i].of, s.acked);
      n := i + 1;
      return;
    }
    if StaleRequest(s.acked, s.requests) {
      var i :| 0 <= i < |s.requests| && Stale(s.requests[i], s.acked);
      t := RequestArrives(t, i);
    } else if s.inflight.tries < BrokerCore.REPLY_TRIES {
      t := AttemptArrives(t);
    } else if Reply(s.inflight.serial, true) in s.toBroker {
      var i :| 0 <= i < |s.toBroker| && s.toBroker[i] == Reply(s.inflight.serial, true);
      t := ReplyArrives(t, i);
    } else {
      var i :| 0 <= i < |s.toBoard| && s.toBoard[i].serial == s.inflight.serial;
      t := CopyArrives(t, i);
    }
    n := |t.answers|;
  }

  /** The caller takes an ACK for a write that the board does not have. */
  lemma WrongAckBreaks(s: State, t: State, n: nat)
    requires Inv(s) && s.waiting.Idle? && s.acked < |s.writes| && s.writes[s.acked] != [] && !s.has
    requires CanReach(Step(s, Ask), t) && SameWrites(Step(s, Ask), t)
    requires 0 < n <= |t.answers| && t.answers[n - 1].ack
    ensures !AskIsSafe(s)
  {
    hide CanReach, Concat, CopiesInv, RepliesInv, RequestsInv, InflightInv, WaitInv;
    var u := Step(t, ClientReads(n));
    OneEvent(t, ClientReads(n));
    ReachOn(Step(s, Ask), t, u);
    assert u.acked == s.acked + 1 && u.stream == s.stream == Concat(s.writes[..s.acked]) && u.writes == s.writes;
    ConcatNext(s.writes, s.acked);
    if u.acked < |u.writes| {
      ConcatNext(s.writes, s.acked + 1);
    }
    assert !Kept(u);
  }

  /** A write under the sequence of the last one is acknowledged as its repeat. */
  lemma SameSeqArrives(s: State) returns (t: State)
    requires Inv(s) && s.waiting.Idle? && s.acked < |s.writes| && SameSeq(s)
    ensures CanReach(Step(s, Ask), t) && SameWrites(Step(s, Ask), t) && EndsWithAck(t)
  {
    hide CanReach, Concat, CopiesInv, RepliesInv, RequestsInv, InflightInv, WaitInv;
    t := RequestArrives(Step(s, Ask), |s.requests|);
  }

  lemma ReachKeepsInv(s: State, t: State)
    requires Inv(s) && CanReach(s, t)
    ensures Inv(t)
  {
    hide Inv, Play, LegalFrom;
    var events :| LegalFrom(s, events) && Play(s, events) == t;
    PlayKeepsInv(s, events);
  }

  /** In every reachable state a write that is not empty may be asked for by the rule, and
      only so: every continuation of the ask keeps the promise exactly when the board has
      the write already, or no ACK of another request can still arrive and the sequence is
      not the one of the board. */
  lemma AskIsSafeExactlyWhen(writes: seq<seq<byte>>, events: seq<Event>)
    requires Legal(writes, events)
    requires var s := Run(writes, events);
             s.waiting.Idle? && s.acked < |writes| && writes[s.acked] != []
    ensures AskIsSafe(Run(writes, events)) <==> AskOk(Run(writes, events))
  {
    hide Inv, Play, LegalFrom, CanReach, Step, LateAck;
    var s := Run(writes, events);
    WritesFixed(Start(writes), events);
    Reachable(writes, events);
    if AskOk(s) {
      StepKeepsInv(s, Ask);
      forall t | CanReach(Step(s, Ask), t)
        ensures Kept(t)
      {
        ReachKeepsInv(Step(s, Ask), t);
        InvKeeps(t);
      }
    } else if !s.has && LateAck(s) {
      var t, n := LateAckArrives(s);
      WrongAckBreaks(s, t, n);
    } else {
      var t := SameSeqArrives(s);
      WrongAckBreaks(s, t, |t.answers|);
    }
  }

  // ---------------------------------------------------------------------------
  // When tg-usb may subscribe: every continuation
  // ---------------------------------------------------------------------------

  /** The promise holds in every continuation of a subscription. */
  ghost predicate SubscribeIsSafe(s: State) {
    forall t :: CanReach(Step(s, AskOther(true)), t) ==> Kept(t)
  }

  /** The current write under the sequence of the caller, which the board does not know. */
  predicate NewToTheBoard(c: Turn, r: Request) {
    && c.acked < |c.writes| && r == Write(c.acked, c.clientSeq, c.writes[c.acked])
    && !(c.seqValid && c.boardSeq == c.clientSeq)
  }

  /** The board takes the current write, once more if it has it. */
  predicate TakesIt(s: State, t: State) {
    && s.acked < |s.writes| && Now(t) == Taken(Now(s)) && t.waiting == s.waiting
    && t.stream == s.stream + s.writes[s.acked]
  }

  lemma CopyIsTaken(s: State, i: nat) returns (t: State)
    requires i < |s.toBoard| && NewToTheBoard(Now(s), s.toBoard[i].request)
    ensures CanReach(s, t) && TakesIt(s, t) && t.requests == s.requests
  {
    hide CanReach;
    var u := s.(toBoard := s.toBoard[i..]);
    LoseCopies(s, i);
    t := Step(u, BoardTakes(true));
    OneEvent(u, BoardTakes(true));
    ReachOn(s, u, t);
  }

  lemma RequestIsTaken(s: State, i: nat) returns (t: State)
    requires i < |s.requests| && NewToTheBoard(Now(s), s.requests[i])
    ensures CanReach(s, t) && TakesIt(s, t) && t.requests == s.requests[i + 1..]
  {
    hide CanReach;
    var u := RequestIsSent(s, i);
    t := CopyIsTaken(u, |u.toBoard| - 1);
    ReachOn(s, u, t);
  }

  lemma AttemptIsTaken(s: State) returns (t: State)
    requires s.inflight.Busy? && s.inflight.tries < BrokerCore.REPLY_TRIES && NewToTheBoard(Now(s), s.inflight.request)
    ensures CanReach(s, t) && TakesIt(s, t) && t.requests == s.requests
  {
    hide CanReach;
    var u := Step(s, Timer);
    OneEvent(s, Timer);
    t := CopyIsTaken(u, |s.toBoard|);
    ReachOn(s, u, t);
  }

  /** A current write that can still come to the board is new to it. */
  lemma CurrentIsNew(s: State)
    requires Inv(s) && !s.has && s.asked
    ensures forall i :: 0 <= i < |s.requests| && Current(s.requests[i], s.acked) ==>
              NewToTheBoard(Now(s), s.requests[i])
    ensures forall i :: 0 <= i < |s.toBoard| && Current(s.toBoard[i].request, s.acked) ==>
              NewToTheBoard(Now(s), s.toBoard[i].request)
    ensures s.inflight.Busy? && s.inflight.tries < BrokerCore.REPLY_TRIES && Current(s.inflight.request, s.acked) ==>
              NewToTheBoard(Now(s), s.inflight.request)
  {
    hide Concat, RepliesInv, WaitInv, StreamInv;
    forall i | 0 <= i < |s.toBoard| && Current(s.toBoard[i].request, s.acked)
      ensures NewToTheBoard(Now(s), s.toBoard[i].request)
    {
      assert CopyOk(Now(s), s.sent, s.toBoard[i]);
    }
  }

  /** tg-usb waits for a subscription that is the last in the pipe. */
  predicate Subscribing(s: State) {
    && s.waiting == ForOther(true)
    && s.requests != [] && s.requests[|s.requests| - 1] == Other(true)
  }

  lemma AsksToSubscribe(s: State)
    requires s.waiting.Idle?
    ensures var u := Step(s, AskOther(true));
            && Now(u) == Now(s) && u.inflight == s.inflight && u.toBoard == s.toBoard
            && u.requests == s.requests + [Other(true)] && Subscribing(u)
  {
  }

  /** Behind the subscription the current write comes to the board. */
  lemma CurrentComes(s: State) returns (t: State)
    requires Inv(s) && s.waiting.Idle? && s.asked && !s.has
    requires CurrentReach(s.acked, s.requests, s.inflight, s.toBoard)
    ensures var u := Step(s, AskOther(true)); CanReach(u, t) && TakesIt(u, t) && Subscribing(t)
  {
    CurrentIsNew(s);
    AsksToSubscribe(s);
    hide CanReach, Inv, NewToTheBoard, Current, Step, Now, Taken;
    var u := Step(s, AskOther(true));
    if i :| 0 <= i < |s.requests| && Current(s.requests[i], s.acked) {
      t := RequestIsTaken(u, i);
    } else if s.inflight.Busy? && s.inflight.tries < BrokerCore.REPLY_TRIES && Current(s.inflight.request, s.acked) {
      t := AttemptIsTaken(u);
    } else {
      var i :| 0 <= i < |s.toBoard| && Current(s.toBoard[i].request, s.acked);
      t := CopyIsTaken(u, i);
    }
  }

  /** The board has the current write under another sequence than 0: the subscription resets
      the sequence of the caller, and the repeat of the write is taken as a new one. */
  lemma ResetRepeats(s: State) returns (t: State)
    requires Subscribing(s) && s.has && s.acked < |s.writes| && !(s.seqValid && s.boardSeq == 0)
    ensures CanReach(s, t) && t.writes == s.writes && t.acked == s.acked
    ensures t.stream == s.stream + s.writes[s.acked]
  {
    hide CanReach;
    var u := RequestArrives(s, |s.requests| - 1);
    var v := Step(u, ClientReads(|u.answers|));
    OneEvent(u, ClientReads(|u.answers|));
    ReachOn(s, u, v);
    var w := Step(v, Ask);
    OneEvent(v, Ask);
    ReachOn(s, v, w);
    t := RequestIsTaken(w, |w.requests| - 1);
    ReachOn(s, w, t);
  }

  /** A stream with the current write twice breaks the promise. */
  lemma TwiceBreaks(s: State, t: State)
    requires s.acked < |s.writes| && s.writes[s.acked] != []
    requires CanReach(Step(s, AskOther(true)), t) && t.writes == s.writes && t.acked == s.acked
    requires t.stream == Concat(s.writes[..s.acked]) + s.writes[s.acked] + s.writes[s.acked]
    ensures !SubscribeIsSafe(s)
  {
    hide CanReach, Concat;
    ConcatNext(s.writes, s.acked);
    assert !Kept(t);
  }

  /** In every reachable state tg-usb may subscribe by the rule, and only so: every
      continuation of a subscription keeps the promise exactly when no write was asked for,
      or its sequence is 0, or the board has it not and no copy of it can come any more. */
  lemma SubscribeIsSafeExactlyWhen(writes: seq<seq<byte>>, events: seq<Event>)
    requires Legal(writes, events)
    requires var s := Run(writes, events);
             s.waiting.Idle? && (s.asked && s.acked < |writes| ==> writes[s.acked] != [])
    ensures SubscribeIsSafe(Run(writes, events)) <==> SubscribeOk(Run(writes, events))
  {
    hide Inv, Play, LegalFrom, CanReach, Step, CurrentReach, Subscribing;
    var s := Run(writes, events);
    WritesFixed(Start(writes), events);
    Reachable(writes, events);
    var u := Step(s, AskOther(true));
    if SubscribeOk(s) {
      StepKeepsInv(s, AskOther(true));
      forall t | CanReach(u, t)
        ensures Kept(t)
      {
        ReachKeepsInv(u, t);
        InvKeeps(t);
      }
    } else {
      var v := SubscriptionWaits(s);
      var t := ResetRepeats(v);
      ReachOn(u, v, t);
      TwiceBreaks(s, t);
    }
  }

  /** A run in which the board has the write that was asked for, and the subscription waits. */
  lemma SubscriptionWaits(s: State) returns (t: State)
    requires Inv(s) && s.waiting.Idle? && !SubscribeOk(s)
    ensures CanReach(Step(s, AskOther(true)), t) && Subscribing(t) && t.has && t.boardSeq != 0
    ensures t.writes == s.writes && t.acked == s.acked < |s.writes|
    ensures t.stream == Concat(s.writes[..s.acked]) + s.writes[s.acked]
  {
    hide CanReach, CurrentReach, Concat, RequestsInv, InflightInv, CopiesInv, RepliesInv, WaitInv;
    if s.has {
      t := Step(s, AskOther(true));
      NoEvents(t);
    } else {
      t := CurrentComes(s);
    }
  }

  // ---------------------------------------------------------------------------
  // What the caller sees
  // ---------------------------------------------------------------------------

  /** The asks that are not answered, or whose answer was not read. */
  function Open(s: State): nat {
    |s.requests| + |s.answers| + if s.inflight.Busy? then 1 else 0
  }

  /** Nothing of tg-usb is in the pipes or at the broker. */
  predicate Quiet(s: State) {
    s.requests == [] && s.inflight.Free? && s.answers == []
  }

  lemma StepKeepsOpen(s: State, ev: Event)
    ensures var t := Step(s, ev); Open(t) + t.took + s.made == Open(s) + s.took + t.made
  {
    hide Open, Answered, BoardStep, Transmit;
    if ByClient(ev) {
      ClientKeepsOpen(s, ev);
    } else {
      OthersKeepOpen(s, ev);
    }
  }

  /** The events of tg-usb itself. */
  predicate ByClient(ev: Event) {
    ev.Ask? || ev.AskOther? || ev.Deadline? || ev.ClientReads? || ev.ClientDrains?
  }

  lemma ClientKeepsOpen(s: State, ev: Event)
    requires ByClient(ev)
    ensures var t := Step(s, ev); Open(t) + t.took + s.made == Open(s) + s.took + t.made
  {
    hide BoardStep, Transmit;
  }

  lemma OthersKeepOpen(s: State, ev: Event)
    requires !ByClient(ev)
    ensures var t := Step(s, ev);
            Open(t) == Open(s) && t.took == s.took && t.made == s.made && t.waiting == s.waiting
  {
    hide BrokerRuns.LinkId, Without, Answered, Stale;
    if ev.BoardTakes? && s.toBoard != [] {
      BoardLeavesPipes(s.(toBoard := s.toBoard[1..]), s.toBoard[0], ev.ok);
      hide BoardStep;
    }
  }

  lemma BoardLeavesPipes(s: State, c: Copy, ok: bool)
    ensures var t := BoardStep(s, c, ok);
            && t.requests == s.requests && t.answers == s.answers && t.inflight == s.inflight
            && t.took == s.took && t.made == s.made && t.waiting == s.waiting
            && t.acked == s.acked && t.clientSeq == s.clientSeq && t.last == s.last
  {
  }

  lemma {:induction false} AsksAreAnsweredOnce(s: State, events: seq<Event>)
    ensures var t := Play(s, events); Open(t) + t.took + s.made == Open(s) + s.took + t.made
    decreases events
  {
    hide Step, Open;
    if events != [] {
      AsksAreAnsweredOnce(s, events[..|events| - 1]);
      StepKeepsOpen(Play(s, events[..|events| - 1]), events[|events| - 1]);
    }
  }

  /** In every run, nothing is on its way between tg-usb and the broker exactly when tg-usb
      read as many answers as it made asks; then any ask of a write with a new sequence is
      safe. */
  lemma QuietExactlyWhen(writes: seq<seq<byte>>, events: seq<Event>)
    ensures var s := Run(writes, events);
            && (Quiet(s) <==> s.made == s.took)
            && (s.made == s.took ==> !LateAck(s))
  {
    hide Play;
    AsksAreAnsweredOnce(Start(writes), events);
  }

  /** Every write has its own number as its sequence, modulo 256. */
  ghost predicate Numbered(s: State) {
    && s.clientSeq == s.acked % 0x100
    && (s.has ==> s.boardSeq == s.acked % 0x100)
    && (!s.has && s.acked > 0 ==> s.boardSeq == (s.acked - 1) % 0x100)
  }

  predicate EndsSubscription(s: State, ev: Event) {
    s.waiting == ForOther(true) && ev.ClientReads? && 0 < ev.n <= |s.answers|
  }

  lemma StepKeepsNumbered(s: State, ev: Event)
    requires Inv(s) && Numbered(s) && !EndsSubscription(s, ev)
    ensures Numbered(Step(s, ev))
  {
    if ev.ClientReads? {
      ReadKeepsNumbered(s, ev.n);
    } else if ev.BoardTakes? && s.toBoard != [] {
      BoardKeepsNumbered(s, ev.ok);
    } else {
      SameNumbers(s, ev);
      hide Inv, Step;
    }
  }

  lemma SameNumbers(s: State, ev: Event)
    requires !ev.ClientReads? && (ev.BoardTakes? ==> s.toBoard == [])
    ensures var t := Step(s, ev);
            && t.acked == s.acked && t.clientSeq == s.clientSeq && t.has == s.has && t.boardSeq == s.boardSeq
  {
    hide BrokerRuns.LinkId, BoardStep, Without, Answered;
  }

  lemma ReadKeepsNumbered(s: State, n: nat)
    requires Inv(s) && Numbered(s) && !EndsSubscription(s, ClientReads(n))
    ensures Numbered(Step(s, ClientReads(n)))
  {
    hide Inv;
    NextNumber(s.acked);
    if s.waiting.ForWrite? && 0 < n <= |s.answers| && s.answers[n - 1].ack {
      AckIsOwn(s, n - 1);
    }
  }

  lemma BoardKeepsNumbered(s: State, ok: bool)
    requires Inv(s) && Numbered(s) && s.toBoard != []
    ensures Numbered(Step(s, BoardTakes(ok)))
  {
    hide RepliesInv, RequestsInv, InflightInv, Concat, CopiesInv, WaitInv;
    RestKeeps(s);
    if s.toBoard[0].request.Write? {
      RepeatIsKnown(s, s.toBoard[0]);
    }
  }

  /** tg-usb waits for the first subscription of the run. */
  ghost predicate FirstWait(s: State) {
    s.waiting == ForOther(true) ==> Numbered(s)
  }

  lemma {:induction false} NoSubscription(writes: seq<seq<byte>>, events: seq<Event>)
    requires Legal(writes, events) && AskOther(true) !in events
    ensures Numbered(Run(writes, events)) && Run(writes, events).waiting != ForOther(true)
    decreases events
  {
    hide Inv, Step, Allowed, Numbered;
    if events == [] {
      StartRests(writes);
    } else {
      var before := events[..|events| - 1];
      NoSubscription(writes, before);
      Reachable(writes, before);
      StepKeepsNumbered(Run(writes, before), events[|events| - 1]);
      StepWaits(Run(writes, before), events[|events| - 1]);
    }
  }

  lemma StartRests(writes: seq<seq<byte>>)
    ensures Numbered(Start(writes)) && OneOpen(Start(writes))
  {
  }

  lemma StepWaits(s: State, ev: Event)
    requires ev != AskOther(true)
    ensures Step(s, ev).waiting == ForOther(true) ==> s.waiting == ForOther(true) && !EndsSubscription(s, ev)
  {
    hide BrokerRuns.LinkId, Without;
  }

  lemma {:induction false} DuringSubscription(s: State, events: seq<Event>)
    requires Inv(s) && FirstWait(s) && LegalFrom(s, events) && AskOther(true) !in events
    ensures FirstWait(Play(s, events))
    decreases events
  {
    hide Inv, Step, Allowed, Numbered;
    if events != [] {
      var before, ev := events[..|events| - 1], events[|events| - 1];
      var t := Play(s, before);
      DuringSubscription(s, before);
      PlayKeepsInv(s, before);
      StepWaits(t, ev);
      if Step(t, ev).waiting == ForOther(true) {
        StepKeepsNumbered(t, ev);
      }
    }
  }

  /** After the first subscription of any run was answered, and nothing else can be taken
      for an ACK, the next write is safe exactly when the last one had not the number 0
      modulo 256: the subscription resets the sequence of the caller and not of the board. */
  lemma WriteAfterSubscription(writes: seq<seq<byte>>, before: seq<Event>, during: seq<Event>, n: nat)
    requires Legal(writes, before + [AskOther(true)] + during)
    requires AskOther(true) !in before && AskOther(true) !in during
    requires var s := Run(writes, before + [AskOther(true)] + during);
             && s.waiting == ForOther(true) && 0 < n <= |s.answers| && s.answers[n - 1].ack
             && s.acked > 0 && s.acked < |writes| && writes[s.acked] != []
             && !LateAck(Step(s, ClientReads(n)))
    ensures var s := Run(writes, before + [AskOther(true)] + during);
            AskIsSafe(Step(s, ClientReads(n))) <==> (s.acked - 1) % 0x100 != 0
  {
    hide Inv, Play, LegalFrom, Step, LateAck, AskIsSafe, Concat, Numbered;
    var asked := before + [AskOther(true)];
    var s := Run(writes, asked + during);
    PlayConcat(Start(writes), asked, during);
    PlayConcat(Start(writes), before, [AskOther(true)]);
    NoSubscription(writes, before);
    SubscriptionAsked(Run(writes, before));
    assert Play(Run(writes, before), [AskOther(true)]) == Step(Run(writes, before), AskOther(true)) by {
      OnePlay(Run(writes, before), AskOther(true));
    }
    Reachable(writes, asked);
    DuringSubscription(Run(writes, asked), during);
    Reachable(writes, asked + during);
    var all := asked + during + [ClientReads(n)];
    PlayConcat(Start(writes), asked + during, [ClientReads(n)]);
    OnePlay(s, ClientReads(n));
    WritesFixed(Start(writes), asked + during);
    SubscriptionAnswered(s, n);
    AskIsSafeExactlyWhen(writes, all);
  }

  lemma OnePlay(s: State, ev: Event)
    ensures Play(s, [ev]) == Step(s, ev) && (LegalFrom(s, [ev]) <==> Allowed(s, ev))
  {
    hide Step, Allowed;
    assert [ev][..0] == [];
  }

  lemma SubscriptionAsked(s: State)
    requires Numbered(s) && s.waiting != ForOther(true)
    ensures FirstWait(Step(s, AskOther(true)))
  {
  }

  lemma SubscriptionAnswered(s: State, n: nat)
    requires Inv(s) && Numbered(s) && s.waiting == ForOther(true) && s.acked > 0
    requires 0 < n <= |s.answers| && s.answers[n - 1].ack
    ensures var t := Step(s, ClientReads(n));
            && Allowed(s, ClientReads(n)) && t.waiting.Idle? && t.acked == s.acked
            && (t.has || !SameSeq(t) <==> (s.acked - 1) % 0x100 != 0)
  {
    hide Concat, RepliesInv, RequestsInv, InflightInv, CopiesInv, LateAck;
    NextNumber(s.acked);
    NextNumber(s.acked - 1);
  }

  // ---------------------------------------------------------------------------
  // Callers that are safe
  // ---------------------------------------------------------------------------

  /** The link holds no reply for 65535 requests. */
  predicate Timely(s: State, events: seq<Event>) {
    events != [] ==>
      && Timely(s, events[..|events| - 1])
      && var t := Play(s, events[..|events| - 1]);
         events[|events| - 1].BrokerTakes? && t.toBroker != [] ==>
           |t.sent| - t.toBroker[0].serial <= BrokerRuns.IDS
  }

  /** One ask at most is open, and none when tg-usb does not wait. */
  predicate OneOpen(s: State) {
    Open(s) == if s.waiting.Idle? then 0 else 1
  }

  lemma StepKeepsOneOpen(s: State, ev: Event)
    requires OneOpen(s) && !ev.Deadline?
    ensures OneOpen(Step(s, ev))
  {
    hide BoardStep, Transmit;
    if !ByClient(ev) {
      OthersKeepOpen(s, ev);
      hide Step;
    } else {
      hide BrokerRuns.LinkId, Without;
    }
  }

  /** The caller asks for a write only when it read an answer to every ask so far. */
  predicate Counting(s: State, events: seq<Event>) {
    events != [] ==>
      && Counting(s, events[..|events| - 1])
      && var t := Play(s, events[..|events| - 1]);
         events[|events| - 1].Ask? && t.waiting.Idle? ==> t.made == t.took
  }

  /** The caller asks for no write under the sequence of the last ACKed one, and does not
      subscribe between a write and its repeat but under the sequence 0. */
  predicate Fresh(s: State, events: seq<Event>) {
    events != [] ==>
      && Fresh(s, events[..|events| - 1])
      && FreshEvent(Play(s, events[..|events| - 1]), events[|events| - 1])
  }

  predicate FreshEvent(s: State, ev: Event) {
    && (ev.Ask? && s.waiting.Idle? && s.acked > 0 ==> s.last != s.clientSeq)
    && (ev == AskOther(true) && s.waiting.Idle? ==> !s.asked || s.clientSeq == 0)
  }

  /** Until the board takes the current write, it knows the sequence of the last one. */
  ghost predicate LastKnown(s: State) {
    s.acked > 0 && !s.has ==> s.boardSeq == s.last
  }

  lemma StepKeepsLast(s: State, ev: Event)
    requires Inv(s) && LastKnown(s)
    ensures LastKnown(Step(s, ev))
  {
    if ev.ClientReads? {
      ReadKeepsLast(s, ev.n);
    } else if ev.BoardTakes? && s.toBoard != [] {
      BoardKeepsLast(s, ev.ok);
    } else {
      SameNumbers(s, ev);
      hide Inv, Step;
    }
  }

  lemma ReadKeepsLast(s: State, n: nat)
    requires Inv(s) && LastKnown(s)
    ensures LastKnown(Step(s, ClientReads(n)))
  {
    hide CopiesInv, RepliesInv, RequestsInv, InflightInv, Concat, LateAck;
    if s.waiting.ForWrite? && 0 < n <= |s.answers| && s.answers[n - 1].ack {
      AckIsOwn(s, n - 1);
    }
  }

  lemma BoardKeepsLast(s: State, ok: bool)
    requires Inv(s) && LastKnown(s) && s.toBoard != []
    ensures LastKnown(Step(s, BoardTakes(ok)))
  {
    hide Inv;
  }

  lemma {:induction false} LastIsKnown(writes: seq<seq<byte>>, events: seq<Event>)
    requires Legal(writes, events)
    ensures LastKnown(Run(writes, events))
    decreases events
  {
    hide Inv, Step, Allowed;
    if events != [] {
      var before := events[..|events| - 1];
      LastIsKnown(writes, before);
      Reachable(writes, before);
      StepKeepsLast(Run(writes, before), events[|events| - 1]);
    }
  }

  /** With every answer read, tg-usb itself can tell when the first ask of a write is safe:
      every continuation keeps the promise exactly when the last ACKed write had another
      sequence. */
  lemma FirstAskIsSafeExactlyWhen(writes: seq<seq<byte>>, events: seq<Event>)
    requires Legal(writes, events)
    requires var s := Run(writes, events);
             && s.waiting.Idle? && s.made == s.took && !s.asked
             && s.acked < |writes| && writes[s.acked] != []
    ensures var s := Run(writes, events);
            AskIsSafe(s) <==> s.acked == 0 || s.last != s.clientSeq
  {
    var s := Run(writes, events);
    Reachable(writes, events);
    LastIsKnown(writes, events);
    QuietExactlyWhen(writes, events);
    AskIsSafeExactlyWhen(writes, events);
    hide Play, LegalFrom, AskIsSafe, CopiesInv, RepliesInv, RequestsInv, InflightInv, WaitInv, Concat, LateAck, Quiet;
  }

  lemma AllowedWhenCareful(s: State, ev: Event)
    requires Inv(s) && LastKnown(s) && FreshEvent(s, ev)
    requires ev.Ask? && s.waiting.Idle? ==> !LateAck(s)
    requires ev.BrokerTakes? && s.toBroker != [] ==> |s.sent| - s.toBroker[0].serial <= BrokerRuns.IDS
    ensures Allowed(s, ev)
  {
    hide CopiesInv, RepliesInv, RequestsInv, InflightInv, WaitInv, Concat, LateAck, CurrentReach;
  }

  /** A caller that counts its asks and answers and looks at its sequences keeps the rules in
      every run, whatever it stops waiting for. */
  lemma {:induction false} CarefulCallerKeepsTheRules(writes: seq<seq<byte>>, events: seq<Event>)
    requires Counting(Start(writes), events) && Fresh(Start(writes), events) && Timely(Start(writes), events)
    ensures Legal(writes, events)
    decreases events
  {
    hide Inv, Step, LateAck, Allowed, FreshEvent, LastKnown, Quiet;
    if events != [] {
      var before, ev := events[..|events| - 1], events[|events| - 1];
      CarefulCallerKeepsTheRules(writes, before);
      QuietExactlyWhen(writes, before);
      Reachable(writes, before);
      LastIsKnown(writes, before);
      AllowedWhenCareful(Run(writes, before), ev);
    }
  }

  /** The caller subscribes only before its first write is ACKed, if at all. */
  predicate SubscribesEarly(s: State, events: seq<Event>) {
    events != [] ==>
      && SubscribesEarly(s, events[..|events| - 1])
      && var t := Play(s, events[..|events| - 1]);
         events[|events| - 1] == AskOther(true) && t.waiting.Idle? ==> t.acked == 0
  }

  /** The sequence is the number of the write modulo 256. */
  predicate InStep(s: State) {
    && s.clientSeq == s.acked % 0x100 && (s.acked > 0 ==> s.last == (s.acked - 1) % 0x100)
    && (s.waiting == ForOther(true) ==> s.acked == 0)
  }

  lemma StepKeepsInStep(s: State, ev: Event)
    requires InStep(s) && (ev == AskOther(true) && s.waiting.Idle? ==> s.acked == 0)
    ensures InStep(Step(s, ev))
  {
    if ev.ClientReads? {
      NextNumber(s.acked);
    } else if ev != AskOther(true) {
      SameTurn(s, ev);
      StepWaits(s, ev);
      hide Step;
    }
  }

  lemma SameTurn(s: State, ev: Event)
    requires !ev.ClientReads?
    ensures var t := Step(s, ev);
            t.acked == s.acked && t.clientSeq == s.clientSeq && t.last == s.last
  {
    hide BrokerRuns.LinkId, Without, Answered, Stale;
    if ev.BoardTakes? && s.toBoard != [] {
      BoardLeavesPipes(s.(toBoard := s.toBoard[1..]), s.toBoard[0], ev.ok);
      hide BoardStep;
    }
  }

  /** Such a caller looks at its sequences without knowing. */
  lemma {:induction false} EarlySubscriberIsFresh(writes: seq<seq<byte>>, events: seq<Event>)
    requires SubscribesEarly(Start(writes), events)
    ensures Fresh(Start(writes), events) && InStep(Run(writes, events))
    decreases events
  {
    hide Step;
    if events != [] {
      var before, ev := events[..|events| - 1], events[|events| - 1];
      EarlySubscriberIsFresh(writes, before);
      StepKeepsInStep(Run(writes, before), ev);
      NextNumber(Run(writes, before).acked);
    }
  }

  /** A caller that never stops waiting before its answer counts without knowing. */
  lemma {:induction false} PatientCallerCounts(writes: seq<seq<byte>>, events: seq<Event>)
    requires Deadline !in events
    ensures Counting(Start(writes), events) && OneOpen(Run(writes, events))
    decreases events
  {
    hide Step;
    if events == [] {
      StartRests(writes);
    } else {
      var before, ev := events[..|events| - 1], events[|events| - 1];
      PatientCallerCounts(writes, before);
      AsksAreAnsweredOnce(Start(writes), before);
      StepKeepsOneOpen(Run(writes, before), ev);
    }
  }

  /** Thus the device stream of a careful caller is the ACKed writes in order and at most
      the current one, each once. */
  lemma CarefulCallerIsSafe(writes: seq<seq<byte>>, events: seq<Event>)
    requires Counting(Start(writes), events) && Fresh(Start(writes), events) && Timely(Start(writes), events)
    ensures Kept(Run(writes, events))
  {
    hide Inv, Play, LegalFrom, Kept, Timely, Counting, Fresh;
    CarefulCallerKeepsTheRules(writes, events);
    Reachable(writes, events);
    InvKeeps(Run(writes, events));
  }

  // ---------------------------------------------------------------------------
  // Callers that are not
  // ---------------------------------------------------------------------------

  /** The first n writes are ACKed and nothing is on its way. */
  predicate AtRest(s: State, writes: seq<seq<byte>>, n: nat) {
    && s.writes == writes && s.acked == n <= |writes| && s.clientSeq == n % 0x100
    && !s.asked && !s.has && s.waiting.Idle? && Quiet(s) && s.toBoard == [] && s.toBroker == []
    && (s.seqValid <==> n > 0) && (n > 0 ==> s.boardSeq == (n - 1) % 0x100)
    && s.stream == Concat(writes[..n])
  }

  /** Write n is asked for, and its only copy is on the way; `behind` waits in the pipe. */
  predicate OnItsWay(s: State, writes: seq<seq<byte>>, n: nat, behind: seq<Request>, w: Waiting) {
    && s.writes == writes && s.acked == n < |writes| && s.clientSeq == n % 0x100
    && s.asked && !s.has && s.waiting == w && s.requests == behind && s.answers == []
    && |s.sent| > 0 && s.inflight == Busy(|s.sent| - 1, 1, Write(n, n % 0x100, writes[n]))
    && s.toBoard == [Copy(|s.sent| - 1, Write(n, n % 0x100, writes[n]))] && s.toBroker == []
    && (s.seqValid <==> n > 0) && (n > 0 ==> s.boardSeq == (n - 1) % 0x100)
    && s.stream == Concat(writes[..n])
  }

  /** The board has write n and its ACK waits in the pipe. */
  predicate AckWaits(s: State, writes: seq<seq<byte>>, n: nat, behind: seq<Request>, w: Waiting) {
    && s.writes == writes && s.acked == n < |writes| && s.clientSeq == n % 0x100
    && s.asked && s.has && s.waiting == w && s.requests == behind && s.inflight.Free?
    && |s.answers| == 1 && s.answers[0].ack && s.toBoard == [] && s.toBroker == []
    && s.seqValid && s.boardSeq == n % 0x100
    && s.stream == Concat(writes[..n + 1])
  }

  /** One more event of a run that keeps the rules. */
  lemma Extend(writes: seq<seq<byte>>, events: seq<Event>, ev: Event) returns (more: seq<Event>)
    requires Legal(writes, events) && Allowed(Run(writes, events), ev)
    ensures Legal(writes, more) && Run(writes, more) == Step(Run(writes, events), ev)
  {
    hide Step, Allowed;
    more := events + [ev];
    assert more[..|events|] == events;
  }

  lemma Send(writes: seq<seq<byte>>, events: seq<Event>, n: nat) returns (more: seq<Event>)
    requires n < |writes| && Legal(writes, events) && AtRest(Run(writes, events), writes, n)
    ensures Legal(writes, more) && OnItsWay(Run(writes, more), writes, n, [], ForWrite)
  {
    hide Run, Legal, Concat;
    NextNumber(n);
    more := Extend(writes, events, Ask);
    more := Extend(writes, more, BrokerStarts);
  }

  lemma NextNumber(n: nat)
    ensures n > 0 ==> (n - 1) % 0x100 != n % 0x100
    ensures (n % 0x100 + 1) % 0x100 == (n + 1) % 0x100
  {
    if n > 0 {
      SeqsDiffer(n);
    }
    var q, r := n / 0x100, n % 0x100;
    if r == 0xff {
      assert n + 1 == 0x100 * (q + 1);
    } else {
      assert n + 1 == 0x100 * q + (r + 1);
    }
  }

  lemma Repeat(writes: seq<seq<byte>>, events: seq<Event>, n: nat) returns (more: seq<Event>)
    requires n < |writes| && Legal(writes, events) && OnItsWay(Run(writes, events), writes, n, [], ForWrite)
    ensures Legal(writes, more)
    ensures OnItsWay(Run(writes, more), writes, n, [Write(n, n % 0x100, writes[n])], ForWrite)
  {
    hide Run, Legal, Concat;
    more := Extend(writes, events, Deadline);
    more := Extend(writes, more, Ask);
  }

  lemma Deliver(writes: seq<seq<byte>>, events: seq<Event>, n: nat, behind: seq<Request>, w: Waiting)
    returns (more: seq<Event>)
    requires n < |writes| && Legal(writes, events) && OnItsWay(Run(writes, events), writes, n, behind, w)
    ensures Legal(writes, more) && AckWaits(Run(writes, more), writes, n, behind, w)
  {
    hide Run, Legal, Concat;
    NextNumber(n);
    ConcatNext(writes, n);
    more := Extend(writes, events, BoardTakes(true));
    more := Extend(writes, more, BrokerTakes);
  }

  lemma {:induction false} AllWritten(writes: seq<seq<byte>>, n: nat) returns (events: seq<Event>)
    requires n <= |writes|
    ensures Legal(writes, events) && AtRest(Run(writes, events), writes, n)
  {
    if n == 0 {
      events := [];
      assert writes[..0] == [];
    } else {
      hide Run, Legal, Concat, AtRest, OnItsWay, AckWaits;
      events := AllWritten(writes, n - 1);
      events := Send(writes, events, n - 1);
      events := Deliver(writes, events, n - 1, [], ForWrite);
      events := ReadAck(writes, events, n - 1);
    }
  }

  lemma ReadAck(writes: seq<seq<byte>>, events: seq<Event>, n: nat) returns (more: seq<Event>)
    requires n < |writes| && Legal(writes, events) && AckWaits(Run(writes, events), writes, n, [], ForWrite)
    ensures Legal(writes, more) && AtRest(Run(writes, more), writes, n + 1)
  {
    hide Run, Legal, Concat;
    NextNumber(n);
    more := Extend(writes, events, ClientReads(1));
  }

  /** At every write of every caller that repeats it before the first answer came: once the
      write is ACKed, asking for the next one is not safe. */
  lemma AskingTooSoonBreaksIt(writes: seq<seq<byte>>, n: nat) returns (events: seq<Event>)
    requires n + 1 < |writes| && writes[n + 1] != []
    ensures Legal(writes, events)
    ensures var s := Run(writes, events);
            s.acked == n + 1 && s.waiting.Idle? && !AskIsSafe(s)
  {
    hide Run, Legal, Concat, AskIsSafe;
    events := AllWritten(writes, n);
    events := Send(writes, events, n);
    events := Repeat(writes, events, n);
    events := Deliver(writes, events, n, [Write(n, n % 0x100, writes[n])], ForWrite);
    events := Extend(writes, events, ClientReads(1));
    assert Stale(Run(writes, events).requests[0], n + 1);
    AskIsSafeExactlyWhen(writes, events);
  }

  /** A subscription that leaves while all else rests, on its way. */
  predicate SubscriptionSent(s: State, t: State) {
    && t == s.(waiting := ForOther(true), made := s.made + 1, sent := s.sent + [Other(true)],
               inflight := Busy(|s.sent|, 1, Other(true)), toBoard := [Copy(|s.sent|, Other(true))])
  }

  predicate Rests(s: State) {
    s.waiting.Idle? && !s.asked && Quiet(s) && s.toBoard == [] && s.toBroker == []
  }

  lemma SendSubscription(writes: seq<seq<byte>>, events: seq<Event>) returns (more: seq<Event>)
    requires Legal(writes, events) && Rests(Run(writes, events))
    ensures Legal(writes, more) && SubscriptionSent(Run(writes, events), Run(writes, more))
  {
    hide Run, Legal;
    more := Extend(writes, events, AskOther(true));
    more := Extend(writes, more, BrokerStarts);
  }

  /** A subscription that the board takes at rest. */
  lemma Subscribe(writes: seq<seq<byte>>, events: seq<Event>) returns (more: seq<Event>)
    requires Legal(writes, events) && Rests(Run(writes, events))
    ensures Legal(writes, more)
    ensures var s, t := Run(writes, events), Run(writes, more);
            t == s.(clientSeq := 0, sent := t.sent, made := t.made, took := t.took)
  {
    hide Run, Legal;
    more := SendSubscription(writes, events);
    more := Extend(writes, more, BoardTakes(true));
    more := Extend(writes, more, BrokerTakes);
    more := Extend(writes, more, ClientReads(1));
  }

  /** At every write of every caller: after a subscription at rest the next write is safe
      exactly when the last one had not the number 0 modulo 256. */
  lemma ResubscribedAt(writes: seq<seq<byte>>, n: nat) returns (events: seq<Event>)
    requires 0 < n < |writes| && writes[n] != []
    ensures Legal(writes, events)
    ensures var s := Run(writes, events);
            && s.acked == n && s.waiting.Idle? && s.made == s.took
            && (AskIsSafe(s) <==> (n - 1) % 0x100 != 0)
  {
    hide Run, Legal, Concat, AskIsSafe;
    events := AllWritten(writes, n);
    events := Subscribe(writes, events);
    QuietExactlyWhen(writes, events);
    AskIsSafeExactlyWhen(writes, events);
  }

  /** At every write of every caller: the answer of another request, late after tg-usb
      stopped waiting for it, can be taken for the ACK of the write. */
  lemma OtherAnswersBreakIt(writes: seq<seq<byte>>, n: nat) returns (events: seq<Event>)
    requires n < |writes| && writes[n] != []
    ensures Legal(writes, events)
    ensures var s := Run(writes, events);
            s.acked == n && s.waiting.Idle? && !AskIsSafe(s)
  {
    hide Run, Legal, Concat, AskIsSafe;
    events := AllWritten(writes, n);
    events := Extend(writes, events, AskOther(false));
    events := Extend(writes, events, Deadline);
    assert Stale(Run(writes, events).requests[0], n);
    AskIsSafeExactlyWhen(writes, events);
  }

  /** The board has write n, its ACK went unread, and all else rests. */
  predicate MidWrite(s: State, writes: seq<seq<byte>>, n: nat) {
    && s.writes == writes && s.acked == n < |writes| && s.clientSeq == n % 0x100
    && s.asked && s.has && s.waiting.Idle? && Quiet(s) && s.toBoard == [] && s.toBroker == []
    && s.seqValid && s.boardSeq == n % 0x100 && s.stream == Concat(writes[..n + 1])
  }

  lemma WriteUnanswered(writes: seq<seq<byte>>, n: nat) returns (events: seq<Event>)
    requires n < |writes|
    ensures Legal(writes, events) && MidWrite(Run(writes, events), writes, n)
  {
    hide Run, Legal, Concat;
    events := AllWritten(writes, n);
    events := Send(writes, events, n);
    events := Extend(writes, events, Deadline);
    events := Deliver(writes, events, n, [], Idle);
    events := Extend(writes, events, ClientDrains);
  }

  /** One more event, by the rules or not. */
  lemma Next(writes: seq<seq<byte>>, events: seq<Event>, ev: Event) returns (more: seq<Event>)
    ensures more == events + [ev] && Run(writes, more) == Step(Run(writes, events), ev)
  {
    hide Step;
    more := events + [ev];
    assert more[..|events|] == events;
  }

  lemma SubscribeMidWrite(writes: seq<seq<byte>>, events: seq<Event>, n: nat) returns (more: seq<Event>)
    requires MidWrite(Run(writes, events), writes, n)
    ensures events <= more && MidWrite(Run(writes, more).(clientSeq := n % 0x100), writes, n)
    ensures Run(writes, more).clientSeq == 0
  {
    hide Run, Concat;
    more := Next(writes, events, AskOther(true));
    more := Next(writes, more, BrokerStarts);
    more := Next(writes, more, BoardTakes(true));
    more := Next(writes, more, BrokerTakes);
    more := Next(writes, more, ClientReads(1));
  }

  /** At every write of every caller that did not subscribe before: a subscription between
      the write and its repeat is safe exactly when the number of the write is 0 modulo 256,
      and in this run the board otherwise takes the write twice. */
  lemma SubscribingMidWriteRepeatsIt(writes: seq<seq<byte>>, n: nat) returns (events: seq<Event>, more: seq<Event>)
    requires n < |writes|
    ensures Legal(writes, events) && MidWrite(Run(writes, events), writes, n) && events <= more
    ensures writes[n] != [] ==> (SubscribeIsSafe(Run(writes, events)) <==> n % 0x100 == 0)
    ensures var t := Run(writes, more);
            && t.acked == n
            && t.stream == Concat(writes[..n + 1]) + (if n % 0x100 != 0 then writes[n] else [])
  {
    hide Run, Legal, Concat, SubscribeIsSafe;
    events := WriteUnanswered(writes, n);
    if writes[n] != [] {
      SubscribeIsSafeExactlyWhen(writes, events);
    }
    more := SubscribeMidWrite(writes, events, n);
    more := Next(writes, more, Ask);
    more := Next(writes, more, BrokerStarts);
    more := Next(writes, more, BoardTakes(true));
  }
}
