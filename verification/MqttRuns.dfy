/** Polling a stream of packets that arrives in pieces of any size. */
module MqttRuns {
  import opened Bytes
  import opened Mqtt
  import opened Wrappers

  /** A session so far: the unread bytes, what was received, and what was delivered. */
  datatype Session = Session(unread: seq<byte>, received: seq<byte>, delivered: seq<Msg>, over: bool)

  const START := Session([], [], [], false)

  /** The effect of one poll, as the client is proved to have it. */
  function PollStep(s: Session, r: Read): Session {
    if s.over then s
    else if |s.unread| == BUF_MAX || r.Closed? then s.(over := true)
    else
      var received := s.received + Got(r);
      match NextMsg(s.unread + Got(r))
      case NoMsg(rest) => Session(rest, received, s.delivered, false)
      case Found(msg, _, rest) => Session(rest, received, s.delivered + [msg], false)
  }

  function Run(polls: seq<Read>): Session {
    if polls == [] then START else PollStep(Run(polls[..|polls| - 1]), polls[|polls| - 1])
  }

  /** A read never gives more than the free part of the buffer. */
  predicate Legal(polls: seq<Read>) {
    polls != [] ==>
      && Legal(polls[..|polls| - 1])
      && (var s := Run(polls[..|polls| - 1]);
          s.over || |s.unread| >= BUF_MAX || ReadFits(polls[|polls| - 1], BUF_MAX - |s.unread|))
  }

  /** The client never loses nor invents a message: what it delivered, then what its
      buffer still holds, is what the whole stream says. */
  lemma {:induction false} NothingIsLost(polls: seq<Read>)
    ensures var s := Run(polls);
            s.delivered + Messages(s.unread) == Messages(s.received) && Rest(s.unread) == Rest(s.received)
    decreases polls
  {
    hide Messages, Rest, NextMsg;
    if polls == [] {
    } else {
      var s, r := Run(polls[..|polls| - 1]), polls[|polls| - 1];
      NothingIsLost(polls[..|polls| - 1]);
      var all, t := s.received + Got(r), s.unread + Got(r);
      StreamSplits(s.received, Got(r));
      StreamSplits(s.unread, Got(r));
      NextIsFirst(t);
      assert Messages(all) == s.delivered + Messages(t) by {
        assert (s.delivered + Messages(s.unread)) + Messages(Rest(s.unread) + Got(r))
            == s.delivered + (Messages(s.unread) + Messages(Rest(s.unread) + Got(r)));
      }
      if NextMsg(t).Found? {
        var n := NextMsg(t);
        assert s.delivered + ([n.msg] + Messages(n.rest)) == (s.delivered + [n.msg]) + Messages(n.rest);
      } else {
        RestIsIncomplete(t);
      }
    }
  }

  // ---------------------------------------------------------------------------
  // Streams of well-formed packets
  // ---------------------------------------------------------------------------

  datatype Packet = Packet(flags: byte, body: seq<byte>)

  function PacketBytes(p: Packet): (s: seq<byte>)
    ensures |s| >= 2 && |s| > |p.body|
  {
    [p.flags] + VarintBytes(|p.body|) + p.body
  }

  /** The packet fits the buffer of the client. */
  predicate Fits(p: Packet) {
    |PacketBytes(p)| <= BUF_MAX
  }

  function Stream(packets: seq<Packet>): seq<byte> {
    if packets == [] then [] else PacketBytes(packets[0]) + Stream(packets[1..])
  }

  /** The messages of the PUBLISH packets, in order. */
  function Published(packets: seq<Packet>): seq<Msg> {
    if packets == [] then [] else Carried(packets[0]) + Published(packets[1..])
  }

  /** The message of a packet, if it is a PUBLISH that the client takes. */
  function Carried(p: Packet): seq<Msg> {
    var m := Meaning(p.flags, p.body);
    if m.Some? then [m.value] else []
  }

  lemma PacketParses(p: Packet, more: seq<byte>)
    requires |p.body| < Pow128(4)
    ensures Parse(PacketBytes(p) + more) == Whole(|PacketBytes(p)|, Meaning(p.flags, p.body))
  {
    hide Meaning, VarintBytes, Decoded;
    var s, v := PacketBytes(p) + more, VarintBytes(|p.body|);
    assert s[1..] == v + (p.body + more);
    VarintRoundTrip(|p.body|, 4, p.body + more);
    var total := 1 + |v| + |p.body|;
    assert s[1 + |v|..total] == p.body;
  }

  lemma LengthFits(n: nat)
    requires n <= BUF_MAX
    ensures n < Pow128(4)
  {
    assert Pow128(2) == 0x4000;
    assert Pow128(4) == 0x80 * (0x80 * Pow128(2));
  }

  lemma {:induction false} StreamDecodes(packets: seq<Packet>)
    requires forall p :: p in packets ==> Fits(p)
    ensures Messages(Stream(packets)) == Published(packets) && Rest(Stream(packets)) == []
    decreases packets
  {
    hide Parse, PacketBytes, Meaning;
    if packets != [] {
      var head, tail := PacketBytes(packets[0]), Stream(packets[1..]);
      assert Fits(packets[0]);
      LengthFits(|packets[0].body|);
      PacketParses(packets[0], tail);
      assert (head + tail)[|head|..] == tail;
      StreamDecodes(packets[1..]);
    } else {
      EmptyParses();
    }
  }

  lemma EmptyParses()
    ensures Parse([]).Incomplete?
  {
  }

  /** No whole packet comes at the front of this stream, as far as the buffer can hold it. */
  ghost predicate Blocked(x: seq<byte>) {
    forall s: seq<byte> :: s <= x && |s| <= BUF_MAX ==> Parse(s).Incomplete?
  }

  /** Dropping packets stays on packet boundaries; `x` follows the packets that fit. */
  lemma {:induction false} NextStaysOnPackets(s: seq<byte>, future: seq<byte>, packets: seq<Packet>, x: seq<byte>)
    returns (k: nat)
    requires Blocked(x) && forall p :: p in packets ==> Fits(p)
    requires |s| <= BUF_MAX && s + future == Stream(packets) + x
    ensures k <= |packets| && NextMsg(s).rest + future == Stream(packets[k..]) + x
    decreases |s|
  {
    hide Parse, PacketBytes, Meaning, Blocked;
    k := 0;
    if Parse(s).Whole? {
      FrontIsPacket(s, future, packets, x);
      var total := Parse(s).total;
      assert s[total..] + future == (s + future)[total..];
      if Parse(s).msg.Some? {
        k := 1;
      } else {
        var j := NextStaysOnPackets(s[total..], future, packets[1..], x);
        k := j + 1;
        assert packets[1..][j..] == packets[k..];
      }
    } else {
      assert packets[0..] == packets;
    }
  }

  lemma FrontIsPacket(s: seq<byte>, future: seq<byte>, packets: seq<Packet>, x: seq<byte>)
    requires Blocked(x) && forall p :: p in packets ==> Fits(p)
    requires |s| <= BUF_MAX && s + future == Stream(packets) + x && Parse(s).Whole?
    ensures packets != [] && Parse(s).total <= |s|
    ensures Parse(s).total == |PacketBytes(packets[0])|
    ensures (s + future)[Parse(s).total..] == Stream(packets[1..]) + x
  {
    hide Parse, PacketBytes, Fits, Blocked;
    if packets == [] {
      assert [] + x == x;
      NoFront(s, future, x);
    } else {
      SeqsAssociate(PacketBytes(packets[0]), Stream(packets[1..]), x);
      FrontOf(s, future, packets[0], Stream(packets[1..]) + x);
    }
  }

  lemma SeqsAssociate<T>(a: seq<T>, b: seq<T>, c: seq<T>)
    ensures (a + b) + c == a + (b + c)
  {
  }

  lemma NoFront(s: seq<byte>, future: seq<byte>, x: seq<byte>)
    requires Blocked(x) && |s| <= BUF_MAX && s + future == x
    ensures Parse(s).Incomplete?
  {
    hide Parse;
    assert s <= s + future;
  }

  lemma FrontOf(s: seq<byte>, future: seq<byte>, p: Packet, more: seq<byte>)
    requires Fits(p) && Parse(s).Whole? && s + future == PacketBytes(p) + more
    ensures Parse(s).total == |PacketBytes(p)| <= |s| && (s + future)[Parse(s).total..] == more
  {
    hide Parse, PacketBytes;
    ParseIsStable(s, future);
    LengthFits(|p.body|);
    PacketParses(p, more);
  }

  /** A full buffer of such a stream holds a whole packet. */
  lemma FullHoldsAPacket(s: seq<byte>, future: seq<byte>, packets: seq<Packet>, x: seq<byte>)
    requires packets != [] && forall p :: p in packets ==> Fits(p)
    requires s + future == Stream(packets) + x && |s| == BUF_MAX
    ensures Parse(s).Whole?
  {
    hide Parse, PacketBytes;
    assert packets[0] in packets;
    var head := PacketBytes(packets[0]);
    assert (Stream(packets) + x)[..|head|] == head == (s + future)[..|head|] == s[..|head|];
    assert s == head + s[|head|..];
    LengthFits(|packets[0].body|);
    PacketParses(packets[0], s[|head|..]);
  }

  /** Between polls a full buffer holds no whole packet. */
  lemma {:induction false} FullIsIncomplete(polls: seq<Read>)
    requires Legal(polls)
    ensures var s := Run(polls);
            |s.unread| <= BUF_MAX && (|s.unread| == BUF_MAX ==> Parse(s.unread).Incomplete?)
    decreases polls
  {
    hide Parse, NextMsg;
    if polls == [] {
      assert |Run(polls).unread| == 0;
    } else {
      var before, r := Run(polls[..|polls| - 1]), polls[|polls| - 1];
      FullIsIncomplete(polls[..|polls| - 1]);
      NextIsFirst(before.unread + Got(r));
    }
  }

  /** After any polls of such a stream the buffer starts at a packet. */
  lemma {:induction false} StaysOnPackets(polls: seq<Read>, future: seq<byte>, packets: seq<Packet>, x: seq<byte>)
    returns (k: nat)
    requires Legal(polls) && Blocked(x) && forall p :: p in packets ==> Fits(p)
    requires Run(polls).received + future == Stream(packets) + x
    ensures k <= |packets| && Run(polls).unread + future == Stream(packets[k..]) + x
    decreases polls
  {
    hide Stream, PollStep, PacketBytes, Blocked;
    k := 0;
    assert packets[0..] == packets;
    if polls != [] {
      var before, r := Run(polls[..|polls| - 1]), polls[|polls| - 1];
      if PollStep(before, r).over {
        OverKeeps(before, r);
        k := StaysOnPackets(polls[..|polls| - 1], future, packets, x);
      } else {
        var later := Got(r) + future;
        StillOpen(before, r);
        FullIsIncomplete(polls[..|polls| - 1]);
        assert Run(polls).received + future == before.received + later;
        var j := StaysOnPackets(polls[..|polls| - 1], later, packets, x);
        var i := OnePollStaysOnPackets(before, r, future, packets[j..], x);
        k := j + i;
        assert packets[j..][i..] == packets[k..];
      }
    }
  }

  lemma StillOpen(s: Session, r: Read)
    requires !PollStep(s, r).over
    ensures !s.over && |s.unread| != BUF_MAX && !r.Closed? && PollStep(s, r).received == s.received + Got(r)
  {
  }

  lemma OverKeeps(s: Session, r: Read)
    requires PollStep(s, r).over
    ensures PollStep(s, r) == s.(over := true)
  {
  }

  lemma OnePollStaysOnPackets(s: Session, r: Read, future: seq<byte>, packets: seq<Packet>, x: seq<byte>)
    returns (k: nat)
    requires !s.over && |s.unread| < BUF_MAX && !r.Closed? && ReadFits(r, BUF_MAX - |s.unread|)
    requires Blocked(x) && forall p :: p in packets ==> Fits(p)
    requires s.unread + (Got(r) + future) == Stream(packets) + x
    ensures k <= |packets| && PollStep(s, r).unread + future == Stream(packets[k..]) + x
  {
    hide Parse, NextMsg, Stream, PacketBytes, Blocked;
    var t := s.unread + Got(r);
    assert t + future == s.unread + (Got(r) + future);
    k := NextStaysOnPackets(t, future, packets, x);
  }

  lemma NothingIsBlocked()
    ensures Blocked([])
  {
    EmptyParses();
    hide Parse;
  }

  /** The buffer never stays full between two polls of a stream of packets that fit. */
  lemma NeverStuck(polls: seq<Read>, future: seq<byte>, packets: seq<Packet>) returns (k: nat)
    requires Legal(polls) && forall p :: p in packets ==> Fits(p)
    requires Run(polls).received + future == Stream(packets)
    ensures k <= |packets| && Run(polls).unread + future == Stream(packets[k..])
    ensures |Run(polls).unread| < BUF_MAX
  {
    hide Stream, Parse, PacketBytes, Blocked, Run, Legal;
    NothingIsBlocked();
    k := StaysOnPackets(polls, future, packets, []);
    FullIsIncomplete(polls);
    if |Run(polls).unread| == BUF_MAX {
      NoPackets();
      FullHoldsAPacket(Run(polls).unread, future, packets[k..], []);
    }
  }

  lemma NoPackets()
    ensures Stream([]) == []
  {
  }

  lemma {:induction false} NeverOver(polls: seq<Read>, future: seq<byte>, packets: seq<Packet>)
    requires Legal(polls) && forall r :: r in polls ==> !r.Closed?
    requires forall p :: p in packets ==> Fits(p)
    requires Received(polls) + future == Stream(packets)
    ensures !Run(polls).over && Run(polls).received == Received(polls)
    decreases polls
  {
    hide Parse, NextMsg, Stream;
    if polls != [] {
      var before, r := polls[..|polls| - 1], polls[|polls| - 1];
      assert Received(polls) + future == Received(before) + (Got(r) + future);
      NeverOver(before, Got(r) + future, packets);
      var k := NeverStuck(before, Got(r) + future, packets);
    }
  }

  function Received(polls: seq<Read>): seq<byte> {
    if polls == [] then [] else Received(polls[..|polls| - 1]) + Got(polls[|polls| - 1])
  }

  function Idle(n: nat): seq<Read> {
    seq(n, _ => WouldBlock)
  }

  /** A poll of a quiet socket delivers one of the messages that wait. */
  lemma {:induction false} QuietPollsDeliver(polls: seq<Read>, n: nat, future: seq<byte>, packets: seq<Packet>)
    requires Legal(polls) && forall r :: r in polls ==> !r.Closed?
    requires forall p :: p in packets ==> Fits(p)
    requires Received(polls) + future == Stream(packets)
    ensures Legal(polls + Idle(n)) && !Run(polls + Idle(n)).over
    ensures Run(polls + Idle(n)).received == Received(polls)
    ensures |Messages(Run(polls + Idle(n)).unread)| == if n <= |Messages(Run(polls).unread)|
                                                       then |Messages(Run(polls).unread)| - n else 0
    decreases n
  {
    hide Messages, NextMsg, Stream, PollStep, Run, Legal, Received, Fits;
    if n == 0 {
      assert polls + Idle(n) == polls;
      NeverOver(polls, future, packets);
    } else {
      QuietPollsDeliver(polls, n - 1, future, packets);
      var before := polls + Idle(n - 1);
      OneMoreIdle(polls, n);
      var k := NeverStuck(before, future, packets);
      QuietPoll(Run(before));
    }
  }

  lemma OneMoreIdle(polls: seq<Read>, n: nat)
    requires n > 0
    ensures Run(polls + Idle(n)) == PollStep(Run(polls + Idle(n - 1)), WouldBlock)
    ensures Legal(polls + Idle(n - 1)) ==> Legal(polls + Idle(n))
  {
    hide PollStep;
    var before, after := polls + Idle(n - 1), polls + Idle(n);
    assert after != [] && after[..|after| - 1] == before && after[|after| - 1] == WouldBlock;
  }

  lemma QuietPoll(s: Session)
    requires !s.over && |s.unread| < BUF_MAX
    ensures var s' := PollStep(s, WouldBlock);
            && !s'.over && s'.received == s.received
            && |Messages(s'.unread)| == if |Messages(s.unread)| > 0 then |Messages(s.unread)| - 1 else 0
  {
    hide Messages, NextMsg, Parse;
    assert s.unread + Got(WouldBlock) == s.unread && s.received + [] == s.received;
    NextIsFirst(s.unread);
    RestIsIncomplete(s.unread);
  }

  /** However a stream of well-formed packets is cut, the polls deliver its PUBLISH
      messages in order, and all of them once the socket was quiet long enough. */
  lemma PollsDeliverTheStream(polls: seq<Read>, packets: seq<Packet>, n: nat)
    requires Legal(polls) && forall r :: r in polls ==> !r.Closed?
    requires forall p :: p in packets ==> Fits(p)
    requires Received(polls) == Stream(packets)
    requires n >= |Messages(Run(polls).unread)|
    ensures Run(polls).delivered <= Published(packets)
    ensures Run(polls + Idle(n)).delivered == Published(packets) && !Run(polls + Idle(n)).over
  {
    hide Messages, Stream, Run, Legal;
    assert Received(polls) + [] == Stream(packets);
    NeverOver(polls, [], packets);
    NothingIsLost(polls);
    StreamDecodes(packets);
    QuietPollsDeliver(polls, n, [], packets);
    NothingIsLost(polls + Idle(n));
  }

  // ---------------------------------------------------------------------------
  // The end of a session
  // ---------------------------------------------------------------------------

  /** The packet at the front can never be whole in the buffer: it is larger, or its length
      has no end. */
  predicate NeverFits(s: seq<byte>)
    requires |s| >= 5
  {
    match Decoded(s[1..], 4)
    case None => s[1] >= 0x80 && s[2] >= 0x80 && s[3] >= 0x80 && s[4] >= 0x80
    case Some(r) => 1 + r.used + r.value > BUF_MAX
  }

  /** A buffer that is full and holds no whole packet starts with a length that never
      ends or with a packet larger than the buffer. */
  lemma FullEndsOnlyFor(s: seq<byte>)
    requires |s| == BUF_MAX
    ensures Parse(s).Incomplete? <==> NeverFits(s)
  {
    FourGroups(s[1..]);
  }

  /** On any stream, a session whose socket was not closed ends exactly when a poll finds the
      buffer full; then it starts with a packet that can never be whole in it. */
  lemma {:induction false} SessionEndsExactlyWhen(polls: seq<Read>, r: Read)
    requires Legal(polls) && !r.Closed? && !Run(polls).over
    ensures var s := Run(polls);
            PollStep(s, r).over <==> |s.unread| == BUF_MAX && NeverFits(s.unread)
  {
    hide Parse, NextMsg, Run, Legal, NeverFits;
    FullIsIncomplete(polls);
    if |Run(polls).unread| == BUF_MAX {
      FullEndsOnlyFor(Run(polls).unread);
    }
  }

  /** Thus whatever the stream, an unclosed session that is over has such a packet in front. */
  lemma {:induction false} OverOnlyFor(polls: seq<Read>)
    requires Legal(polls) && (forall r :: r in polls ==> !r.Closed?) && Run(polls).over
    ensures |Run(polls).unread| == BUF_MAX && NeverFits(Run(polls).unread)
    decreases polls
  {
    hide Parse, NextMsg, NeverFits;
    if polls != [] {
      var before, r := polls[..|polls| - 1], polls[|polls| - 1];
      assert r in polls;
      if Run(before).over {
        OverOnlyFor(before);
      } else {
        SessionEndsExactlyWhen(before, r);
      }
    }
  }

  lemma {:induction false} ReceivedSoFar(polls: seq<Read>)
    ensures Run(polls).received <= Received(polls)
    ensures !Run(polls).over ==> Run(polls).received == Received(polls)
    decreases polls
  {
    hide NextMsg;
    if polls != [] {
      ReceivedSoFar(polls[..|polls| - 1]);
    }
  }

  /** The buffer never holds a packet larger than itself. */
  lemma OversizedBlocks(p: Packet, tail: seq<byte>)
    requires !Fits(p) && |p.body| < Pow128(4)
    ensures Blocked(PacketBytes(p) + tail)
  {
    hide Parse, PacketBytes;
    var x := PacketBytes(p) + tail;
    PacketParses(p, tail);
    forall s: seq<byte> | s <= x && |s| <= BUF_MAX
      ensures Parse(s).Incomplete?
    {
      if Parse(s).Whole? {
        assert x == s + x[|s|..];
        ParseIsStable(s, x[|s|..]);
      }
    }
  }

  /** However a stream is cut in which a packet larger than the buffer follows packets that
      fit: once it is received, the session is over and delivered the messages before. */
  lemma OversizedEndsTheSession(polls: seq<Read>, packets: seq<Packet>, p: Packet, tail: seq<byte>)
    requires Legal(polls) && forall r :: r in polls ==> !r.Closed?
    requires forall q :: q in packets ==> Fits(q)
    requires !Fits(p) && |p.body| < Pow128(4)
    requires Received(polls) == Stream(packets) + (PacketBytes(p) + tail)
    ensures Run(polls).over && Run(polls).delivered == Published(packets)
  {
    hide Run, Legal, Stream, Parse, Blocked, Messages, Rest, Received, NeverFits;
    var s, x := Run(polls), PacketBytes(p) + tail;
    ReceivedSoFar(polls);
    OversizedBlocks(p, tail);
    var future := Received(polls)[|s.received|..];
    var k := StaysOnPackets(polls, future, packets, x);
    FullIsIncomplete(polls);
    if !s.over {
      assert false;
    }
    OverOnlyFor(polls);
    if k < |packets| {
      FullHoldsAPacket(s.unread, future, packets[k..], x);
      assert false;
    }
    NoPackets();
    assert packets[k..] == [] && [] + x == x;
    DeliveredBefore(polls, packets, x, future);
  }

  lemma SameTail(a: seq<byte>, b: seq<byte>, c: seq<byte>, tail: seq<byte>)
    requires a + tail == b + (c + tail)
    ensures a == b + c
  {
    assert a == (a + tail)[..|a|] == (b + (c + tail))[..|a|] == b + c;
  }

  lemma DeliveredBefore(polls: seq<Read>, packets: seq<Packet>, x: seq<byte>, future: seq<byte>)
    requires forall q :: q in packets ==> Fits(q)
    requires var s := Run(polls);
             s.received + future == Stream(packets) + x && s.unread + future == x && Parse(s.unread).Incomplete?
    ensures Run(polls).delivered == Published(packets)
  {
    hide Run, Stream, Parse;
    var s := Run(polls);
    SameTail(s.received, Stream(packets), s.unread, future);
    NothingIsLost(polls);
    StreamDecodes(packets);
    StreamSplits(Stream(packets), s.unread);
    assert s.received == Stream(packets) + s.unread;
    assert Rest(Stream(packets)) + s.unread == s.unread;
    assert Messages(s.unread) == [];
    assert s.delivered + [] == s.delivered && Published(packets) + [] == Published(packets);
  }

  lemma FourGroups(t: seq<byte>)
    requires |t| >= 4
    ensures Decoded(t, 4).None? <==> t[0] >= 0x80 && t[1] >= 0x80 && t[2] >= 0x80 && t[3] >= 0x80
  {
    var t1, t2, t3 := t[1..], t[2..], t[3..];
    assert t1[1..] == t2 && t2[1..] == t3;
    assert Decoded(t3, 1).None? <==> t3[0] >= 0x80;
    assert Decoded(t2, 2).None? <==> t2[0] >= 0x80 && t3[0] >= 0x80;
    assert Decoded(t1, 3).None? <==> t1[0] >= 0x80 && t2[0] >= 0x80 && t3[0] >= 0x80;
  }

  // ---------------------------------------------------------------------------
  // Publishing
  // ---------------------------------------------------------------------------

  /** The body that a publish builds: the topic behind its length, then the payload. */
  function PublishBody(topic: seq<byte>, payload: seq<byte>): seq<byte>
    requires |topic| < 0x1_0000
  {
    [|topic| / 0x100, |topic| % 0x100] + topic + payload
  }

  /** A length of two bytes, then the bytes. */
  method PutStr(buf: array<byte>, s: seq<byte>) returns (n: nat)
    requires |s| < 0x1_0000 && |s| + 2 <= buf.Length
    modifies buf
    ensures n == |s| + 2 && buf[..n] == [|s| / 0x100, |s| % 0x100] + s
  {
    n := |s|;
    buf[0], buf[1] := n / 0x100, n % 0x100;
    forall i | 0 <= i < n {
      buf[2 + i] := s[i];
    }
    n := n + 2;
    assert buf[2..n] == s;
    assert buf[..n] == buf[..2] + buf[2..n];
  }

  /** What comes of building a body: the topic alone would run over the end of the buffer,
      which nothing checks; the payload does not fit; or the length. */
  datatype Built = Overrun | Refused | Body(len: nat)

  method BuildPublish(body: array<byte>, topic: seq<byte>, payload: seq<byte>) returns (b: Built)
    requires body.Length == BUF_MAX
    modifies body
    ensures b.Overrun? <==> |topic| + 2 > BUF_MAX
    ensures b.Refused? <==> |topic| + 2 <= BUF_MAX < |topic| + 2 + |payload|
    ensures b.Body? ==> b.len <= BUF_MAX && body[..b.len] == PublishBody(topic, payload)
  {
    if |topic| + 2 > body.Length {
      return Overrun;
    }
    var n := PutStr(body, topic);
    ghost var head := body[..n];
    if n + |payload| > body.Length {
      return Refused;
    }
    if |payload| > 0 {
      forall i | 0 <= i < |payload| {
        body[n + i] := payload[i];
      }
    }
    var len := n + |payload|;
    b := Body(len);
    assert body[..n] == head;
    assert body[n..len] == payload;
    assert body[..len] == body[..n] + body[n..len];
  }

  /** The packet that a publish sends. */
  function Publish(topic: seq<byte>, payload: seq<byte>, retain: bool): Packet
    requires |topic| < 0x1_0000
  {
    Packet(0x30 + (if retain then RETAIN else 0), PublishBody(topic, payload))
  }

  /** The message in the body of a publish, when the topic fits the record of the reader. */
  lemma PublishMeans(topic: seq<byte>, payload: seq<byte>, retain: bool)
    requires |topic| < 0x1_0000
    ensures var p := Publish(topic, payload, retain);
            Meaning(p.flags, p.body) == if |topic| < TOPIC_MAX then Some(Msg(topic, payload)) else None
  {
    var body := PublishBody(topic, payload);
    assert body[2..2 + |topic|] == topic;
    assert body[2 + |topic|..] == payload;
  }

  /** The bytes of a publish: its type and flags, the length of what follows, the length of the
      topic with the high byte first, the topic and the payload. */
  lemma PublishLayout(topic: seq<byte>, payload: seq<byte>, retain: bool)
    requires |topic| + 2 + |payload| <= BUF_MAX
    ensures var n := |topic| + 2 + |payload|;
            PacketBytes(Publish(topic, payload, retain))
            == [if retain then 0x31 else 0x30] + (if n < 128 then [n] else [n % 128 + 128, n / 128])
               + ([|topic| / 256, |topic| % 256] + topic + payload)
  {
    var n := |topic| + 2 + |payload|;
    if n >= 0x80 {
      assert VarintBytes(n / 0x80) == [n / 0x80];
    }
  }

  /** A decoder with the whole packet gives the message, whatever follows. */
  lemma PublishReadsBack(topic: seq<byte>, payload: seq<byte>, retain: bool, more: seq<byte>)
    requires |topic| + 2 + |payload| <= BUF_MAX
    ensures var p := Publish(topic, payload, retain);
            Parse(PacketBytes(p) + more)
            == Whole(|PacketBytes(p)|, if |topic| < TOPIC_MAX then Some(Msg(topic, payload)) else None)
  {
    hide Parse, PacketBytes, Meaning;
    LengthFits(|topic| + 2 + |payload|);
    PublishMeans(topic, payload, retain);
    PacketParses(Publish(topic, payload, retain), more);
  }

  /** The head of a packet near the size of the buffer takes three bytes. */
  lemma FitsExactlyWhen(p: Packet)
    requires |p.body| <= BUF_MAX
    ensures Fits(p) <==> |p.body| <= BUF_MAX - 3
  {
    var n := |p.body|;
    if n >= 0x80 {
      assert |VarintBytes(n / 0x80)| == 1;
    }
  }

  lemma {:induction false} PublishedJoins(a: seq<Packet>, b: seq<Packet>)
    ensures Published(a + b) == Published(a) + Published(b)
    decreases a
  {
    hide Carried;
    if a == [] {
      assert a + b == b;
    } else {
      assert (a + b)[1..] == a[1..] + b && (a + b)[0] == a[0];
      PublishedJoins(a[1..], b);
      SeqsAssociate(Carried(a[0]), Published(a[1..]), Published(b));
    }
  }

  lemma {:induction false} StreamJoins(a: seq<Packet>, b: seq<Packet>)
    ensures Stream(a + b) == Stream(a) + Stream(b)
    decreases a
  {
    hide PacketBytes;
    if a == [] {
      assert a + b == b;
    } else {
      assert (a + b)[1..] == a[1..] + b && (a + b)[0] == a[0];
      StreamJoins(a[1..], b);
      SeqsAssociate(PacketBytes(a[0]), Stream(a[1..]), Stream(b));
    }
  }

  lemma OnePacket(p: Packet)
    ensures Stream([p]) == PacketBytes(p)
    ensures Published([p]) == Carried(p)
  {
    hide PacketBytes, Carried;
    assert [p][1..] == [];
  }

  lemma {:induction false} OverStays(polls: seq<Read>, n: nat)
    requires Run(polls).over
    ensures Run(polls + Idle(n)) == Run(polls)
    decreases n
  {
    hide Run;
    if n == 0 {
      assert polls + Idle(n) == polls;
    } else {
      OverStays(polls, n - 1);
      OneMoreIdle(polls, n);
    }
  }

  /** What a client publishes, between packets that fit and however the stream is cut: a
      reader gets the message exactly when the topic fits its record and the packet its
      buffer. A packet that does not fit ends the session, and what follows is lost. */
  lemma PublishArrivesExactlyWhen(before: seq<Packet>, topic: seq<byte>, payload: seq<byte>, retain: bool,
                                  after: seq<Packet>, polls: seq<Read>, n: nat)
    requires |topic| + 2 + |payload| <= BUF_MAX
    requires forall p :: p in before || p in after ==> Fits(p)
    requires Legal(polls) && forall r :: r in polls ==> !r.Closed?
    requires Received(polls) == Stream(before + [Publish(topic, payload, retain)] + after)
    requires n >= |Messages(Run(polls).unread)|
    ensures var s, fits := Run(polls + Idle(n)), |topic| + 2 + |payload| <= BUF_MAX - 3;
            && s.delivered == Published(before)
                              + (if fits && |topic| < TOPIC_MAX then [Msg(topic, payload)] else [])
                              + (if fits then Published(after) else [])
            && (s.over <==> !fits)
  {
    hide Run, Legal, Received, Messages, PacketBytes, Meaning, Stream, Published, Fits;
    var p := Publish(topic, payload, retain);
    FitsExactlyWhen(p);
    PublishedBetween(before, topic, payload, retain, after);
    if Fits(p) {
      PollsDeliverTheStream(polls, before + [p] + after, n);
    } else {
      LengthFits(|p.body|);
      OversizedEndsTheSession(polls, before, p, Stream(after));
      OverStays(polls, n);
    }
  }

  lemma PublishedBetween(before: seq<Packet>, topic: seq<byte>, payload: seq<byte>, retain: bool, after: seq<Packet>)
    requires |topic| < 0x1_0000
    ensures var p := Publish(topic, payload, retain);
            && Stream(before + [p] + after) == Stream(before) + (PacketBytes(p) + Stream(after))
            && Published(before + [p] + after) == Published(before)
               + (if |topic| < TOPIC_MAX then [Msg(topic, payload)] else []) + Published(after)
  {
    hide PacketBytes, Meaning, Stream, Published;
    var p := Publish(topic, payload, retain);
    OnePacket(p);
    PublishMeans(topic, payload, retain);
    StreamJoins(before, [p]);
    StreamJoins(before + [p], after);
    PublishedJoins(before, [p]);
    PublishedJoins(before + [p], after);
  }
}
