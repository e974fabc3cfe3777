/** The decisions of the link broker, one frame or one timer at a time. */
module BrokerCore {
  import opened Bytes
  import opened Frames
  import Scan

  const OP_RAW: byte := 0xe0
  const OP_RAW_DATA: byte := 0xe1
  const OP_ACK: byte := 0xf0
  const OP_NACK: byte := 0xf1

  const ERR_BAD_LENGTH: byte := 0x02
  const ERR_BAD_PAYLOAD: byte := 0x03
  const ERR_BUSY: byte := 0x04
  const ERR_FAILED: byte := 0x05

  /** The payload of a RAW request that names line settings. */
  const RAW_LEN := 7
  const RAW_BAUD := 0
  const RAW_DATABITS := 4
  const RAW_PARITY := 5
  const RAW_STOPBITS := 6

  const REPLY_TRIES := 3

  /** No peer holds raw mode. */
  const NO_RAW := -1

  /** The request on the link, with the bytes that every attempt transmits. */
  datatype Inflight = Free | Busy(linkId: u16, peer: nat, peerId: u16, tries: nat, bytes: seq<byte>)

  /** What the line runs at. */
  datatype Settings = Settings(baud: u32, dataBits: byte, parity: byte, stopBits: byte)

  /** The settings of the protocol: 460800 baud, 8N1. */
  const PROTOCOL := Settings(460800, 8, 0x4e, 1)

  /** What the two nodes of the line driver answer, the baud rate first. */
  datatype Nodes = Nodes(baudOk: bool, formatOk: bool)

  datatype Core = Core(inflight: Inflight, raw: int, nextId: u16, settings: Settings)

  const INITIAL := Core(Free, NO_RAW, 1, PROTOCOL)

  /** A frame handed to the response pipe of a peer. */
  datatype ToPeer = ToPeer(peer: nat, opcode: byte, id: u16, payload: seq<byte>)

  /** What one step changes, answers and writes to the line. */
  datatype Effect = Effect(core: Core, outs: seq<ToPeer>, writes: seq<seq<byte>>)

  function Nack(peer: nat, id: u16, error: byte): ToPeer {
    ToPeer(peer, OP_NACK, id, [error])
  }

  function NextId(id: u16): u16 {
    if id == 0xffff then 1 else id + 1
  }

  function Send(c: Core): Effect
    requires c.inflight.Busy?
  {
    Effect(c.(inflight := c.inflight.(tries := c.inflight.tries + 1)), [], [c.inflight.bytes])
  }

  function StartRequest(c: Core, peer: nat, f: Frame): Effect {
    var c' := c.(nextId := NextId(c.nextId));
    if !Fits(f) then
      Effect(c', [Nack(peer, f.corrId, ERR_BAD_LENGTH)], [])
    else
      var bytes := Encoded(Frame(f.opcode, c.nextId, f.payload));
      Send(c'.(inflight := Busy(c.nextId, peer, f.corrId, 0, bytes)))
  }

  /** A RAW payload names settings: none for the protocol, or whole ones. */
  predicate NamesSettings(f: Frame) {
    f.payload == [] || |f.payload| == RAW_LEN
  }

  function Wanted(f: Frame): Settings
    requires NamesSettings(f)
  {
    if f.payload == [] then PROTOCOL
    else Settings(GetU32(f.payload, RAW_BAUD), f.payload[RAW_DATABITS], f.payload[RAW_PARITY], f.payload[RAW_STOPBITS])
  }

  /** The settings after a RAW, and whether the line took them. The baud rate goes first,
      and stays when the format is refused. */
  function SetLine(current: Settings, f: Frame, nodes: Nodes): (Settings, bool) {
    if !NamesSettings(f) || !nodes.baudOk then (current, false)
    else if !nodes.formatOk then (current.(baud := Wanted(f).baud), false)
    else (Wanted(f), true)
  }

  function OnRaw(c: Core, peer: nat, f: Frame, nodes: Nodes): Effect {
    var leaving := f.payload == [];
    if c.raw >= 0 && c.raw != peer then
      Effect(c, [Nack(peer, f.corrId, ERR_BUSY)], [])
    else if !leaving && c.inflight.Busy? then
      Effect(c, [Nack(peer, f.corrId, ERR_BUSY)], [])
    else
      var (settings, ok) := SetLine(c.settings, f, nodes);
      if !ok then
        Effect(c.(settings := settings), [Nack(peer, f.corrId, ERR_BAD_PAYLOAD)], [])
      else
        Effect(c.(raw := if leaving then NO_RAW else peer, settings := settings),
               [ToPeer(peer, OP_ACK, f.corrId, [])], [])
  }

  /** A change of the line settings starts the link parser again. */
  predicate ResetsLink(c: Core, peer: nat, f: Frame, nodes: Nodes) {
    f.opcode == OP_RAW && (c.raw < 0 || c.raw == peer) && (f.payload == [] || c.inflight.Free?)
    && SetLine(c.settings, f, nodes).1
  }

  function OnPeerFrame(c: Core, peer: nat, f: Frame, nodes: Nodes): Effect {
    if f.opcode == OP_RAW then OnRaw(c, peer, f, nodes)
    else if f.opcode == OP_RAW_DATA then
      if c.raw != peer then Effect(c, [Nack(peer, f.corrId, ERR_BUSY)], [])
      else Effect(c, [], [f.payload])
    else if c.raw >= 0 || c.inflight.Busy? then
      Effect(c, [Nack(peer, f.corrId, ERR_BUSY)], [])
    else StartRequest(c, peer, f)
  }

  /** A copy of a push frame for each time one peer lists its opcode. */
  function CopiesFor(peer: nat, pushes: seq<byte>, f: Frame): seq<ToPeer> {
    if pushes == [] then []
    else CopiesFor(peer, pushes[..|pushes| - 1], f) +
         if pushes[|pushes| - 1] == f.opcode then [ToPeer(peer, f.opcode, CORR_ID_PUSH, f.payload)] else []
  }

  function Copies(peers: seq<seq<byte>>, f: Frame): seq<ToPeer> {
    if peers == [] then []
    else Copies(peers[..|peers| - 1], f) + CopiesFor(|peers| - 1, peers[|peers| - 1], f)
  }

  function OnLinkFrame(c: Core, peers: seq<seq<byte>>, f: Frame): Effect {
    if f.corrId == CORR_ID_PUSH then Effect(c, Copies(peers, f), [])
    else if c.inflight.Free? || f.corrId != c.inflight.linkId then Effect(c, [], [])
    else Effect(c.(inflight := Free), [ToPeer(c.inflight.peer, f.opcode, c.inflight.peerId, f.payload)], [])
  }

  /** The reply is overdue. */
  function OnTimer(c: Core): Effect {
    if c.inflight.Free? then Effect(c, [], [])
    else if c.inflight.tries >= REPLY_TRIES then
      Effect(c.(inflight := Free), [Nack(c.inflight.peer, c.inflight.peerId, ERR_FAILED)], [])
    else Send(c)
  }

  /** A step, then another. */
  function Then(a: Effect, b: Effect): Effect {
    Effect(b.core, a.outs + b.outs, a.writes + b.writes)
  }

  /** The link frames of one read, in order. */
  function OnLinkFrames(c: Core, peers: seq<seq<byte>>, fs: seq<Frame>): Effect {
    if fs == [] then Effect(c, [], [])
    else
      var before := OnLinkFrames(c, peers, fs[..|fs| - 1]);
      Then(before, OnLinkFrame(before.core, peers, fs[|fs| - 1]))
  }

  /** A peer frame as it arrives, with the answer of the line driver to a RAW. */
  datatype Arrival = Arrival(peer: nat, frame: Frame, nodes: Nodes)

  function OnArrivals(c: Core, arrivals: seq<Arrival>): Effect {
    if arrivals == [] then Effect(c, [], [])
    else
      var before := OnArrivals(c, arrivals[..|arrivals| - 1]);
      var a := arrivals[|arrivals| - 1];
      Then(before, OnPeerFrame(before.core, a.peer, a.frame, a.nodes))
  }

  /** The frames that one read of a request pipe gives, with what the line answers to each. */
  function ArrivalsOf(peer: nat, frames: seq<Frame>, nodes: nat -> Nodes): seq<Arrival> {
    seq(|frames|, k requires 0 <= k < |frames| => Arrival(peer, frames[k], nodes(k)))
  }

  /** One pass over the pipes of the first `n` peers, whose parsers hold `held`. */
  function OnReads(c: Core, held: seq<seq<byte>>, given: seq<seq<byte>>, nodes: nat -> nat -> Nodes, n: nat): Effect
    requires n <= |held| == |given|
  {
    if n == 0 then Effect(c, [], [])
    else
      var before := OnReads(c, held, given, nodes, n - 1);
      if given[n - 1] == [] then before
      else
        var frames := Scan.ScanAll(held[n - 1] + given[n - 1]).frames;
        Then(before, OnArrivals(before.core, ArrivalsOf(n - 1, frames, nodes(n - 1))))
  }

  /** Every peer is told of a push exactly as often as its list names the opcode. */
  function Listed(pushes: seq<byte>, opcode: byte): nat {
    if pushes == [] then 0
    else Listed(pushes[..|pushes| - 1], opcode) + if pushes[|pushes| - 1] == opcode then 1 else 0
  }

  function CopiesTo(outs: seq<ToPeer>, peer: nat): nat {
    if outs == [] then 0
    else CopiesTo(outs[..|outs| - 1], peer) + if outs[|outs| - 1].peer == peer then 1 else 0
  }

  lemma {:induction false} CopiesToConcat(a: seq<ToPeer>, b: seq<ToPeer>, peer: nat)
    ensures CopiesTo(a + b, peer) == CopiesTo(a, peer) + CopiesTo(b, peer)
    decreases b
  {
    if b == [] {
      assert a + b == a;
    } else {
      assert (a + b)[..|a + b| - 1] == a + b[..|b| - 1];
      CopiesToConcat(a, b[..|b| - 1], peer);
    }
  }

  lemma {:induction false} CopiesForCount(peer: nat, pushes: seq<byte>, f: Frame, p: nat)
    ensures CopiesTo(CopiesFor(peer, pushes, f), p) == if p == peer then Listed(pushes, f.opcode) else 0
    decreases pushes
  {
    if pushes != [] {
      CopiesForCount(peer, pushes[..|pushes| - 1], f, p);
      var last := if pushes[|pushes| - 1] == f.opcode then [ToPeer(peer, f.opcode, CORR_ID_PUSH, f.payload)] else [];
      CopiesToConcat(CopiesFor(peer, pushes[..|pushes| - 1], f), last, p);
    }
  }

  lemma {:induction false} PushReachesItsFollowers(peers: seq<seq<byte>>, f: Frame, p: nat)
    ensures CopiesTo(Copies(peers, f), p) == if p < |peers| then Listed(peers[p], f.opcode) else 0
    decreases peers
  {
    if peers != [] {
      var init := peers[..|peers| - 1];
      PushReachesItsFollowers(init, f, p);
      CopiesForCount(|peers| - 1, peers[|peers| - 1], f, p);
      CopiesToConcat(Copies(init, f), CopiesFor(|peers| - 1, peers[|peers| - 1], f), p);
    }
  }

  /** A peer frame leaves the protocol on a line with other settings exactly when it is a
      RAW of whole settings, accepted but for its format, with another baud rate. */
  lemma LineLeftWrongExactlyWhen(c: Core, a: Arrival)
    requires c.raw < 0 && c.settings == PROTOCOL
    ensures var e := OnPeerFrame(c, a.peer, a.frame, a.nodes);
            e.core.raw < 0 && e.core.settings != PROTOCOL <==>
            && a.frame.opcode == OP_RAW && |a.frame.payload| == RAW_LEN && c.inflight.Free?
            && a.nodes.baudOk && !a.nodes.formatOk && Wanted(a.frame).baud != PROTOCOL.baud
  {
    hide Encoded;
  }

  lemma {:induction false} CopiesForCarry(peer: nat, pushes: seq<byte>, f: Frame, c: ToPeer)
    requires c in CopiesFor(peer, pushes, f)
    ensures c == ToPeer(peer, f.opcode, 0, f.payload) && f.opcode in pushes
    decreases pushes
  {
    if c in CopiesFor(peer, pushes[..|pushes| - 1], f) {
      CopiesForCarry(peer, pushes[..|pushes| - 1], f, c);
    }
  }

  /** Every copy of a push is that frame, with the ID 0, for a peer that follows its opcode. */
  lemma {:induction false} CopiesCarryThePush(peers: seq<seq<byte>>, f: Frame, c: ToPeer)
    requires c in Copies(peers, f)
    ensures c.opcode == f.opcode && c.id == 0 && c.payload == f.payload
    ensures c.peer < |peers| && f.opcode in peers[c.peer]
    decreases peers
  {
    var init := peers[..|peers| - 1];
    if c in Copies(init, f) {
      CopiesCarryThePush(init, f, c);
    } else {
      CopiesForCarry(|peers| - 1, peers[|peers| - 1], f, c);
    }
  }

  /** What a peer frame comes to, each exactly when: a request on the line, raw bytes on the
      line, or one of four answers to its peer under its own ID. */
  lemma PeerFrameExactlyWhen(c: Core, a: Arrival)
    ensures var f, e := a.frame, OnPeerFrame(c, a.peer, a.frame, a.nodes);
            var raw, rawData, busy := f.opcode == 0xe0, f.opcode == 0xe1, c.inflight.Busy?;
            var refused := if raw then (c.raw >= 0 && c.raw != a.peer) || (f.payload != [] && busy)
                           else if rawData then c.raw != a.peer
                           else c.raw >= 0 || busy;
            var taken := !refused && raw && |f.payload| in {0, 7} && a.nodes.baudOk && a.nodes.formatOk;
            var fits := |f.payload| <= 1024;
            && (e.outs == [ToPeer(a.peer, 0xf1, f.corrId, [4])] <==> refused)
            && (e.outs == [ToPeer(a.peer, 0xf0, f.corrId, [])] <==> taken)
            && (e.outs == [ToPeer(a.peer, 0xf1, f.corrId, [3])] <==> !refused && raw && !taken)
            && (e.outs == [ToPeer(a.peer, 0xf1, f.corrId, [2])] <==> !refused && !raw && !rawData && !fits)
            && (e.outs == [] <==> !refused && !raw && (rawData || fits))
            && e.writes == (if refused || raw then [] else if rawData then [f.payload]
                            else if fits then [Encoded(Frame(f.opcode, c.nextId, f.payload))] else [])
  {
    hide Encoded;
  }

  /** What it leaves of the broker. */
  lemma PeerFrameLeaves(c: Core, a: Arrival)
    ensures var f, e := a.frame, OnPeerFrame(c, a.peer, a.frame, a.nodes);
            var answer := if e.outs == [] then 0 else e.outs[0].opcode;
            && (f.opcode == 0xe0 ==> e.core.inflight == c.inflight && e.core.nextId == c.nextId)
            && (f.opcode == 0xe0 && answer == 0xf0 ==> e.core.raw == if f.payload == [] then -1 else a.peer)
            && (f.opcode != 0xe0 || answer != 0xf0 ==> e.core.raw == c.raw)
            && (f.opcode == 0xe1 || e.outs == [Nack(a.peer, f.corrId, ERR_BUSY)] ==> e.core == c)
            && (f.opcode != 0xe0 && f.opcode != 0xe1 && e.outs == [] ==>
                  e.core.inflight == Busy(c.nextId, a.peer, f.corrId, 1, e.writes[0]))
            && (f.opcode != 0xe0 ==> e.core.settings == c.settings)
            && (ResetsLink(c, a.peer, f, a.nodes) <==> f.opcode == 0xe0 && answer == 0xf0)
            && (e.core.nextId == c.nextId || e.core.nextId == if c.nextId == 65535 then 1 else c.nextId + 1)
  {
    hide Encoded;
    PeerFrameExactlyWhen(c, a);
  }

  /** A RAW with any settings puts the line on them: four bytes of baud rate, then data bits,
      parity and stop bits. An empty one puts it on 460800 8N1. */
  lemma RawSetsTheLine(c: Core, peer: nat, id: u16, want: Settings, nodes: Nodes)
    requires c.raw < 0 && c.inflight.Free? && nodes.baudOk && nodes.formatOk
    ensures var named := Frame(0xe0, id, PutU32(want.baud) + [want.dataBits, want.parity, want.stopBits]);
            OnPeerFrame(c, peer, named, nodes).core == c.(raw := peer, settings := want)
    ensures OnPeerFrame(c, peer, Frame(0xe0, id, []), nodes).core
         == c.(settings := Settings(460800, 8, 'N' as int, 1), raw := -1)
  {
    hide PutU32;
    var payload := PutU32(want.baud) + [want.dataBits, want.parity, want.stopBits];
    assert payload[4] == want.dataBits && payload[5] == want.parity && payload[6] == want.stopBits;
    FirstField(want.baud, payload[4..]);
    assert payload == PutU32(want.baud) + payload[4..];
  }

  lemma FirstField(w: u32, more: seq<byte>)
    ensures GetU32(PutU32(w) + more, 0) == w
  {
  }

  /** The frames of a read act one after the other, in the order in which they came. */
  lemma {:induction false} LinkFramesInOrder(c: Core, peers: seq<seq<byte>>, a: seq<Frame>, b: seq<Frame>)
    ensures OnLinkFrames(c, peers, a + b)
         == Then(OnLinkFrames(c, peers, a), OnLinkFrames(OnLinkFrames(c, peers, a).core, peers, b))
    ensures |a| == 1 ==> OnLinkFrames(c, peers, a) == OnLinkFrame(c, peers, a[0])
    decreases b
  {
    hide OnLinkFrame;
    if |a| == 1 {
      assert a[..0] == [];
    }
    if b == [] {
      assert a + b == a;
    } else {
      assert (a + b)[..|a + b| - 1] == a + b[..|b| - 1];
      LinkFramesInOrder(c, peers, a, b[..|b| - 1]);
    }
  }

  lemma {:induction false} ArrivalsInOrder(c: Core, a: seq<Arrival>, b: seq<Arrival>)
    ensures OnArrivals(c, a + b) == Then(OnArrivals(c, a), OnArrivals(OnArrivals(c, a).core, b))
    ensures |a| == 1 ==> OnArrivals(c, a) == OnPeerFrame(c, a[0].peer, a[0].frame, a[0].nodes)
    decreases b
  {
    hide OnPeerFrame;
    if |a| == 1 {
      assert a[..0] == [];
    }
    if b == [] {
      assert a + b == a;
    } else {
      assert (a + b)[..|a + b| - 1] == a + b[..|b| - 1];
      ArrivalsInOrder(c, a, b[..|b| - 1]);
    }
  }

  /** The frames that one pass takes: those of the first pipe that has any, then of the next. */
  function PassArrivals(held: seq<seq<byte>>, given: seq<seq<byte>>, nodes: nat -> nat -> Nodes, n: nat): seq<Arrival>
    requires n <= |held| == |given|
  {
    if n == 0 then []
    else
      PassArrivals(held, given, nodes, n - 1)
      + if given[n - 1] == [] then []
        else ArrivalsOf(n - 1, Scan.ScanAll(held[n - 1] + given[n - 1]).frames, nodes(n - 1))
  }

  lemma EmptyPass(c: Core)
    ensures OnArrivals(c, []) == Effect(c, [], [])
  {
  }

  /** A pass over the pipes acts on the frames of all of them as on one sequence of arrivals. */
  lemma {:induction false} PassActsInOrder(c: Core, held: seq<seq<byte>>, given: seq<seq<byte>>,
                                           nodes: nat -> nat -> Nodes, n: nat)
    requires n <= |held| == |given|
    ensures OnReads(c, held, given, nodes, n) == OnArrivals(c, PassArrivals(held, given, nodes, n))
    decreases n
  {
    hide OnPeerFrame, ArrivalsOf, OnArrivals, Scan.ScanAll, Then;
    if n > 0 {
      PassActsInOrder(c, held, given, nodes, n - 1);
      var before := PassArrivals(held, given, nodes, n - 1);
      if given[n - 1] == [] {
        assert before + [] == before;
      } else {
        var arrivals := ArrivalsOf(n - 1, Scan.ScanAll(held[n - 1] + given[n - 1]).frames, nodes(n - 1));
        ArrivalsInOrder(c, before, arrivals);
      }
    } else {
      EmptyPass(c);
    }
  }
}
