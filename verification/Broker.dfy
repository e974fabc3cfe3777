/** The broker as it runs: globals changed by one handler at a time. */
module Broker {
  import opened Bytes
  import opened Frames
  import opened BrokerCore
  import Scan
  import Parser

  const READ_CHUNK := 256

  class Broker {
    /** The opcodes that each peer follows. */
    const pushes: seq<seq<byte>>
    const link: Parser.Parser
    const parsers: seq<Parser.Parser>

    var busy: bool
    var linkId: u16
    var peerId: u16
    var peer: nat
    var tries: nat
    var frame: seq<byte>

    var raw: int
    var nextId: u16
    var settings: Settings

    /** The frames handed to the peers, and the writes to the line, so far. */
    var outbox: seq<ToPeer>
    var line: seq<seq<byte>>

    ghost predicate Valid()
      reads this, link, link.buf
    {
      link.Valid() && (NO_RAW <= raw) && nextId != 0
    }

    /** No two parsers share anything. */
    ghost predicate Apart() {
      && |parsers| == |pushes|
      && (forall i :: 0 <= i < |parsers| ==> parsers[i] != link && parsers[i].buf != link.buf)
      && (forall i, j :: 0 <= i < j < |parsers| ==> parsers[i] != parsers[j] && parsers[i].buf != parsers[j].buf)
    }

    ghost function Parsers(): set<object> {
      (set i | 0 <= i < |parsers| :: parsers[i]) + (set i | 0 <= i < |parsers| :: parsers[i].buf)
    }

    ghost predicate PeersValid()
      reads Parsers()
    {
      forall i :: 0 <= i < |parsers| ==> parsers[i].Valid()
    }

    function State(): Core
      reads this
    {
      Core(if busy then Busy(linkId, peer, peerId, tries, frame) else Free, raw, nextId, settings)
    }

    /** The handlers from `c0` on, with their outputs after the logs `outs` and
        `writes`, have had the effect `e`. */
    ghost predicate Did(e: Effect, outs: seq<ToPeer>, writes: seq<seq<byte>>)
      reads this
    {
      State() == e.core && outbox == outs + e.outs && line == writes + e.writes
    }

    constructor (pushes: seq<seq<byte>>)
      ensures Valid() && fresh(link) && fresh(link.buf)
      ensures this.pushes == pushes && Apart() && PeersValid() && fresh(Parsers())
      ensures forall i :: 0 <= i < |parsers| ==> parsers[i].history == []
      ensures Did(Effect(INITIAL, [], []), [], [])
    {
      hide Parser.Replay, Parser.Tally;
      this.pushes := pushes;
      var first := new Parser.Parser();
      var all := NewParsers(|pushes|);
      link, parsers := first, all;
      busy, linkId, peerId, peer, tries, frame := false, 0, 0, 0, 0, [];
      raw, nextId, settings := NO_RAW, 1, PROTOCOL;
      outbox, line := [], [];
    }

    /** A parser for each peer. */
    static method NewParsers(n: nat) returns (all: seq<Parser.Parser>)
      ensures |all| == n
      ensures forall i :: 0 <= i < n ==>
                all[i].Valid() && fresh(all[i]) && fresh(all[i].buf) && all[i].history == []
      ensures forall i, j :: 0 <= i < j < n ==> all[i] != all[j] && all[i].buf != all[j].buf
    {
      hide Parser.Replay, Parser.Tally;
      all := [];
      while |all| < n
        invariant |all| <= n
        invariant forall i :: 0 <= i < |all| ==>
                    all[i].Valid() && fresh(all[i]) && fresh(all[i].buf) && all[i].history == []
        invariant forall i, j :: 0 <= i < j < |all| ==> all[i] != all[j] && all[i].buf != all[j].buf
      {
        var p := new Parser.Parser();
        all := all + [p];
      }
    }

    method SendTo(peer: nat, opcode: byte, id: u16, payload: seq<byte>)
      modifies this`outbox
      ensures outbox == old(outbox) + [ToPeer(peer, opcode, id, payload)]
    {
      outbox := outbox + [ToPeer(peer, opcode, id, payload)];
    }

    method NackPeer(peer: nat, id: u16, error: byte)
      modifies this`outbox
      ensures outbox == old(outbox) + [Nack(peer, id, error)]
    {
      SendTo(peer, OP_NACK, id, [error]);
    }

    /** Put the request that is in flight on the line. */
    method SendInflight()
      requires busy
      modifies this`line, this`tries
      ensures Did(Send(old(State())), old(outbox), old(line))
    {
      line := line + [frame];
      tries := tries + 1;
    }

    method StartRequest(peer: nat, f: Frame)
      requires nextId != 0
      modifies this
      ensures nextId != 0
      ensures !old(busy) ==> Did(BrokerCore.StartRequest(old(State()), peer, f), old(outbox), old(line))
    {
      hide Encoded;
      linkId := nextId;
      nextId := (nextId + 1) % 0x1_0000;
      if nextId == CORR_ID_PUSH {
        nextId := 1;
      }
      if !Fits(f) {
        NackPeer(peer, f.corrId, ERR_BAD_LENGTH);
        return;
      }
      frame := Encoded(Frame(f.opcode, linkId, f.payload));
      busy := true;
      this.peer := peer;
      peerId := f.corrId;
      tries := 0;
      SendInflight();
    }

    /** Give a frame that no request asked for to every peer that follows it. */
    method DemuxPush(f: Frame)
      modifies this`outbox
      ensures outbox == old(outbox) + Copies(pushes, f)
    {
      var i := 0;
      assert pushes[..0] == [];
      while i < |pushes|
        invariant 0 <= i <= |pushes|
        invariant outbox == old(outbox) + Copies(pushes[..i], f)
      {
        var j := 0;
        ghost var outer := outbox;
        assert pushes[i][..0] == [];
        while j < |pushes[i]|
          invariant 0 <= j <= |pushes[i]|
          invariant outbox == outer + CopiesFor(i, pushes[i][..j], f)
        {
          assert pushes[i][..j + 1][..j] == pushes[i][..j];
          if pushes[i][j] == f.opcode {
            SendTo(i, f.opcode, CORR_ID_PUSH, f.payload);
          }
          j := j + 1;
        }
        assert pushes[i][..j] == pushes[i];
        assert pushes[..i + 1][..i] == pushes[..i];
        i := i + 1;
      }
      assert pushes[..i] == pushes;
    }

    /** One frame from the board. */
    method OnLinkFrame(f: Frame)
      modifies this`outbox, this`busy
      ensures Did(BrokerCore.OnLinkFrame(old(State()), pushes, f), old(outbox), old(line))
    {
      if f.corrId == CORR_ID_PUSH {
        DemuxPush(f);
        return;
      }
      if !busy || f.corrId != linkId {
        return;
      }
      SendTo(peer, f.opcode, peerId, f.payload);
      busy := false;
    }

    /** Set the line to the settings of a RAW, or back to the protocol. */
    method SetLine(f: Frame, nodes: Nodes) returns (ok: bool)
      modifies this`settings
      ensures (settings, ok) == BrokerCore.SetLine(old(settings), f, nodes)
    {
      if !NamesSettings(f) {
        return false;
      }
      var wanted := Wanted(f);
      if !nodes.baudOk {
        return false;
      }
      settings := settings.(baud := wanted.baud);
      if !nodes.formatOk {
        return false;
      }
      settings := settings.(dataBits := wanted.dataBits, parity := wanted.parity, stopBits := wanted.stopBits);
      ok := true;
    }

    /** Take or leave raw mode. `nodes` is what the line driver answers. */
    method OnRaw(peer: nat, f: Frame, nodes: Nodes)
      requires Valid() && f.opcode == OP_RAW
      modifies this`outbox, this`raw, this`settings, link, link.buf
      ensures Valid()
      ensures Did(BrokerCore.OnRaw(old(State()), peer, f, nodes), old(outbox), old(line))
      ensures ResetsLink(old(State()), peer, f, nodes) ==> link.history == []
      ensures !ResetsLink(old(State()), peer, f, nodes) ==> link.history == old(link.history)
    {
      var leaving := f.payload == [];
      if raw >= 0 && raw != peer {
        NackPeer(peer, f.corrId, ERR_BUSY);
        return;
      }
      if !leaving && busy {
        NackPeer(peer, f.corrId, ERR_BUSY);
        return;
      }
      var ok := SetLine(f, nodes);
      if !ok {
        NackPeer(peer, f.corrId, ERR_BAD_PAYLOAD);
        return;
      }
      link.Init();
      raw := if leaving then NO_RAW else peer;
      SendTo(peer, OP_ACK, f.corrId, []);
    }

    /** One frame from a peer. */
    method OnPeerFrame(peer: nat, f: Frame, nodes: Nodes)
      requires Valid()
      modifies this, link, link.buf
      ensures Valid()
      ensures Did(BrokerCore.OnPeerFrame(old(State()), peer, f, nodes), old(outbox), old(line))
      ensures ResetsLink(old(State()), peer, f, nodes) ==> link.history == []
      ensures !ResetsLink(old(State()), peer, f, nodes) ==> link.history == old(link.history)
    {
      if f.opcode == OP_RAW {
        OnRaw(peer, f, nodes);
        return;
      }
      if f.opcode == OP_RAW_DATA {
        if raw != peer {
          NackPeer(peer, f.corrId, ERR_BUSY);
          return;
        }
        line := line + [f.payload];
        return;
      }
      if raw >= 0 || busy {
        NackPeer(peer, f.corrId, ERR_BUSY);
        return;
      }
      StartRequest(peer, f);
    }

    /** What one read of the line does: raw bytes to the holder, or frames. */
    method PumpLink(data: array<byte>, n: nat) returns (worked: bool)
      requires Valid() && n <= data.Length && n <= READ_CHUNK && data != link.buf
      modifies this, link, link.buf
      ensures Valid() && worked == (n > 0)
      ensures n == 0 ==> Did(Effect(old(State()), [], []), old(outbox), old(line))
      ensures n > 0 && old(raw) >= 0 ==>
                Did(Effect(old(State()), [ToPeer(old(raw), OP_RAW_DATA, CORR_ID_PUSH, data[..n])], []),
                    old(outbox), old(line))
      ensures n > 0 && old(raw) < 0 ==>
                Did(OnLinkFrames(old(State()), pushes, Scan.ScanAll(old(link.Held()) + data[..n]).frames),
                    old(outbox), old(line))
    {
      if n == 0 {
        return false;
      }
      if raw >= 0 {
        SendTo(raw, OP_RAW_DATA, CORR_ID_PUSH, data[..n]);
        return true;
      }
      var frames := link.Push(data, n);
      OnFrames(frames);
      worked := true;
    }

    method OnFrames(frames: seq<Frame>)
      modifies this`outbox, this`busy
      ensures Did(OnLinkFrames(old(State()), pushes, frames), old(outbox), old(line))
    {
      hide BrokerCore.OnLinkFrame;
      var i := 0;
      assert frames[..0] == [];
      while i < |frames|
        invariant 0 <= i <= |frames|
        invariant Did(OnLinkFrames(old(State()), pushes, frames[..i]), old(outbox), old(line))
      {
        assert frames[..i + 1][..i] == frames[..i];
        OnLinkFrame(frames[i]);
        i := i + 1;
      }
      assert frames[..i] == frames;
    }

    /** The frames of one read, in order. */
    method OnArrivals(arrivals: seq<Arrival>)
      requires Valid()
      modifies this, link, link.buf
      ensures Valid()
      ensures Did(BrokerCore.OnArrivals(old(State()), arrivals), old(outbox), old(line))
    {
      hide BrokerCore.OnPeerFrame, ResetsLink, BrokerCore.OnArrivals, Parser.Replay, Parser.Tally;
      NoArrivals(State());
      var i := 0;
      ghost var c := State();
      assert arrivals[..0] == [];
      while i < |arrivals|
        invariant Valid() && 0 <= i <= |arrivals|
        invariant Did(BrokerCore.OnArrivals(c, arrivals[..i]), old(outbox), old(line))
      {
        OneMoreArrival(c, arrivals, i);
        ghost var before := BrokerCore.OnArrivals(c, arrivals[..i]);
        var a := arrivals[i];
        OnPeerFrame(a.peer, a.frame, a.nodes);
        Appended(old(outbox), before.outs, BrokerCore.OnPeerFrame(before.core, a.peer, a.frame, a.nodes).outs);
        Appended(old(line), before.writes, BrokerCore.OnPeerFrame(before.core, a.peer, a.frame, a.nodes).writes);
        i := i + 1;
      }
      assert arrivals[..i] == arrivals;
    }

    /** The bytes of one read go to the parser of peer i alone. */
    method PushToPeer(i: nat, data: array<byte>, n: nat) returns (frames: seq<Frame>)
      requires Valid() && Apart() && PeersValid() && i < |parsers|
      requires n <= data.Length && data != link.buf && data !in Parsers()
      modifies parsers[i], parsers[i].buf
      ensures PeersValid()
      ensures Histories() == old(Histories())[i := old(Histories())[i] + [Parser.Data(data[..n])]]
      ensures frames == Scan.ScanAll(old(Helds())[i] + data[..n]).frames
      ensures forall j :: 0 <= j < |parsers| && j != i ==> Helds()[j] == old(Helds())[j]
    {
      hide Parser.Replay, Parser.Tally, Scan.ScanAll;
      frames := parsers[i].Push(data, n);
    }

    /** One read of the pipe of peer i. */
    method PumpPeer(i: nat, data: array<byte>, n: nat, nodes: nat -> Nodes)
      requires Valid() && Apart() && PeersValid() && i < |parsers|
      requires n <= data.Length && data != link.buf && data !in Parsers()
      modifies this, link, link.buf, parsers[i], parsers[i].buf
      ensures Valid() && PeersValid()
      ensures Histories() == old(Histories())[i := old(Histories())[i] + [Parser.Data(data[..n])]]
      ensures forall j :: 0 <= j < |parsers| && j != i ==> Helds()[j] == old(Helds())[j]
      ensures var frames := Scan.ScanAll(old(Helds())[i] + data[..n]).frames;
              Did(BrokerCore.OnArrivals(old(State()), ArrivalsOf(i, frames, nodes)), old(outbox), old(line))
    {
      hide BrokerCore.OnArrivals, Parser.Replay, Parser.Tally, Scan.ScanAll;
      var frames := PushToPeer(i, data, n);
      ghost var held, logs := Helds(), Histories();
      OnArrivals(ArrivalsOf(i, frames, nodes));
      assert Helds() == held && Histories() == logs;
    }

    /** One pass over the request pipes: what each read gives, nothing for a closed pipe. The
        pass reads no pipe while a request is in flight at its start. */
    method PumpPeers(given: seq<seq<byte>>, nodes: nat -> nat -> Nodes) returns (worked: bool)
      requires Valid() && Apart() && PeersValid()
      requires |given| == |parsers| && forall i :: 0 <= i < |given| ==> |given[i]| <= READ_CHUNK
      modifies this, link, link.buf, Parsers()
      ensures Valid() && PeersValid()
      ensures worked == (!old(busy) && AnyRead(given, |given|))
      ensures Did(if old(busy) then Effect(old(State()), [], [])
                  else OnReads(old(State()), old(Helds()), given, nodes, |given|),
                  old(outbox), old(line))
      ensures Histories() == if old(busy) then old(Histories()) else Logged(old(Histories()), given, |given|)
    {
      worked := false;
      if busy {
        return;
      }
      hide Parser.Parser.Valid, OnReads, Logged, Pumped, Did, AnyRead;
      ghost var c, held, logs := State(), Helds(), Histories();
      PumpStarts(given, nodes);
      var buf := new byte[READ_CHUNK];
      worked := PumpAll(c, held, logs, given, nodes, buf, old(outbox), old(line));
      PumpEnds(c, held, logs, given, nodes, old(outbox), old(line));
    }

    method PumpAll(ghost c: Core, ghost held: seq<seq<byte>>, ghost logs: seq<seq<Parser.Event>>,
                   given: seq<seq<byte>>, nodes: nat -> nat -> Nodes, buf: array<byte>,
                   ghost outs: seq<ToPeer>, ghost writes: seq<seq<byte>>) returns (worked: bool)
      requires Valid() && Apart() && PeersValid() && Pumped(c, held, logs, given, nodes, 0, outs, writes)
      requires |given| == |parsers| && buf.Length == READ_CHUNK && buf != link.buf && buf !in Parsers()
      requires forall i :: 0 <= i < |given| ==> |given[i]| <= READ_CHUNK
      modifies this, link, link.buf, buf, Parsers()
      ensures Valid() && PeersValid() && Pumped(c, held, logs, given, nodes, |given|, outs, writes)
      ensures worked == AnyRead(given, |given|)
    {
      hide Parser.Parser.Valid, Pumped, AnyRead;
      var i := 0;
      worked := false;
      NoneRead(given);
      while i < |parsers|
        invariant 0 <= i <= |parsers| && Valid() && PeersValid()
        invariant worked == AnyRead(given, i)
        invariant Pumped(c, held, logs, given, nodes, i, outs, writes)
      {
        InParsers(i);
        OneMoreGiven(given, i);
        PumpOne(c, held, logs, given, nodes, i, buf, outs, writes);
        worked := worked || given[i] != [];
        i := i + 1;
      }
    }

    lemma InParsers(i: nat)
      requires i < |parsers|
      ensures parsers[i] in Parsers() && parsers[i].buf in Parsers()
    {
    }

    /** The first `i` peers of a pass are done. */
    ghost predicate Pumped(c: Core, held: seq<seq<byte>>, logs: seq<seq<Parser.Event>>, given: seq<seq<byte>>,
                           nodes: nat -> nat -> Nodes, i: nat, outs: seq<ToPeer>, writes: seq<seq<byte>>)
      requires PeersValid()
      reads this, Parsers()
    {
      && |held| == |given| == |logs| == |parsers| && i <= |given|
      && Did(OnReads(c, held, given, nodes, i), outs, writes)
      && (forall j :: i <= j < |parsers| ==> Helds()[j] == held[j])
      && Histories() == Logged(logs, given, i)
    }

    lemma PumpStarts(given: seq<seq<byte>>, nodes: nat -> nat -> Nodes)
      requires PeersValid() && |given| == |parsers|
      ensures Pumped(State(), Helds(), Histories(), given, nodes, 0, outbox, line)
    {
      hide OnReads, Logged;
      NoReads(State(), Helds(), Histories(), given, nodes);
    }

    lemma PumpEnds(c: Core, held: seq<seq<byte>>, logs: seq<seq<Parser.Event>>, given: seq<seq<byte>>,
                   nodes: nat -> nat -> Nodes, outs: seq<ToPeer>, writes: seq<seq<byte>>)
      requires PeersValid() && |given| == |parsers|
      requires Pumped(c, held, logs, given, nodes, |given|, outs, writes)
      ensures |held| == |logs| == |given|
      ensures Did(OnReads(c, held, given, nodes, |given|), outs, writes) && Histories() == Logged(logs, given, |given|)
    {
    }

    /** Peer i of a pass: what its pipe gave, or nothing. */
    method PumpOne(ghost c: Core, ghost held: seq<seq<byte>>, ghost logs: seq<seq<Parser.Event>>,
                   given: seq<seq<byte>>, nodes: nat -> nat -> Nodes, i: nat, buf: array<byte>,
                   ghost outs: seq<ToPeer>, ghost writes: seq<seq<byte>>)
      requires Valid() && Apart() && PeersValid() && i < |parsers|
      requires Pumped(c, held, logs, given, nodes, i, outs, writes)
      requires |given[i]| <= buf.Length && buf != link.buf && buf !in Parsers()
      modifies buf, this, link, link.buf, parsers[i], parsers[i].buf
      ensures Valid() && PeersValid() && Pumped(c, held, logs, given, nodes, i + 1, outs, writes)
    {
      hide BrokerCore.OnArrivals, Parser.Replay, Parser.Tally, Scan.ScanAll, OnReads, Logged;
      OneMoreRead(c, held, logs, given, nodes, i);
      if given[i] != [] {
        PumpGiven(c, held, i, buf, given, nodes, outs, writes);
      }
    }

    method PumpGiven(ghost c: Core, ghost held: seq<seq<byte>>, i: nat, buf: array<byte>, given: seq<seq<byte>>,
                     nodes: nat -> nat -> Nodes, ghost outs: seq<ToPeer>, ghost writes: seq<seq<byte>>)
      requires Valid() && Apart() && PeersValid() && i < |parsers| == |held| == |given|
      requires |given[i]| <= buf.Length && buf != link.buf && buf !in Parsers() && Helds()[i] == held[i]
      requires Did(OnReads(c, held, given, nodes, i), outs, writes)
      modifies buf, this, link, link.buf, parsers[i], parsers[i].buf
      ensures Valid() && PeersValid()
      ensures Histories() == old(Histories())[i := old(Histories())[i] + [Parser.Data(given[i])]]
      ensures forall j :: 0 <= j < |parsers| && j != i ==> Helds()[j] == old(Helds())[j]
      ensures var before := OnReads(c, held, given, nodes, i);
              Did(Then(before, BrokerCore.OnArrivals(
                before.core, ArrivalsOf(i, Scan.ScanAll(held[i] + given[i]).frames, nodes(i)))), outs, writes)
    {
      hide BrokerCore.OnArrivals, Parser.Replay, Parser.Tally, Scan.ScanAll, OnReads;
      ghost var hs, ls := Helds(), Histories();
      forall k | 0 <= k < |given[i]| {
        buf[k] := given[i][k];
      }
      assert buf[..|given[i]|] == given[i];
      assert Helds() == hs && Histories() == ls;
      ghost var before := OnReads(c, held, given, nodes, i);
      PumpPeer(i, buf, |given[i]|, nodes(i));
      ghost var frames := Scan.ScanAll(held[i] + given[i]).frames;
      ghost var e := BrokerCore.OnArrivals(before.core, ArrivalsOf(i, frames, nodes(i)));
      Appended(outs, before.outs, e.outs);
      Appended(writes, before.writes, e.writes);
    }

    /** Everything that the parsers of the peers were given. */
    ghost function Histories(): (h: seq<seq<Parser.Event>>)
      reads Parsers()
      ensures |h| == |parsers| && forall i :: 0 <= i < |h| ==> h[i] == parsers[i].history
    {
      seq(|parsers|, i requires 0 <= i < |parsers| reads Parsers() => parsers[i].history)
    }

    /** What the parsers of the peers hold. */
    ghost function Helds(): (h: seq<seq<byte>>)
      requires PeersValid()
      reads Parsers()
      ensures |h| == |parsers| && forall i :: 0 <= i < |h| ==> h[i] == parsers[i].Held()
    {
      seq(|parsers|, i requires 0 <= i < |parsers| && PeersValid() reads Parsers() => parsers[i].Held())
    }

    /** Send a request again, or fail it after the last attempt. */
    method CheckTimeout(due: bool)
      modifies this`outbox, this`line, this`busy, this`tries
      ensures Did(if due then OnTimer(old(State())) else Effect(old(State()), [], []), old(outbox), old(line))
    {
      if !busy || !due {
        return;
      }
      if tries >= REPLY_TRIES {
        NackPeer(peer, peerId, ERR_FAILED);
        busy := false;
        return;
      }
      SendInflight();
    }

    /** An idle line takes a false start of a frame away. */
    method CheckIdle(due: bool)
      requires Valid()
      modifies this`outbox, this`busy, link, link.buf
      ensures Valid()
      ensures old(raw) >= 0 || !due || old(link.Held()) == [] ==>
                Did(Effect(old(State()), [], []), old(outbox), old(line))
      ensures old(raw) < 0 && due ==>
                Did(OnLinkFrames(old(State()), pushes, Scan.Flush(old(link.Held())).frames),
                    old(outbox), old(line))
    {
      if raw >= 0 || !link.Pending() {
        assert raw < 0 ==> link.Held() == [] && Scan.Flush([]).frames == [];
        return;
      }
      if due {
        var frames := link.Timeout();
        OnFrames(frames);
      }
    }
  }

  lemma Appended<T>(log: seq<T>, a: seq<T>, b: seq<T>)
    ensures log + (a + b) == (log + a) + b
  {
  }

  lemma NoArrivals(c: Core)
    ensures BrokerCore.OnArrivals(c, []) == Effect(c, [], [])
  {
  }

  /** One of the first `n` pipes gave something. */
  predicate AnyRead(given: seq<seq<byte>>, n: nat)
    requires n <= |given|
  {
    exists i :: 0 <= i < n && given[i] != []
  }

  lemma NoneRead(given: seq<seq<byte>>)
    ensures !AnyRead(given, 0)
  {
  }

  lemma OneMoreGiven(given: seq<seq<byte>>, n: nat)
    requires n < |given|
    ensures AnyRead(given, n + 1) == (AnyRead(given, n) || given[n] != [])
  {
  }

  /** The histories of the parsers after the reads of the first `n` peers. */
  ghost function Logged(logs: seq<seq<Parser.Event>>, given: seq<seq<byte>>, n: nat): (l: seq<seq<Parser.Event>>)
    requires n <= |logs| == |given|
    ensures |l| == |logs|
    ensures forall i :: 0 <= i < |l| ==>
              l[i] == logs[i] + if i >= n || given[i] == [] then [] else [Parser.Data(given[i])]
  {
    seq(|logs|, i requires 0 <= i < |logs| =>
      logs[i] + if i >= n || given[i] == [] then [] else [Parser.Data(given[i])])
  }

  lemma NoReads(c: Core, held: seq<seq<byte>>, logs: seq<seq<Parser.Event>>, given: seq<seq<byte>>,
                nodes: nat -> nat -> Nodes)
    requires |held| == |given| == |logs|
    ensures OnReads(c, held, given, nodes, 0) == Effect(c, [], [])
    ensures Logged(logs, given, 0) == logs
  {
    forall i | 0 <= i < |logs|
      ensures Logged(logs, given, 0)[i] == logs[i]
    {
      assert logs[i] + [] == logs[i];
    }
  }

  lemma OneMoreRead(c: Core, held: seq<seq<byte>>, logs: seq<seq<Parser.Event>>, given: seq<seq<byte>>,
                    nodes: nat -> nat -> Nodes, i: nat)
    requires i < |held| == |given| == |logs|
    ensures var before := OnReads(c, held, given, nodes, i);
            OnReads(c, held, given, nodes, i + 1)
            == if given[i] == [] then before
               else Then(before, BrokerCore.OnArrivals(
                 before.core, ArrivalsOf(i, Scan.ScanAll(held[i] + given[i]).frames, nodes(i))))
    ensures var l := Logged(logs, given, i);
            Logged(logs, given, i + 1) == if given[i] == [] then l else l[i := l[i] + [Parser.Data(given[i])]]
  {
    hide OnReads;
    ReadsUnfold(c, held, given, nodes, i);
    hide Logged;
    var l, m := Logged(logs, given, i), Logged(logs, given, i + 1);
    assert logs[i] + [] == logs[i];
    forall j | 0 <= j < |logs|
      ensures m[j] == if j == i && given[i] != [] then l[i] + [Parser.Data(given[i])] else l[j]
    {
    }
  }

  lemma ReadsUnfold(c: Core, held: seq<seq<byte>>, given: seq<seq<byte>>, nodes: nat -> nat -> Nodes, i: nat)
    requires i < |held| == |given|
    ensures var before := OnReads(c, held, given, nodes, i);
            OnReads(c, held, given, nodes, i + 1)
            == if given[i] == [] then before
               else Then(before, BrokerCore.OnArrivals(
                 before.core, ArrivalsOf(i, Scan.ScanAll(held[i] + given[i]).frames, nodes(i))))
  {
    hide BrokerCore.OnArrivals, Scan.ScanAll, ArrivalsOf;
  }

  lemma OneMoreArrival(c: Core, arrivals: seq<Arrival>, i: nat)
    requires i < |arrivals|
    ensures var before, a := BrokerCore.OnArrivals(c, arrivals[..i]), arrivals[i];
            BrokerCore.OnArrivals(c, arrivals[..i + 1])
            == Then(before, BrokerCore.OnPeerFrame(before.core, a.peer, a.frame, a.nodes))
  {
    assert arrivals[..i + 1][..i] == arrivals[..i];
  }
}
