/** The board side of a channel write: the device that is open, and the sequence of the
    last write it took. */
module UsbBoard {
  import opened Bytes
  import WriteOnce

  const CHANNELS := 2
  const OFF_CHANNEL := 0
  const OFF_SEQ := 1
  const OFF_DATA := 2

  datatype Answer = Ack | Nack(error: byte)

  const ERR_BAD_LENGTH: byte := 0x02
  const ERR_FAILED: byte := 0x05

  /** What the port answers to the outside: open a device, start its reader, write. */
  datatype Device = Device(opens: bool, readerStarts: bool, writes: bool)

  /** The state of the port; `current` is the channel in use, or -1. */
  datatype Port = Port(open: seq<bool>, reader: seq<bool>, current: int,
                       seqValid: bool, seqNo: byte, streams: seq<seq<byte>>)

  predicate Wellformed(p: Port) {
    |p.open| == |p.reader| == |p.streams| == CHANNELS
  }

  /** Open a channel, or not. Another device forgets the sequence. */
  function Opened(p: Port, channel: byte, d: Device): (Port, bool)
    requires Wellformed(p)
  {
    if channel >= CHANNELS then (p, false)
    else
      var p1 := p.(open := p.open[channel := p.open[channel] || d.opens]);
      if !p1.open[channel] then (p1, false)
      else if !p.reader[channel] && !d.readerStarts then (p1, false)
      else
        (p1.(reader := p.reader[channel := true],
             seqValid := p.seqValid && p.current == channel,
             current := channel), true)
  }

  function Written(p: Port, payload: seq<byte>, d: Device): (Port, Answer)
    requires Wellformed(p)
  {
    if |payload| < OFF_DATA then (p, Nack(ERR_BAD_LENGTH))
    else
      var channel := payload[OFF_CHANNEL];
      var (p1, ok) := Opened(p, channel, d);
      if !ok then (p1, Nack(ERR_FAILED))
      else
        var seqNo, data := payload[OFF_SEQ], payload[OFF_DATA..];
        if p1.seqValid && p1.seqNo == seqNo then (p1, Ack)
        else if data != [] && !d.writes then (p1, Nack(ERR_FAILED))
        else (p1.(streams := p1.streams[channel := p1.streams[channel] + data],
                  seqNo := seqNo, seqValid := true), Ack)
  }

  class Board {
    var open: seq<bool>
    var reader: seq<bool>
    var current: int
    var seqValid: bool
    var seqNo: byte
    var streams: seq<seq<byte>>

    function State(): Port
      reads this
    {
      Port(open, reader, current, seqValid, seqNo, streams)
    }

    constructor ()
      ensures State() == Port([false, false], [false, false], -1, false, 0, [[], []])
    {
      open, reader, current := [false, false], [false, false], -1;
      seqValid, seqNo, streams := false, 0, [[], []];
    }

    method UsbOpen(channel: byte, d: Device) returns (ok: bool)
      requires Wellformed(State())
      modifies this
      ensures (State(), ok) == Opened(old(State()), channel, d)
    {
      if channel >= CHANNELS {
        return false;
      }
      ghost var devices := open[channel := open[channel] || d.opens];
      if !open[channel] {
        open := open[channel := d.opens];
      }
      assert open == devices;
      if !open[channel] {
        return false;
      }
      if !reader[channel] {
        if !d.readerStarts {
          return false;
        }
        reader := reader[channel := true];
      }
      assert reader == old(reader)[channel := true];
      if current != channel {
        seqValid := false;
      }
      current := channel;
      ok := true;
    }

    method UsbWrite(payload: seq<byte>, d: Device) returns (a: Answer)
      requires Wellformed(State())
      modifies this
      ensures (State(), a) == Written(old(State()), payload, d)
    {
      if |payload| < OFF_DATA {
        return Nack(ERR_BAD_LENGTH);
      }
      var channel := payload[OFF_CHANNEL];
      var ok := UsbOpen(channel, d);
      if !ok {
        return Nack(ERR_FAILED);
      }
      var s := payload[OFF_SEQ];
      if seqValid && seqNo == s {
        return Ack;
      }
      var data := payload[OFF_DATA..];
      if |data| > 0 && !d.writes {
        return Nack(ERR_FAILED);
      }
      streams := streams[channel := streams[channel] + data];
      seqNo, seqValid := s, true;
      a := Ack;
    }
  }

  /** On the device in use the board does what the write-once protocol asks of it. */
  lemma WriteFollowsTheProtocol(p: Port, s: WriteOnce.State, c: WriteOnce.Copy, channel: byte, d: Device)
    requires Wellformed(p) && channel < CHANNELS && c.request.Write?
    requires p.current == channel && p.open[channel] && p.reader[channel]
    requires s.seqValid == p.seqValid && s.boardSeq == p.seqNo && s.stream == p.streams[channel]
    ensures var (p', a) := Written(p, [channel, c.request.seqNo] + c.request.data, d);
            var s' := WriteOnce.BoardStep(s, c, d.writes);
            && s'.seqValid == p'.seqValid && s'.boardSeq == p'.seqNo && s'.stream == p'.streams[channel]
            && s'.toBroker == s.toBroker + [WriteOnce.Reply(c.serial, a.Ack?)]
            && p'.streams[1 - channel] == p.streams[1 - channel]
            && p'.current == channel && p'.open == p.open && p'.reader == p.reader
  {
    var payload := [channel, c.request.seqNo] + c.request.data;
    assert payload[OFF_DATA..] == c.request.data;
  }

  /** The first write to another device is never taken for a repeat. */
  lemma AnotherDeviceStartsAfresh(p: Port, channel: byte, seqNo: byte, data: seq<byte>, d: Device)
    requires Wellformed(p) && channel < CHANNELS && p.current != channel
    requires d.opens && d.readerStarts && d.writes
    ensures var (p', a) := Written(p, [channel, seqNo] + data, d);
            a == Ack && p'.streams[channel] == p.streams[channel] + data && p'.seqNo == seqNo && p'.seqValid
  {
    var payload := [channel, seqNo] + data;
    assert payload[OFF_DATA..] == data;
  }

  /** When the device of a channel opens, and what else changes then: nothing but its marks when
      it does not, and the sequence is forgotten exactly when it was not the channel in use. */
  lemma OpensExactlyWhen(p: Port, channel: byte, d: Device)
    requires Wellformed(p)
    ensures var (p', ok) := Opened(p, channel, d);
            && Wellformed(p') && p'.streams == p.streams && p'.seqNo == p.seqNo
            && (ok <==> channel < 2 && (p.open[channel] || d.opens) && (p.reader[channel] || d.readerStarts))
            && p'.current == (if ok then channel else p.current)
            && p'.seqValid == (p.seqValid && (!ok || p.current == channel))
            && forall k :: 0 <= k < 2 ==>
                 && p'.open[k] == (p.open[k] || (k == channel && d.opens))
                 && p'.reader[k] == (p.reader[k] || (k == channel && ok))
  {
  }

  /** The answer to a write of any payload and what it adds to the streams, each exactly when: only
      an ACK of a sequence that is not the last one of this channel adds data and is remembered. */
  lemma WriteAnswers(p: Port, payload: seq<byte>, d: Device)
    requires Wellformed(p)
    ensures var (p', a) := Written(p, payload, d);
            var channel := if |payload| < 2 then 0 else payload[0];
            var (p1, ok) := Opened(p, channel, d);
            var repeat := |payload| >= 2 && ok && p.current == channel && p.seqValid && p.seqNo == payload[1];
            var taken := |payload| >= 2 && ok && !repeat && (|payload| == 2 || d.writes);
            && (a == Nack(2) <==> |payload| < 2)
            && (a == Ack <==> repeat || taken)
            && (a == Nack(5) <==> |payload| >= 2 && !repeat && !taken)
            && (taken ==> p' == p1.(streams := p1.streams[channel := p1.streams[channel] + payload[2..]],
                                    seqNo := payload[1], seqValid := true))
            && (!taken ==> p' == if |payload| < 2 then p else p1)
  {
    if |payload| >= 2 {
      OpensExactlyWhen(p, payload[0], d);
    }
  }
}
