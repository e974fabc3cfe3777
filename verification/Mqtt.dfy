/** The stream of MQTT packets (sections 2.2 and 3.3 of MQTT Version 3.1.1): the
    remaining length, the decoder of a whole stream, and the client that polls it. */
module Mqtt {
  import opened Bytes
  import opened Wrappers

  const BUF_MAX := 3072
  const TOPIC_MAX := 160
  const VARINT_MAX := 0x0fff_ffff
  const PUBLISH := 3
  const RETAIN := 1

  // ---------------------------------------------------------------------------
  // The remaining length: seven bits a byte, low group first
  // ---------------------------------------------------------------------------

  datatype Varint = Varint(used: nat, value: nat)

  /** The value at the front of `s`, in at most `most` bytes. */
  function Decoded(s: seq<byte>, most: nat): (r: Option<Varint>)
    ensures r.Some? ==> 1 <= r.value.used <= |s| && r.value.used <= most
  {
    if s == [] || most == 0 then None
    else if s[0] < 0x80 then Some(Varint(1, s[0]))
    else
      match Decoded(s[1..], most - 1)
      case None => None
      case Some(r) => Some(Varint(r.used + 1, (s[0] - 0x80) + 0x80 * r.value))
  }

  function VarintBytes(value: nat): (s: seq<byte>)
    ensures |s| >= 1
  {
    if value < 0x80 then [value] else [value % 0x80 + 0x80] + VarintBytes(value / 0x80)
  }

  function Pow128(n: nat): nat {
    if n == 0 then 1 else 0x80 * Pow128(n - 1)
  }

  lemma {:induction false} VarintRoundTrip(value: nat, most: nat, more: seq<byte>)
    requires most > 0 && value < Pow128(most)
    ensures Decoded(VarintBytes(value) + more, most) == Some(Varint(|VarintBytes(value)|, value))
    decreases most
  {
    var s := VarintBytes(value);
    if value >= 0x80 {
      assert (s + more)[1..] == VarintBytes(value / 0x80) + more;
      VarintRoundTrip(value / 0x80, most - 1, more);
    }
  }

  /** No proper prefix of a length is a length. */
  lemma {:induction false} VarintPrefixIsIncomplete(value: nat, most: nat, n: nat)
    requires n < |VarintBytes(value)|
    ensures Decoded(VarintBytes(value)[..n], most) == None
    decreases n
  {
    if n > 0 && most > 0 {
      assert VarintBytes(value)[..n][1..] == VarintBytes(value / 0x80)[..n - 1];
      VarintPrefixIsIncomplete(value / 0x80, most - 1, n - 1);
    }
  }

  lemma {:induction false} DecodedIsStable(s: seq<byte>, most: nat, more: seq<byte>)
    requires Decoded(s, most).Some?
    ensures Decoded(s + more, most) == Decoded(s, most)
    decreases most
  {
    if s[0] >= 0x80 {
      assert (s + more)[1..] == s[1..] + more;
      DecodedIsStable(s[1..], most - 1, more);
    }
  }

  /** Write a length; four bytes hold the largest. */
  method PutVarint(buf: array<byte>, at: nat, value: nat) returns (n: nat)
    requires value <= VARINT_MAX && at + 4 <= buf.Length
    modifies buf
    ensures n == |VarintBytes(value)| && n <= 4
    ensures buf[at..at + n] == VarintBytes(value)
    ensures buf[..at] == old(buf[..at]) && buf[at + n..] == old(buf[at + n..])
  {
    hide VarintBytes, Pow128, Left;
    Pow128Of4();
    LeftEnds(value);
    n := 0;
    var v: nat := value;
    var going := true;
    ghost var done: seq<byte>, was := [], buf[at..];
    while going
      invariant n <= 4 && (going ==> n < 4 && v < Pow128(4 - n))
      invariant buf[at..at + n] == done && Left(done, going, v) == VarintBytes(value)
      invariant buf[..at] == old(buf[..at]) && buf[at + n..] == was[n..]
      decreases going, v
    {
      v, done := PutGroup(buf, at, n, v, done);
      n := n + 1;
      assert buf[at + n..] == was[n - 1..][1..] == was[n..];
      going := v > 0;
    }
    NoneLeft(done, v);
  }

  lemma LeftEnds(value: nat)
    ensures Left([], true, value) == VarintBytes(value)
  {
  }

  lemma NoneLeft(done: seq<byte>, v: nat)
    ensures Left(done, false, v) == done
  {
  }

  /** The bytes written so far and those to come. */
  ghost function Left(done: seq<byte>, going: bool, v: nat): seq<byte> {
    done + if going then VarintBytes(v) else []
  }

  lemma LeftSteps(done: seq<byte>, v: nat, b: byte)
    requires b == v % 0x80 + if v / 0x80 > 0 then 0x80 else 0
    ensures Left(done, true, v) == Left(done + [b], v / 0x80 > 0, v / 0x80)
  {
    if v / 0x80 > 0 {
      assert done + ([b] + VarintBytes(v / 0x80)) == (done + [b]) + VarintBytes(v / 0x80);
    } else {
      assert (done + [b]) + [] == done + [b];
    }
  }

  /** Write the low seven bits, marked when more follow, and give the rest. */
  method PutGroup(buf: array<byte>, at: nat, n: nat, v: nat, ghost done: seq<byte>)
    returns (rest: nat, ghost done': seq<byte>)
    requires at + n < buf.Length && n < 4 && v < Pow128(4 - n) && buf[at..at + n] == done
    modifies buf
    ensures buf[at..at + n + 1] == done' && Left(done', rest > 0, rest) == Left(done, true, v)
    ensures rest > 0 ==> n + 1 < 4 && rest < Pow128(4 - (n + 1)) && rest < v
    ensures buf[..at] == old(buf[..at]) && buf[at + n + 1..] == old(buf[at + n..])[1..]
  {
    hide VarintBytes, Pow128, Left;
    OneByte(v, 4 - n);
    var b := v % 0x80;
    rest := v / 0x80;
    if rest > 0 {
      b := b + 0x80;
    }
    LeftSteps(done, v, b);
    buf[at + n] := b;
    done' := done + [b];
  }

  lemma Pow128Of4()
    ensures Pow128(4) == VARINT_MAX + 1
  {
  }

  lemma OneByte(v: nat, most: nat)
    requires most > 0 && v < Pow128(most)
    ensures VarintBytes(v) == if v / 0x80 > 0 then [v % 0x80 + 0x80] + VarintBytes(v / 0x80) else [v % 0x80]
    ensures v / 0x80 > 0 ==> most > 1 && v / 0x80 < Pow128(most - 1)
  {
  }

  /** The bytes a length takes and its value; none while it is incomplete. */
  method GetVarint(buf: array<byte>, from: nat, len: nat) returns (used: nat, value: nat)
    requires from + len <= buf.Length
    ensures match Decoded(buf[from..from + len], 4)
            case None => used == 0
            case Some(r) => used == r.used && value == r.value
  {
    hide Decoded, Shifted;
    ghost var s := buf[from..from + len];
    var v: nat, mult: nat, i: nat := 0, 1, 0;
    assert s[0..] == s;
    NoGroups(s);
    while i < 4 && i < len
      invariant 0 <= i <= 4 && i <= len && mult == Pow128(i)
      invariant Decoded(s, 4) == Shifted(Decoded(s[i..], 4 - i), i, v)
    {
      var b: int := buf[from + i];
      assert s[i..][0] == b && s[i..][1..] == s[i + 1..];
      OneGroup(s[i..], 4 - i, i, v, mult);
      v := v + (b % 0x80) * mult;
      if b < 0x80 {
        return i + 1, v;
      }
      mult := mult * 0x80;
      i := i + 1;
    }
    OutOfBytes(s[i..], 4 - i, i, v);
    used, value := 0, 0;
  }

  lemma NoGroups(s: seq<byte>)
    ensures Shifted(Decoded(s, 4), 0, 0) == Decoded(s, 4)
  {
  }

  lemma OutOfBytes(s: seq<byte>, most: nat, i: nat, v: nat)
    requires s == [] || most == 0
    ensures Shifted(Decoded(s, most), i, v) == None
  {
  }

  lemma OneGroup(s: seq<byte>, most: nat, i: nat, v: nat, mult: nat)
    requires s != [] && most > 0 && mult == Pow128(i)
    ensures Shifted(Decoded(s, most), i, v)
         == if s[0] < 0x80 then Some(Varint(i + 1, v + (s[0] % 0x80) * mult))
            else Shifted(Decoded(s[1..], most - 1), i + 1, v + (s[0] % 0x80) * mult)
  {
    var r := Decoded(s[1..], most - 1);
    if s[0] >= 0x80 && r.Some? {
      Distribute(s[0] - 0x80, r.value.value, mult);
    }
  }

  lemma Distribute(low: nat, high: nat, mult: nat)
    ensures (low + 0x80 * high) * mult == low * mult + high * (0x80 * mult)
  {
  }

  /** A length whose first `i` groups gave `v`. */
  ghost function Shifted(r: Option<Varint>, i: nat, v: nat): Option<Varint> {
    match r
    case None => None
    case Some(t) => Some(Varint(t.used + i, v + t.value * Pow128(i)))
  }

  // ---------------------------------------------------------------------------
  // The whole-stream decoder
  // ---------------------------------------------------------------------------

  datatype Msg = Msg(topic: seq<byte>, payload: seq<byte>)

  /** The packet at the front: not whole yet, or its size and the message it gives. */
  datatype Front = Incomplete | Whole(total: nat, msg: Option<Msg>)

  /** The message of a PUBLISH packet that the client takes. `flags` is its first byte. */
  function Meaning(flags: byte, body: seq<byte>): Option<Msg> {
    if flags / 0x10 != PUBLISH || |body| < 2 then None
    else
      var hi: int, lo: int := body[0], body[1];
      var tlen := hi * 0x100 + lo;
      var off := 2 + tlen + if (flags / 2) % 4 > 0 then 2 else 0;
      if tlen >= TOPIC_MAX || off > |body| then None
      else Some(Msg(body[2..2 + tlen], body[off..]))
  }

  /** The body of a PUBLISH: the topic behind its length, an identifier above QoS 0, the payload. */
  ghost predicate Spells(flags: byte, body: seq<byte>, m: Msg) {
    exists id: seq<byte> :: |id| == (if flags % 8 / 2 > 0 then 2 else 0)
                            && |m.topic| < 160 && body == [0, |m.topic|] + m.topic + id + m.payload
  }

  /** A packet gives a message exactly when it is a PUBLISH whose body spells that message with a
      topic below 160 bytes. */
  lemma MessageExactlyWhen(flags: byte, body: seq<byte>, m: Msg)
    ensures Meaning(flags, body) == Some(m) <==> 0x30 <= flags <= 0x3f && Spells(flags, body, m)
  {
    if Meaning(flags, body) == Some(m) {
      MessageSpells(flags, body, m);
    }
    if 0x30 <= flags <= 0x3f && Spells(flags, body, m) {
      SpelledIsTaken(flags, body, m);
    }
  }

  lemma MessageSpells(flags: byte, body: seq<byte>, m: Msg)
    requires Meaning(flags, body) == Some(m)
    ensures 0x30 <= flags <= 0x3f && Spells(flags, body, m)
  {
    var end := 2 + |m.topic|;
    var off := |body| - |m.payload|;
    SliceJoins(body, 0, 2, end);
    SliceJoins(body, 0, end, off);
    SliceJoins(body, 0, off, |body|);
    assert body[0..|body|] == body && body[0..2] == [0, |m.topic|];
  }

  lemma SpelledIsTaken(flags: byte, body: seq<byte>, m: Msg)
    requires 0x30 <= flags <= 0x3f && Spells(flags, body, m)
    ensures Meaning(flags, body) == Some(m)
  {
    var id: seq<byte> :| |id| == (if flags % 8 / 2 > 0 then 2 else 0)
                         && |m.topic| < 160 && body == [0, |m.topic|] + m.topic + id + m.payload;
    assert body[2..2 + |m.topic|] == m.topic && body[2 + |m.topic| + |id|..] == m.payload;
  }

  function Parse(s: seq<byte>): (f: Front)
    ensures f.Whole? ==> 2 <= f.total <= |s|
  {
    if |s| < 2 then Incomplete
    else
      match Decoded(s[1..], 4)
      case None => Incomplete
      case Some(r) =>
        var total := 1 + r.used + r.value;
        if |s| < total then Incomplete
        else Whole(total, Meaning(s[0], s[1 + r.used..total]))
  }

  function Messages(s: seq<byte>): seq<Msg>
    decreases |s|
  {
    match Parse(s)
    case Incomplete => []
    case Whole(total, msg) => (if msg.Some? then [msg.value] else []) + Messages(s[total..])
  }

  function Rest(s: seq<byte>): seq<byte>
    decreases |s|
  {
    match Parse(s)
    case Incomplete => s
    case Whole(total, _) => Rest(s[total..])
  }

  lemma ParseIsStable(s: seq<byte>, more: seq<byte>)
    requires Parse(s).Whole?
    ensures Parse(s + more) == Parse(s)
  {
    hide Meaning;
    assert (s + more)[1..] == s[1..] + more;
    DecodedIsStable(s[1..], 4, more);
    var r := Decoded(s[1..], 4).value;
    var total := 1 + r.used + r.value;
    assert (s + more)[1 + r.used..total] == s[1 + r.used..total];
  }

  lemma {:induction false} StreamSplits(a: seq<byte>, b: seq<byte>)
    ensures Messages(a + b) == Messages(a) + Messages(Rest(a) + b)
    ensures Rest(a + b) == Rest(Rest(a) + b)
    decreases |a|
  {
    hide Parse;
    if Parse(a).Whole? {
      var total := Parse(a).total;
      ParseIsStable(a, b);
      assert (a + b)[total..] == a[total..] + b;
      StreamSplits(a[total..], b);
    }
  }

  lemma {:induction false} RestIsIncomplete(s: seq<byte>)
    ensures Parse(Rest(s)).Incomplete? && Messages(Rest(s)) == [] && Rest(Rest(s)) == Rest(s)
    decreases |s|
  {
    hide Parse;
    if Parse(s).Whole? {
      RestIsIncomplete(s[Parse(s).total..]);
    }
  }

  // ---------------------------------------------------------------------------
  // The client
  // ---------------------------------------------------------------------------

  /** What the next poll makes of the bytes it has. */
  datatype Next = NoMsg(rest: seq<byte>) | Found(msg: Msg, total: nat, rest: seq<byte>)

  /** Packets without a message are dropped on the way to the first with one. */
  function NextMsg(s: seq<byte>): (n: Next)
    ensures n.Found? ==> 0 < n.total <= |s| && |n.rest| <= |s| - n.total
    ensures |n.rest| <= |s|
    decreases |s|
  {
    match Parse(s)
    case Incomplete => NoMsg(s)
    case Whole(total, msg) =>
      if msg.Some? then Found(msg.value, total, s[total..]) else NextMsg(s[total..])
  }

  /** A poll takes exactly the first message of its bytes, or finds that none is whole. */
  lemma {:induction false} NextIsFirst(s: seq<byte>)
    ensures match NextMsg(s)
            case NoMsg(rest) => Messages(s) == [] && Rest(s) == rest && Parse(rest).Incomplete?
            case Found(msg, _, rest) => Messages(s) == [msg] + Messages(rest) && Rest(s) == Rest(rest)
    decreases |s|
  {
    hide Parse;
    if Parse(s).Whole? && Parse(s).msg.None? {
      NextIsFirst(s[Parse(s).total..]);
    }
  }

  /** One read of the socket. */
  datatype Read = Bytes(data: seq<byte>) | WouldBlock | Closed

  predicate ReadFits(r: Read, space: nat) {
    r.Bytes? ==> 0 < |r.data| <= space
  }

  function Got(r: Read): seq<byte> {
    if r.Bytes? then r.data else []
  }

  class Client {
    const rx: array<byte>
    var rxLen: nat
    var pending: nat

    ghost predicate Valid()
      reads this
    {
      rx.Length == BUF_MAX && pending <= rxLen <= BUF_MAX
    }

    /** The bytes behind the packet that was handed over last. */
    function Unread(): seq<byte>
      requires Valid()
      reads this, rx
    {
      rx[pending..rxLen]
    }

    constructor ()
      ensures Valid() && fresh(rx) && Unread() == [] && pending == 0
    {
      rx := new byte[BUF_MAX];
      rxLen, pending := 0, 0;
    }

    /** Drop the first n bytes. */
    method Consume(n: nat)
      requires Valid() && pending == 0
      modifies this`rxLen, rx
      ensures Valid()
      ensures Unread() == if n < old(rxLen) then old(Unread())[n..] else []
    {
      if n >= rxLen {
        rxLen := 0;
        return;
      }
      ghost var was := rx[..rxLen];
      forall i | 0 <= i < rxLen - n {
        rx[i] := rx[n + i];
      }
      rxLen := rxLen - n;
      assert rx[..rxLen] == was[n..];
      assert old(Unread()) == was;
    }

    /** Take what the socket holds into the buffer: the count, or -1 at the end. */
    method Fill(r: Read) returns (n: int)
      requires Valid() && pending == 0
      requires ReadFits(r, BUF_MAX - rxLen) || rxLen == BUF_MAX
      modifies this`rxLen, rx
      ensures Valid()
      ensures old(rxLen) == BUF_MAX || r.Closed? ==> n == -1 && Unread() == old(Unread())
      ensures old(rxLen) < BUF_MAX && !r.Closed? ==> n == |Got(r)| && Unread() == old(Unread()) + Got(r)
    {
      if rxLen >= BUF_MAX {
        return -1;
      }
      match r {
        case Closed => return -1;
        case WouldBlock => return 0;
        case Bytes(data) =>
          forall i | 0 <= i < |data| {
            rx[rxLen + i] := data[i];
          }
          rxLen := rxLen + |data|;
          n := |data|;
      }
    }

    /** Find the packet at the front, as the decoder does. `off` is its body. */
    method Header() returns (whole: bool, off: nat, total: nat)
      requires Valid() && pending == 0 && rxLen >= 2
      ensures whole == Parse(Unread()).Whole?
      ensures whole ==>
                && 2 <= off <= total == Parse(Unread()).total <= rxLen
                && Parse(Unread()).msg == Meaning(rx[0], rx[off..total])
    {
      hide Decoded, Meaning;
      ghost var s := Unread();
      assert s[1..] == rx[1..1 + (rxLen - 1)];
      var hlen, rem := GetVarint(rx, 1, rxLen - 1);
      if hlen == 0 || rxLen < 1 + hlen + rem {
        return false, 0, 0;
      }
      whole, off, total := true, 1 + hlen, 1 + hlen + rem;
      assert s[off..total] == rx[off..total];
    }

    /** Take the next message. It stays in the buffer, at `at`, until the next call. */
    method Poll(r: Read) returns (rc: int, topic: seq<byte>, at: nat, len: nat)
      requires Valid()
      requires ReadFits(r, BUF_MAX - |Unread()|) || |Unread()| == BUF_MAX
      modifies this, rx
      ensures Valid()
      ensures rc == -1 <==> |old(Unread())| == BUF_MAX || r.Closed?
      ensures rc == -1 ==> Unread() == old(Unread())
      ensures rc != -1 ==>
                match NextMsg(old(Unread()) + Got(r))
                case NoMsg(rest) => rc == 0 && Unread() == rest
                case Found(msg, total, rest) =>
                  && rc == 1 && Unread() == rest && pending == total
                  && topic == msg.topic && at + len <= total && rx[at..at + len] == msg.payload
    {
      hide NextMsg;
      DropPending();
      var n := Fill(r);
      if n < 0 {
        return -1, [], 0, 0;
      }
      rc, topic, at, len := First();
    }

    /** Consume packets up to the first with a message. */
    method First() returns (rc: int, topic: seq<byte>, at: nat, len: nat)
      requires Valid() && pending == 0
      modifies this, rx
      ensures Valid()
      ensures match NextMsg(old(Unread()))
              case NoMsg(rest) => rc == 0 && Unread() == rest
              case Found(msg, total, rest) =>
                && rc == 1 && Unread() == rest && pending == total
                && topic == msg.topic && at + len <= total && rx[at..at + len] == msg.payload
    {
      hide Parse, Meaning, Decoded, NextMsg;
      ghost var s := Unread();
      while rxLen >= 2
        invariant Valid() && pending == 0
        invariant NextMsg(Unread()) == NextMsg(s)
        decreases rxLen
      {
        var whole, off, total := Header();
        NextStep(Unread());
        if !whole {
          return 0, [], 0, 0;
        }
        ghost var after := Unread()[total..];
        assert after == rx[total..rxLen];
        var found, tlen, skip := Message(off, total);
        if found {
          pending := total;
          return 1, rx[off + 2..off + 2 + tlen], off + skip, total - off - skip;
        }
        Consume(total);
        assert Unread() == after;
      }
      ShortIsIncomplete(Unread());
      return 0, [], 0, 0;
    }

    method DropPending()
      requires Valid()
      modifies this, rx
      ensures Valid() && pending == 0 && Unread() == old(Unread()) && rxLen == |Unread()|
    {
      var n := pending;
      ghost var unread := Unread();
      pending := 0;
      assert Unread()[n..] == unread;
      if n > 0 {
        Consume(n);
      } else {
        assert Unread() == unread;
      }
    }

    /** The message of a whole packet: the length of its topic, and where its payload
        starts in the body. */
    method Message(off: nat, total: nat) returns (found: bool, tlen: nat, skip: nat)
      requires Valid() && 0 < off <= total <= rxLen
      ensures found == Meaning(rx[0], rx[off..total]).Some?
      ensures found ==>
                && 2 + tlen <= skip <= total - off
                && Meaning(rx[0], rx[off..total]).value == Msg(rx[off + 2..off + 2 + tlen], rx[off + skip..total])
    {
      ghost var body := rx[off..total];
      var kind, qos, rem := rx[0] / 0x10, (rx[0] / 2) % 4, total - off;
      if kind != PUBLISH || rem < 2 {
        return false, 0, 0;
      }
      var hi: int, lo: int := rx[off], rx[off + 1];
      tlen := hi * 0x100 + lo;
      skip := 2 + tlen;
      if qos > 0 {
        skip := skip + 2;
      }
      if tlen >= TOPIC_MAX || skip > rem {
        return false, 0, 0;
      }
      found := true;
      SliceOfSlice(rx[..], off, total, 2, 2 + tlen);
      assert body[skip..] == rx[off + skip..total];
    }
  }

  lemma NextStep(s: seq<byte>)
    ensures NextMsg(s) ==
            if Parse(s).Incomplete? then NoMsg(s)
            else if Parse(s).msg.Some? then Found(Parse(s).msg.value, Parse(s).total, s[Parse(s).total..])
            else NextMsg(s[Parse(s).total..])
  {
    hide Parse;
  }

  lemma ShortIsIncomplete(s: seq<byte>)
    requires |s| < 2
    ensures NextMsg(s) == NoMsg(s)
  {
  }
}
