/** The incremental parser of the link: one bounded buffer, changed in place by
    drains, pushes and an idle timeout. */
module Parser {
  import opened Bytes
  import opened Frames
  import opened Scan
  import Crc

  /** The counters of the link, 32 bits wide. */
  datatype Stats = Stats(frames: u32, crcErrors: u32, badLength: u32, resyncs: u32, dropped: u32)

  const NO_STATS := Stats(0, 0, 0, 0, 0)

  /** The counters after an outcome that took `resyncs` resyncs. */
  function Tally(st: Stats, o: Outcome, resyncs: nat): Stats {
    Stats(Wrap32(st.frames + |o.frames|), Wrap32(st.crcErrors + o.crcErrors),
          Wrap32(st.badLength + o.badLength), Wrap32(st.resyncs + resyncs), Wrap32(st.dropped + o.dropped))
  }

  lemma TallyJoin(st: Stats, a: Outcome, m: nat, b: Outcome, n: nat)
    ensures Tally(Tally(st, a, m), b, n) == Tally(st, Join(a, b), m + n)
  {
    hide Wrap32;
    Wrap32Add(st.frames + |a.frames|, |b.frames|);
    Wrap32Add(st.crcErrors + a.crcErrors, b.crcErrors);
    Wrap32Add(st.badLength + a.badLength, b.badLength);
    Wrap32Add(st.resyncs + m, n);
    Wrap32Add(st.dropped + a.dropped, b.dropped);
  }

  /** Each counter counts its own events, modulo 2^32. */
  lemma CountersOf(o: Outcome, resyncs: nat)
    ensures var st := Tally(NO_STATS, o, resyncs);
            && st.frames == |o.frames| % 0x1_0000_0000 && st.crcErrors == o.crcErrors % 0x1_0000_0000
            && st.badLength == o.badLength % 0x1_0000_0000 && st.resyncs == resyncs % 0x1_0000_0000
            && st.dropped == o.dropped % 0x1_0000_0000
  {
  }

  // ---------------------------------------------------------------------------
  // Histories of a parser
  // ---------------------------------------------------------------------------

  datatype Event = Data(bytes: seq<byte>) | Idle

  /** Everything a parser did: what it delivered and lost, and what it holds. */
  datatype Run = Run(out: Outcome, resyncs: nat)

  const START := Run(Nothing([]), 0)

  function After(r: Run, e: Event): Run
    requires |r.out.rest| < FRAME_MAX
  {
    var held := r.out.rest;
    match e
    case Data(bytes) => Run(Join(r.out, ScanAll(held + bytes)), r.resyncs + PushResyncs(held, bytes))
    case Idle => Run(Join(r.out, Flush(held)), r.resyncs + FlushResyncs(held))
  }

  function Replay(history: seq<Event>): (r: Run)
    ensures Settled(r.out.rest) && |r.out.rest| < FRAME_MAX
  {
    if history == [] then START
    else
      var r := Replay(history[..|history| - 1]);
      var e := history[|history| - 1];
      RestIsSettled(if e.Data? then r.out.rest + e.bytes else []);
      FlushEmpties(r.out.rest);
      After(r, e)
  }

  class Parser {
    const buf: array<byte>
    var len: nat
    var stats: Stats
    ghost var history: seq<Event>

    ghost predicate Shape()
      reads this
    {
      buf.Length == FRAME_MAX && len <= FRAME_MAX
    }

    function Held(): seq<byte>
      requires Shape()
      reads this, buf
    {
      buf[..len]
    }

    /** The buffer and the counters are those of the whole history. */
    ghost predicate Valid()
      reads this, buf
    {
      && Shape()
      && Held() == Replay(history).out.rest
      && stats == Tally(NO_STATS, Replay(history).out, Replay(history).resyncs)
    }

    constructor ()
      ensures Valid() && fresh(buf)
      ensures history == [] && Held() == [] && stats == NO_STATS
    {
      buf := new byte[FRAME_MAX];
      len := 0;
      stats := NO_STATS;
      history := [];
    }

    /** Back to the empty state, every counter at zero. */
    method Init()
      requires Shape()
      modifies this, buf
      ensures Valid()
      ensures history == [] && Held() == [] && stats == NO_STATS
    {
      forall i | 0 <= i < FRAME_MAX {
        buf[i] := 0;
      }
      len := 0;
      stats := NO_STATS;
      history := [];
    }

    predicate Pending()
      reads this
    {
      len > 0
    }

    /** Remove the first n bytes. */
    method Discard(n: nat)
      requires Shape()
      modifies this`len, buf
      ensures Shape()
      ensures Held() == if n < old(len) then old(Held())[n..] else []
    {
      if n >= len {
        len := 0;
        return;
      }
      ghost var was := Held();
      forall i | 0 <= i < len - n {
        buf[i] := buf[n + i];
      }
      len := len - n;
      assert Held() == was[n..];
    }

    /** The index of the next SOF after the first byte, or the end. */
    method NextSof() returns (idx: nat)
      requires Shape() && len > 0
      ensures idx == Skipped(Held(), 1) && 1 <= idx <= len
    {
      ghost var s := Held();
      idx := 1;
      while idx < len
        invariant 1 <= idx <= len
        invariant Skipped(s, 1) == Skipped(s, idx)
      {
        if buf[idx] == SOF {
          assert s[idx] == SOF;
          return;
        }
        assert s[idx] != SOF;
        idx := idx + 1;
      }
    }

    /** Discard the first byte and the bytes before the next SOF. */
    method Resynchronise()
      requires Shape() && len > 0
      modifies this`len, this`stats, buf
      ensures Shape()
      ensures var k := Skipped(old(Held()), 1);
              && Held() == old(Held())[k..]
              && stats == old(stats).(resyncs := Wrap32(old(stats.resyncs) + 1),
                                      dropped := Wrap32(old(stats.dropped) + k))
    {
      hide Wrap32, Skipped;
      stats := stats.(resyncs := Wrap32(stats.resyncs + 1));
      var idx := NextSof();
      stats := stats.(dropped := Wrap32(stats.dropped + idx));
      Discard(idx);
    }

    /** Check the bytes at the front: not enough of them, bad, or a frame. */
    method Examine() returns (v: Verdict)
      requires Shape() && len > 0
      ensures v == Judge(Held())
    {
      ghost var s := Held();
      if buf[0] != SOF {
        return NotSof;
      }
      if len < HEADER_LEN {
        return Wait;
      }
      var n: int := buf[OFF_LEN] as int + 0x100 * buf[OFF_LEN + 1] as int;
      assert n == GetU16(s, OFF_LEN);
      if n > MAX_PAYLOAD {
        return BadLength;
      }
      if len < n + OVERHEAD {
        return Wait;
      }
      v := CheckFrame(n);
    }

    /** Check the CRC of a complete candidate of n payload bytes. */
    method CheckFrame(n: nat) returns (v: Verdict)
      requires Shape() && n <= MAX_PAYLOAD && len >= n + OVERHEAD
      requires buf[0] == SOF && n == GetU16(Held(), OFF_LEN)
      ensures v == Judge(Held())
    {
      ghost var s, covered := Held(), buf[OFF_LEN..HEADER_LEN + n];
      assert s[OFF_LEN..HEADER_LEN + n] == covered;
      var crc := Crc.Crc16(buf, OFF_LEN, HEADER_LEN - 1 + n);
      var want := Crc.Value(crc);
      var got := buf[HEADER_LEN + n] as int + 0x100 * buf[HEADER_LEN + n + 1] as int;
      assert got == GetU16(s, HEADER_LEN + n);
      if want != got {
        return BadCrc;
      }
      var id := buf[OFF_CORR_ID] as int + 0x100 * buf[OFF_CORR_ID + 1] as int;
      assert id == GetU16(s, OFF_CORR_ID);
      v := Good(Frame(buf[OFF_OPCODE], id, buf[HEADER_LEN..HEADER_LEN + n]));
      assert buf[HEADER_LEN..HEADER_LEN + n] == s[HEADER_LEN..HEADER_LEN + n];
    }

    /** Act on a verdict other than Wait: take the frame, or count and resync. */
    method Act(v: Verdict) returns (out: seq<Frame>)
      requires Shape() && len > 0 && v == Judge(Held()) && !v.Wait?
      modifies this`len, this`stats, buf
      ensures Shape() && len < old(len)
      ensures Held() == old(Held())[Jump(old(Held()))..]
      ensures var one := Take(old(Held()), Nothing([]));
              out == one.frames && stats == Tally(old(stats), one, Resync(v))
    {
      hide Judge, Take, Tally, Wrap32, Skipped, Resync;
      TallyOne(stats, Held());
      if v.Good? {
        stats := stats.(frames := Wrap32(stats.frames + 1));
        Discard(Size(v.frame));
        return [v.frame];
      }
      if v.BadLength? {
        stats := stats.(badLength := Wrap32(stats.badLength + 1));
      } else if v.BadCrc? {
        stats := stats.(crcErrors := Wrap32(stats.crcErrors + 1));
      }
      Resynchronise();
      out := [];
    }

    /** Take the complete frames out of the buffer. */
    method Drain() returns (out: seq<Frame>)
      requires Shape()
      modifies this`len, this`stats, buf
      ensures Shape()
      ensures Drained(old(Held()), old(stats), out, Held(), stats)
    {
      hide Judge, Drained, Draining, Tally, Take;
      out := [];
      ghost var was := Held();
      ghost var p := Progress(Nothing([]), 0);
      DrainingStarts(was, stats);
      while len > 0
        invariant Shape()
        invariant out == p.out.frames
        invariant Draining(was, old(stats), p, Held(), stats)
        decreases len
      {
        var v := Examine();
        if v.Wait? {
          break;
        }
        ghost var s := Held();
        DrainingSteps(was, old(stats), p, s, stats);
        var taken := Act(v);
        out := out + taken;
        p := Advance(p, Take(s, Nothing([])), Resync(v));
      }
      DrainingEnds(was, old(stats), p, Held(), stats);
    }

    /** Append `take` bytes of a chunk to the buffer, then drain it. */
    method Fill(data: array<byte>, from: nat, take: nat) returns (out: seq<Frame>)
      requires Shape() && data != buf
      requires from + take <= data.Length && len + take <= FRAME_MAX
      modifies this`len, this`stats, buf
      ensures Shape()
      ensures Drained(old(Held()) + data[from..from + take], old(stats), out, Held(), stats)
    {
      forall k | 0 <= k < take {
        buf[len + k] := data[from + k];
      }
      len := len + take;
      assert Held() == old(Held()) + data[from..from + take];
      hide Drained;
      out := Drain();
    }

    /** Give received bytes to the parser. A null pointer changes nothing. */
    method Push(data: array?<byte>, n: nat) returns (out: seq<Frame>)
      requires Valid()
      requires data != null ==> n <= data.Length && data != buf
      modifies this, buf
      ensures Valid()
      ensures data == null ==> out == [] && history == old(history) && Held() == old(Held())
      ensures data != null ==>
                history == old(history) + [Data(data[..n])] && out == ScanAll(old(Held()) + data[..n]).frames
    {
      if data == null {
        return [];
      }
      out := PushBytes(data, n);
    }

    method PushBytes(data: array<byte>, n: nat) returns (out: seq<Frame>)
      requires Valid() && n <= data.Length && data != buf
      modifies this, buf
      ensures Valid()
      ensures history == old(history) + [Data(data[..n])]
      ensures out == ScanAll(old(Held()) + data[..n]).frames
    {
      hide Judge, Pushing, Drained, Replay, Tally, ScanAll, Settled, DrainResyncs;
      out := [];
      ghost var was, bytes := Held(), data[..n];
      ghost var p := Progress(Nothing([]), 0);
      ReplaySettles(history);
      PushingStarts(was, bytes, stats);
      assert bytes[0..] == bytes;
      var i: nat, left: nat := 0, n;
      while left > 0
        invariant Shape() && i + left == n && len < FRAME_MAX
        invariant data[..n] == bytes
        invariant out == p.out.frames
        invariant Pushing(was, bytes, old(stats), p, Held(), bytes[i..], stats)
        invariant history == old(history)
      {
        var space := FRAME_MAX - len;
        if space == 0 {
          assert false;
        }
        var take := if left < space then left else space;
        ghost var held, rest, st := Held(), bytes[i..], stats;
        assert data[i..i + take] == rest[..take] by {
          SliceOfSlice(data[..], 0, n, i, n);
          SliceOfSlice(data[..], i, n, 0, take);
        }
        var taken := Fill(data, i, take);
        PushingSteps(was, bytes, old(stats), p, held, rest, st, take, taken, Held(), stats);
        assert rest[take..] == bytes[i + take..];
        p := Advance(p, ScanAll(held + rest[..take]), DrainResyncs(held + rest[..take]));
        out := out + taken;
        i, left := i + take, left - take;
      }
      PushingEnds(history, was, bytes, old(stats), p, Held(), bytes[i..], stats);
      history := history + [Data(bytes)];
    }

    /** The line is idle: deliver what is complete and discard the rest. */
    method Timeout() returns (out: seq<Frame>)
      requires Valid()
      modifies this, buf
      ensures Valid()
      ensures history == old(history) + [Idle]
      ensures out == Flush(old(Held())).frames && Held() == []
    {
      hide Judge, Flushing, Replay, Tally, Flush, Advance;
      out := [];
      ghost var was := Held();
      ghost var p := Progress(Nothing([]), 0);
      FlushingStarts(was, stats);
      while len > 0
        invariant Shape()
        invariant out == p.out.frames
        invariant Flushing(was, old(stats), p, Held(), stats)
        invariant history == old(history)
        decreases len
      {
        var taken;
        taken, p := FlushOnce(was, old(stats), p);
        out := out + taken;
      }
      FlushingEnds(old(history), was, old(stats), p, stats);
      history := history + [Idle];
    }

    /** One step of the timeout: take what is complete, then discard one candidate. */
    method FlushOnce(ghost was: seq<byte>, ghost before: Stats, ghost p: Progress)
      returns (taken: seq<Frame>, ghost p': Progress)
      requires Shape() && len > 0 && Flushing(was, before, p, Held(), stats)
      modifies this`len, this`stats, buf
      ensures Shape() && len < old(len) && Flushing(was, before, p', Held(), stats)
      ensures p'.out.frames == p.out.frames + taken
    {
      hide Judge, Flushing, Drained, Tally, ScanAll, Flush, Take, Skipped, Wrap32, DrainResyncs;
      ghost var s, st := Held(), stats;
      taken := Drain();
      FlushingDrains(was, before, p, s, st, taken, Held(), stats);
      p' := Advance(p, ScanAll(s), DrainResyncs(s));
      if len > 0 {
        ghost var t := Held();
        FlushingDiscards(was, before, p', t, stats);
        Resynchronise();
        p' := Advance(p', Take(t, Nothing([])), 1);
      }
    }
  }

  // ---------------------------------------------------------------------------
  // The loops of the parser, as invariants over values
  // ---------------------------------------------------------------------------

  /** What a loop has done so far: an outcome, and its resyncs. */
  datatype Progress = Progress(out: Outcome, resyncs: nat)

  function Advance(p: Progress, o: Outcome, resyncs: nat): Progress {
    Progress(Join(p.out, o), p.resyncs + resyncs)
  }

  /** The whole effect of a drain of `was`. */
  ghost predicate Drained(was: seq<byte>, before: Stats, out: seq<Frame>, held: seq<byte>, after: Stats) {
    var o := ScanAll(was);
    out == o.frames && held == o.rest && after == Tally(before, o, DrainResyncs(was))
  }

  ghost predicate Draining(was: seq<byte>, before: Stats, p: Progress, held: seq<byte>, now: Stats) {
    && Join(p.out, ScanAll(held)) == ScanAll(was)
    && p.resyncs + DrainResyncs(held) == DrainResyncs(was)
    && now == Tally(before, p.out, p.resyncs)
  }

  lemma StartsWithNothing(o: Outcome, st: Stats)
    ensures Join(Nothing([]), o) == o && Tally(st, Nothing([]), 0) == st
  {
    assert [] + o.frames == o.frames;
  }

  lemma DrainingStarts(was: seq<byte>, before: Stats)
    ensures Draining(was, before, Progress(Nothing([]), 0), was, before)
  {
    hide ScanAll, Join, Tally, DrainResyncs;
    StartsWithNothing(ScanAll(was), before);
  }

  lemma DrainingSteps(was: seq<byte>, before: Stats, p: Progress, s: seq<byte>, now: Stats)
    requires Draining(was, before, p, s, now) && !Settled(s)
    ensures var one, n := Take(s, Nothing([])), Resync(Judge(s));
            Draining(was, before, Advance(p, one, n), s[Jump(s)..], Tally(now, one, n))
  {
    hide Judge, Take, Tally, ScanAll;
    var one := Take(s, Nothing([]));
    JumpTakes(s);
    TakeOne(p.out, s, ScanAll(s[Jump(s)..]));
    TallyJoin(before, p.out, p.resyncs, one, Resync(Judge(s)));
  }

  lemma DrainingEnds(was: seq<byte>, before: Stats, p: Progress, held: seq<byte>, now: Stats)
    requires Draining(was, before, p, held, now) && Settled(held)
    ensures Drained(was, before, p.out.frames, held, now)
  {
    hide Judge;
    assert ScanAll(held) == Nothing(held);
  }

  ghost predicate Pushing(was: seq<byte>, bytes: seq<byte>, before: Stats, p: Progress,
                          held: seq<byte>, rest: seq<byte>, now: Stats) {
    && Settled(held) && |held| < FRAME_MAX && |was| < FRAME_MAX
    && Join(p.out, ScanAll(held + rest)) == ScanAll(was + bytes)
    && p.resyncs + PushResyncs(held, rest) == PushResyncs(was, bytes)
    && now == Tally(before, p.out, p.resyncs)
  }

  lemma PushingStarts(was: seq<byte>, bytes: seq<byte>, before: Stats)
    requires Settled(was) && |was| < FRAME_MAX
    ensures Pushing(was, bytes, before, Progress(Nothing([]), 0), was, bytes, before)
  {
    hide Settled, ScanAll, Join, Tally, PushResyncs;
    StartsWithNothing(ScanAll(was + bytes), before);
  }

  lemma PushingSteps(was: seq<byte>, bytes: seq<byte>, before: Stats, p: Progress,
                     held: seq<byte>, rest: seq<byte>, now: Stats, take: nat,
                     taken: seq<Frame>, held': seq<byte>, now': Stats)
    requires Pushing(was, bytes, before, p, held, rest, now)
    requires rest != [] && take == if |rest| < FRAME_MAX - |held| then |rest| else FRAME_MAX - |held|
    requires Drained(held + rest[..take], now, taken, held', now')
    ensures var full := held + rest[..take];
            && Pushing(was, bytes, before, Advance(p, ScanAll(full), DrainResyncs(full)), held', rest[take..], now')
            && taken == ScanAll(full).frames && |held'| < FRAME_MAX
  {
    hide Judge, Tally, ScanAll, DrainResyncs, Join;
    var full := held + rest[..take];
    var one := ScanAll(full);
    assert held + rest == full + rest[take..];
    ScanSplits(full, rest[take..]);
    RestIsSettled(full);
    JoinAssociative(p.out, one, ScanAll(one.rest + rest[take..]));
    TallyJoin(before, p.out, p.resyncs, one, DrainResyncs(full));
  }

  lemma PushingEnds(history: seq<Event>, was: seq<byte>, bytes: seq<byte>, before: Stats, p: Progress,
                    held: seq<byte>, rest: seq<byte>, now: Stats)
    requires Pushing(was, bytes, before, p, held, rest, now) && rest == []
    requires was == Replay(history).out.rest
    requires before == Tally(NO_STATS, Replay(history).out, Replay(history).resyncs)
    ensures p.out.frames == ScanAll(was + bytes).frames
    ensures var r := Replay(history + [Data(bytes)]);
            held == r.out.rest && now == Tally(NO_STATS, r.out, r.resyncs)
  {
    hide Judge, Tally, Replay;
    var r := Replay(history);
    assert held + rest == held;
    assert ScanAll(held) == Nothing(held);
    ReplayPush(history, bytes);
    TallyNothing(before, p.out, p.resyncs, held);
    TallyJoin(NO_STATS, r.out, r.resyncs, ScanAll(was + bytes), PushResyncs(was, bytes));
  }

  ghost predicate Flushing(was: seq<byte>, before: Stats, p: Progress, held: seq<byte>, now: Stats) {
    && Join(p.out, Flush(held)) == Flush(was)
    && p.resyncs + FlushResyncs(held) == FlushResyncs(was)
    && now == Tally(before, p.out, p.resyncs)
  }

  lemma FlushingStarts(was: seq<byte>, before: Stats)
    ensures Flushing(was, before, Progress(Nothing([]), 0), was, before)
  {
    hide Flush, Join, Tally, FlushResyncs;
    StartsWithNothing(Flush(was), before);
  }

  lemma FlushingDrains(was: seq<byte>, before: Stats, p: Progress, s: seq<byte>, now: Stats,
                       taken: seq<Frame>, held: seq<byte>, now': Stats)
    requires Flushing(was, before, p, s, now) && Drained(s, now, taken, held, now')
    ensures Flushing(was, before, Advance(p, ScanAll(s), DrainResyncs(s)), held, now')
    ensures taken == ScanAll(s).frames && Settled(held) && |held| <= |s|
  {
    hide Judge, Tally, ScanAll, Flush, DrainResyncs, FlushResyncs, Join;
    FlushFinishesScan(s);
    ResyncsOfFlush(s);
    RestIsSettled(s);
    RestShrinks(s);
    JoinAssociative(p.out, ScanAll(s), Flush(held));
    TallyJoin(before, p.out, p.resyncs, ScanAll(s), DrainResyncs(s));
  }

  lemma FlushingDiscards(was: seq<byte>, before: Stats, p: Progress, s: seq<byte>, now: Stats)
    requires Flushing(was, before, p, s, now) && Settled(s) && s != []
    ensures var k := Skipped(s, 1);
            Flushing(was, before, Advance(p, Take(s, Nothing([])), 1), s[k..],
                     now.(resyncs := Wrap32(now.resyncs + 1), dropped := Wrap32(now.dropped + k)))
    ensures Take(s, Nothing([])).frames == []
  {
    hide Judge, Flush, Take, Tally, Wrap32, Skipped;
    var lost := Take(s, Nothing([]));
    TallyOne(now, s);
    JumpTakes(s);
    TakeOne(p.out, s, Flush(s[Jump(s)..]));
    TallyJoin(before, p.out, p.resyncs, lost, 1);
  }

  lemma FlushingEnds(history: seq<Event>, was: seq<byte>, before: Stats, p: Progress, now: Stats)
    requires Flushing(was, before, p, [], now)
    requires was == Replay(history).out.rest
    requires before == Tally(NO_STATS, Replay(history).out, Replay(history).resyncs)
    ensures p.out.frames == Flush(was).frames
    ensures var r := Replay(history + [Idle]);
            r.out.rest == [] && now == Tally(NO_STATS, r.out, r.resyncs)
  {
    hide Judge, Tally, Replay;
    var r := Replay(history);
    assert Flush([]) == Nothing([]);
    ReplayIdle(history);
    TallyNothing(before, p.out, p.resyncs, []);
    TallyJoin(NO_STATS, r.out, r.resyncs, Flush(was), FlushResyncs(was));
  }

  /** The counters that one verdict changes. */
  lemma TallyOne(st: Stats, s: seq<byte>)
    requires s != []
    ensures var v, k := Judge(s), Jump(s);
            var one := Take(s, Nothing([]));
            && one.frames == (if v.Good? then [v.frame] else [])
            && Tally(st, one, Resync(v))
            == if v.Good? then st.(frames := Wrap32(st.frames + 1))
               else st.(badLength := if v.BadLength? then Wrap32(st.badLength + 1) else st.badLength,
                        crcErrors := if v.BadCrc? then Wrap32(st.crcErrors + 1) else st.crcErrors,
                        resyncs := Wrap32(st.resyncs + 1), dropped := Wrap32(st.dropped + k))
  {
    hide Judge, Jump;
  }

  lemma TallyNothing(st: Stats, o: Outcome, n: nat, rest: seq<byte>)
    ensures Tally(st, Join(o, Nothing(rest)), n) == Tally(st, o, n)
  {
  }

  lemma TakeOne(done: Outcome, s: seq<byte>, o: Outcome)
    requires s != []
    ensures Join(done, Take(s, o)) == Join(Join(done, Take(s, Nothing([]))), o)
  {
    hide Judge;
    if Judge(s).Good? {
      assert [Judge(s).frame] + o.frames == ([Judge(s).frame] + []) + o.frames;
    }
  }

  lemma RestShrinks(s: seq<byte>)
    ensures |ScanAll(s).rest| <= |s|
  {
    hide Judge;
  }

  lemma ReplaySettles(history: seq<Event>)
    ensures Settled(Replay(history).out.rest) && |Replay(history).out.rest| < FRAME_MAX
  {
  }

  lemma ReplayPush(history: seq<Event>, bytes: seq<byte>)
    ensures Replay(history + [Data(bytes)]) == After(Replay(history), Data(bytes))
  {
    assert (history + [Data(bytes)])[..|history|] == history;
  }

  lemma ReplayIdle(history: seq<Event>)
    ensures Replay(history + [Idle]) == After(Replay(history), Idle)
  {
    assert (history + [Idle])[..|history|] == history;
  }
}
