/** The frames of a byte stream, by one recursive scan that drops a bad byte at a
    time. The incremental parser is proved to compute it. */
module Scan {
  import opened Bytes
  import opened Frames

  /** The frames found, the bytes that still wait, and the counts of what was lost. */
  datatype Outcome = Outcome(frames: seq<Frame>, rest: seq<byte>,
                             crcErrors: nat, badLength: nat, dropped: nat)

  function Nothing(s: seq<byte>): Outcome {
    Outcome([], s, 0, 0, 0)
  }

  function Accept(f: Frame, o: Outcome): Outcome {
    o.(frames := [f] + o.frames)
  }

  /** Count `n` bytes lost to the verdict `v`, ahead of the outcome `o`. */
  function Lose(v: Verdict, n: nat, o: Outcome): Outcome {
    o.(crcErrors := o.crcErrors + if v.BadCrc? then 1 else 0,
       badLength := o.badLength + if v.BadLength? then 1 else 0,
       dropped := o.dropped + n)
  }

  /** First `a`, then `b` on what `a` left. */
  function Join(a: Outcome, b: Outcome): Outcome {
    Outcome(a.frames + b.frames, b.rest,
            a.crcErrors + b.crcErrors, a.badLength + b.badLength, a.dropped + b.dropped)
  }

  lemma JoinAssociative(a: Outcome, b: Outcome, c: Outcome)
    ensures Join(Join(a, b), c) == Join(a, Join(b, c))
  {
  }

  /** The bytes that a verdict takes from the front. */
  function Step(s: seq<byte>): (n: nat)
    requires s != []
    ensures 0 < n <= |s|
  {
    if Judge(s).Good? then Size(Judge(s).frame) else 1
  }

  /** The outcome of that one verdict, ahead of the outcome `o`. */
  function Count(v: Verdict, o: Outcome): Outcome {
    if v.Good? then Accept(v.frame, o) else Lose(v, 1, o)
  }

  /** The whole-stream scan: an unfinished candidate waits. */
  function ScanAll(s: seq<byte>): Outcome
    decreases |s|
  {
    if Settled(s) then Nothing(s) else Count(Judge(s), ScanAll(s[Step(s)..]))
  }

  /** The scan of a line that went idle: an unfinished candidate is one bad byte. */
  function Flush(s: seq<byte>): Outcome
    decreases |s|
  {
    if s == [] then Nothing([]) else Count(Judge(s), Flush(s[Step(s)..]))
  }

  /** A buffer from which a drain takes nothing. */
  predicate Settled(s: seq<byte>) {
    s == [] || Judge(s).Wait?
  }

  lemma {:induction false} RestIsSettled(s: seq<byte>)
    ensures Settled(ScanAll(s).rest) && |ScanAll(s).rest| < FRAME_MAX
    decreases |s|
  {
    hide Judge;
    if !Settled(s) {
      RestIsSettled(s[Step(s)..]);
    }
  }

  lemma {:induction false} ScanSplits(a: seq<byte>, b: seq<byte>)
    ensures ScanAll(a + b) == Join(ScanAll(a), ScanAll(ScanAll(a).rest + b))
    decreases |a|
  {
    hide Judge;
    if a != [] && !Judge(a).Wait? {
      JudgeIsStable(a, b);
      var n := Step(a);
      assert (a + b)[n..] == a[n..] + b;
      ScanSplits(a[n..], b);
    }
  }

  /** An idle line finishes what the scan left waiting. */
  lemma {:induction false} FlushFinishesScan(s: seq<byte>)
    ensures Flush(s) == Join(ScanAll(s), Flush(ScanAll(s).rest))
    decreases |s|
  {
    hide Judge;
    if !Settled(s) {
      FlushFinishesScan(s[Step(s)..]);
    }
  }

  lemma {:induction false} FlushEmpties(s: seq<byte>)
    ensures Flush(s).rest == []
    decreases |s|
  {
    hide Judge;
    if s != [] {
      FlushEmpties(s[Step(s)..]);
    }
  }

  // ---------------------------------------------------------------------------
  // Resynchronisation: a jump to the next SOF
  // ---------------------------------------------------------------------------

  /** How many bytes a resync discards: up to the next SOF after the first byte. */
  function Skipped(s: seq<byte>, from: nat): (n: nat)
    requires from <= |s|
    ensures from <= n <= |s|
    ensures forall i :: from <= i < n ==> s[i] != SOF
    ensures n < |s| ==> s[n] == SOF
    decreases |s| - from
  {
    if from == |s| || s[from] == SOF then from else Skipped(s, from + 1)
  }

  /** The jump loses what the scan loses byte by byte. */
  lemma {:induction false} JumpLikeScan(s: seq<byte>, k: nat)
    requires k <= |s|
    requires forall i :: 0 <= i < k ==> s[i] != SOF
    ensures ScanAll(s) == Lose(NotSof, k, ScanAll(s[k..]))
    ensures Flush(s) == Lose(NotSof, k, Flush(s[k..]))
    decreases k
  {
    if k == 0 {
      assert s[0..] == s;
    } else {
      assert s[1..][k - 1..] == s[k..];
      JumpLikeScan(s[1..], k - 1);
    }
  }

  /** The bytes that the parser takes for one verdict: a frame, or a resync. */
  function Jump(s: seq<byte>): (n: nat)
    requires s != []
    ensures 0 < n <= |s|
  {
    if Judge(s).Good? then Size(Judge(s).frame) else Skipped(s, 1)
  }

  function Resync(v: Verdict): nat {
    if v.Good? then 0 else 1
  }

  /** The outcome of one jump, ahead of the outcome `o`. */
  function Take(s: seq<byte>, o: Outcome): Outcome
    requires s != []
  {
    if Judge(s).Good? then Accept(Judge(s).frame, o) else Lose(Judge(s), Jump(s), o)
  }

  lemma SkipIsJump(s: seq<byte>)
    requires s != [] && !Judge(s).Good?
    ensures ScanAll(s[1..]) == Lose(NotSof, Jump(s) - 1, ScanAll(s[Jump(s)..]))
    ensures Flush(s[1..]) == Lose(NotSof, Jump(s) - 1, Flush(s[Jump(s)..]))
  {
    hide Judge, ScanAll, Flush;
    var k := Skipped(s, 1);
    assert s[1..][k - 1..] == s[k..];
    JumpLikeScan(s[1..], k - 1);
  }

  lemma OneVerdict(s: seq<byte>)
    requires s != []
    ensures !Settled(s) ==> ScanAll(s) == Count(Judge(s), ScanAll(s[Step(s)..]))
    ensures Flush(s) == Count(Judge(s), Flush(s[Step(s)..]))
  {
  }

  /** One verdict of the parser, taken by the jump, is what the scan takes. */
  lemma JumpTakes(s: seq<byte>)
    requires s != []
    ensures !Settled(s) ==> ScanAll(s) == Take(s, ScanAll(s[Jump(s)..]))
    ensures Flush(s) == Take(s, Flush(s[Jump(s)..]))
  {
    hide Judge, ScanAll, Flush;
    OneVerdict(s);
    if !Judge(s).Good? {
      SkipIsJump(s);
    }
  }

  /** The resyncs of a drain of `s`. */
  function DrainResyncs(s: seq<byte>): nat
    decreases |s|
  {
    if Settled(s) then 0 else Resync(Judge(s)) + DrainResyncs(s[Jump(s)..])
  }

  /** The resyncs of a push of `data` onto the settled buffer `held`. */
  function PushResyncs(held: seq<byte>, data: seq<byte>): nat
    requires |held| < FRAME_MAX
    decreases |data|
  {
    if data == [] then 0
    else
      var take := if |data| < FRAME_MAX - |held| then |data| else FRAME_MAX - |held|;
      RestIsSettled(held + data[..take]);
      DrainResyncs(held + data[..take]) + PushResyncs(ScanAll(held + data[..take]).rest, data[take..])
  }

  /** The resyncs of an idle line. */
  function FlushResyncs(s: seq<byte>): nat
    decreases |s|
  {
    if s == [] then 0 else Resync(Judge(s)) + FlushResyncs(s[Jump(s)..])
  }

  lemma {:induction false} ResyncsOfFlush(s: seq<byte>)
    ensures FlushResyncs(s) == DrainResyncs(s) + FlushResyncs(ScanAll(s).rest)
    decreases |s|
  {
    hide Judge;
    if !Settled(s) {
      JumpTakes(s);
      ResyncsOfFlush(s[Jump(s)..]);
    }
  }

  // ---------------------------------------------------------------------------
  // What a cut costs
  // ---------------------------------------------------------------------------

  /** The drain of `s` ends with a resync that finds no SOF: nothing is left. */
  predicate LostAll(s: seq<byte>)
    decreases |s|
  {
    !Settled(s) && if Jump(s) == |s| then !Judge(s).Good? else LostAll(s[Jump(s)..])
  }

  /** A cut between two pieces costs one resync more exactly when the first piece ends in
      one and the second does not start with a SOF: one resync would have skipped both. */
  function CutCost(a: seq<byte>, b: seq<byte>): nat {
    if LostAll(a) && b != [] && b[0] != SOF then 1 else 0
  }

  lemma {:induction false} SkippedOn(a: seq<byte>, b: seq<byte>, from: nat)
    requires from <= |a|
    ensures Skipped(a + b, from)
         == if Skipped(a, from) < |a| then Skipped(a, from) else |a| + Skipped(b, 0)
    decreases |a| - from
  {
    if from == |a| {
      SkippedBehind(a, b, 0);
    } else if a[from] != SOF {
      assert (a + b)[from] == a[from];
      SkippedOn(a, b, from + 1);
    }
  }

  lemma {:induction false} SkippedBehind(a: seq<byte>, b: seq<byte>, from: nat)
    requires from <= |b|
    ensures Skipped(a + b, |a| + from) == |a| + Skipped(b, from)
    decreases |b| - from
  {
    if from < |b| && b[from] != SOF {
      SkippedBehind(a, b, from + 1);
    }
  }

  /** A jump that ends inside the first piece, or behind a frame. */
  lemma JumpStays(a: seq<byte>, b: seq<byte>)
    requires !Settled(a) && (Jump(a) < |a| || Judge(a).Good?)
    ensures a + b != [] && Judge(a + b) == Judge(a) && Jump(a + b) == Jump(a)
    ensures (a + b)[Jump(a)..] == a[Jump(a)..] + b
  {
    hide Judge;
    JudgeIsStable(a, b);
    if !Judge(a).Good? {
      SkippedOn(a, b, 1);
    }
  }

  lemma OneJump(s: seq<byte>)
    requires !Settled(s)
    ensures DrainResyncs(s) == Resync(Judge(s)) + DrainResyncs(s[Jump(s)..])
    ensures LostAll(s) == if Jump(s) == |s| then !Judge(s).Good? else LostAll(s[Jump(s)..])
    ensures ScanAll(s).rest == ScanAll(s[Jump(s)..]).rest
  {
    hide Judge, ScanAll;
    JumpTakes(s);
  }

  lemma {:induction false} ResyncsOfACut(a: seq<byte>, b: seq<byte>)
    ensures DrainResyncs(a) + DrainResyncs(ScanAll(a).rest + b) == DrainResyncs(a + b) + CutCost(a, b)
    decreases |a|
  {
    hide Judge, Jump, DrainResyncs, ScanAll, LostAll;
    if Settled(a) {
      SettledCut(a);
    } else if Jump(a) < |a| || Judge(a).Good? {
      JumpStays(a, b);
      OneJump(a);
      OneJump(a + b);
      ResyncsOfACut(a[Jump(a)..], b);
      assert Jump(a) == |a| ==> a[Jump(a)..] == [];
      SettledCut([]);
    } else {
      JumpOverTheCut(a, b);
    }
  }

  lemma SettledCut(a: seq<byte>)
    requires Settled(a)
    ensures DrainResyncs(a) == 0 && ScanAll(a).rest == a && !LostAll(a)
  {
    hide Judge;
  }

  /** A jump that takes the first piece whole goes on into the second. */
  lemma JumpGoesOn(a: seq<byte>, b: seq<byte>)
    requires !Settled(a) && !Judge(a).Good? && Jump(a) == |a|
    ensures a + b != [] && Judge(a + b) == Judge(a) && Jump(a + b) == |a| + Skipped(b, 0)
    ensures (a + b)[Jump(a + b)..] == b[Skipped(b, 0)..]
  {
    hide Judge;
    JudgeIsStable(a, b);
    SkippedOn(a, b, 1);
  }

  /** The first piece is lost whole. */
  lemma JumpOverTheCut(a: seq<byte>, b: seq<byte>)
    requires !Settled(a) && !Judge(a).Good? && Jump(a) == |a|
    ensures DrainResyncs(a) == 1 && ScanAll(a).rest == []
    ensures DrainResyncs(a + b) + CutCost(a, b) == 1 + DrainResyncs([] + b)
  {
    hide Judge, Jump, DrainResyncs, ScanAll, LostAll, Skipped;
    OneJump(a);
    assert a[|a|..] == [] && [] + b == b;
    SettledCut([]);
    JumpGoesOn(a, b);
    OneJump(a + b);
    SkipFromFirst(b);
    if b != [] && b[0] != SOF {
      BadFirst(b);
      OneJump(b);
    }
  }

  lemma SkipFromFirst(b: seq<byte>)
    ensures b == [] || b[0] == SOF ==> Skipped(b, 0) == 0 && b[Skipped(b, 0)..] == b
    ensures b != [] && b[0] != SOF ==> Jump(b) == Skipped(b, 0)
  {
  }

  lemma BadFirst(b: seq<byte>)
    requires b != [] && b[0] != SOF
    ensures Judge(b) == NotSof
  {
  }

  /** What the cuts of one push at the end of the buffer cost. */
  function PushCuts(held: seq<byte>, data: seq<byte>): nat
    requires |held| < FRAME_MAX
    decreases |data|
  {
    if |held| + |data| <= FRAME_MAX then 0
    else
      var take := FRAME_MAX - |held|;
      var full := held + data[..take];
      RestIsSettled(full);
      CutCost(full, data[take..]) + PushCuts(ScanAll(full).rest, data[take..])
  }

  lemma {:induction false} ResyncsOfAPush(held: seq<byte>, data: seq<byte>)
    requires |held| < FRAME_MAX && Settled(held)
    ensures PushResyncs(held, data) == DrainResyncs(held + data) + PushCuts(held, data)
    decreases |data|
  {
    hide Judge, ScanAll, DrainResyncs, CutCost;
    if data == [] {
      assert held + data == held;
      SettledDrains(held);
    } else {
      var take := if |data| < FRAME_MAX - |held| then |data| else FRAME_MAX - |held|;
      var full, rest := held + data[..take], data[take..];
      RestIsSettled(full);
      ResyncsOfAPush(ScanAll(full).rest, rest);
      if rest == [] {
        assert full == held + data;
        assert ScanAll(full).rest + rest == ScanAll(full).rest;
        SettledDrains(ScanAll(full).rest);
      } else {
        ResyncsOfACut(full, rest);
        assert full + rest == held + data;
      }
    }
  }

  lemma SettledDrains(s: seq<byte>)
    requires Settled(s)
    ensures DrainResyncs(s) == 0
  {
  }
}
