/** The ring between the reader of a channel and the server: one producer and one
    consumer, no lock, every load and store of the shared words a step of its own. */
module Ring {
  import opened Bytes

  const SIZE := 2048

  function Next(at: nat): nat {
    (at + 1) % SIZE
  }

  /** Where the producer stands inside a put. */
  datatype Producer = Outside | Top | Loaded(next: nat) | Room(next: nat) | Stored(next: nat)

  /** Where the consumer stands inside a take. */
  datatype Consumer = Away | Start | Tail(at: nat) | Ready | Copied

  /** One call of put: its bytes, and how many of them it stored. */
  datatype Put = Put(data: seq<byte>, kept: nat)

  /** The shared words, the local variables, and the log of the puts and of the bytes
      that the consumer copied out. `released` counts the slots given back. */
  datatype State = State(
    ring: seq<byte>, head: nat, tail: nat, over: u32,
    p: Producer, data: seq<byte>, i: nat,
    c: Consumer, left: nat,
    puts: seq<Put>, taken: seq<byte>, released: nat)

  datatype Event = PutCall(data: seq<byte>) | ProducerStep | TakeCall(max: nat) | ConsumerStep

  function Initial(): State {
    State(seq(SIZE, _ => 0), 0, 0, 0, Outside, [], 0, Away, 0, [], [], 0)
  }

  /** Count one more stored byte of the put that runs. */
  function KeepOne(puts: seq<Put>): seq<Put>
    requires puts != []
  {
    var last := puts[|puts| - 1];
    puts[..|puts| - 1] + [last.(kept := last.kept + 1)]
  }

  function Produce(s: State): State {
    match s.p
    case Outside => s
    case Top => if s.i >= |s.data| then s.(p := Outside) else s.(p := Loaded(Next(s.head)))
    case Loaded(next) =>
      if next == s.tail then s.(over := Wrap32(s.over + 1), p := Outside) else s.(p := Room(next))
    case Room(next) =>
      if s.head < |s.ring| && s.i < |s.data| then s.(ring := s.ring[s.head := s.data[s.i]], p := Stored(next)) else s
    case Stored(next) =>
      if s.puts == [] then s
      else s.(head := next, i := s.i + 1, p := Top, puts := KeepOne(s.puts))
  }

  function Consume(s: State): State {
    match s.c
    case Away => s
    case Start => if s.left == 0 then s.(c := Away) else s.(c := Tail(s.tail))
    case Tail(at) => if at == s.head then s.(c := Away) else s.(c := Ready)
    case Ready =>
      if s.tail < |s.ring| && s.left > 0 then
        s.(taken := s.taken + [s.ring[s.tail]], left := s.left - 1, c := Copied)
      else s
    case Copied => s.(tail := Next(s.tail), released := s.released + 1, c := Start)
  }

  function Step(s: State, ev: Event): State {
    match ev
    case PutCall(data) =>
      if s.p.Outside? then s.(p := Top, data := data, i := 0, puts := s.puts + [Put(data, 0)]) else s
    case ProducerStep => Produce(s)
    case TakeCall(max) => if s.c.Away? then s.(c := Start, left := max) else s
    case ConsumerStep => Consume(s)
  }

  function Run(events: seq<Event>): State {
    if events == [] then Initial() else Step(Run(events[..|events| - 1]), events[|events| - 1])
  }

  // ---------------------------------------------------------------------------
  // The log
  // ---------------------------------------------------------------------------

  /** The bytes that the puts stored, in order. */
  function KeptBytes(puts: seq<Put>): seq<byte> {
    if puts == [] then [] else KeptBytes(puts[..|puts| - 1]) + Kept(puts[|puts| - 1])
  }

  function Kept(put: Put): seq<byte> {
    if put.kept <= |put.data| then put.data[..put.kept] else put.data
  }

  function OfferedBytes(puts: seq<Put>): seq<byte> {
    if puts == [] then [] else OfferedBytes(puts[..|puts| - 1]) + puts[|puts| - 1].data
  }

  /** The puts that returned early. */
  function Cut(puts: seq<Put>): nat {
    if puts == [] then 0
    else Cut(puts[..|puts| - 1]) + if puts[|puts| - 1].kept < |puts[|puts| - 1].data| then 1 else 0
  }

  /** The puts that are over: all but the one that runs. */
  function Finished(s: State): seq<Put> {
    if s.p.Outside? || s.puts == [] then s.puts else s.puts[..|s.puts| - 1]
  }

  // ---------------------------------------------------------------------------
  // The invariant
  // ---------------------------------------------------------------------------

  function Slot(tail: nat, k: nat): nat {
    if tail + k < SIZE then tail + k else tail + k - SIZE
  }

  ghost predicate LogInv(s: State) {
    && (forall k :: 0 <= k < |s.puts| ==> s.puts[k].kept <= |s.puts[k].data|)
    && (!s.p.Outside? ==> s.puts != [] && s.puts[|s.puts| - 1] == Put(s.data, s.i))
    && s.over == Wrap32(Cut(Finished(s)))
  }

  /** The slots from tail to head hold the stored bytes that were not given back. */
  ghost predicate RingInv(ring: seq<byte>, head: nat, tail: nat, stored: seq<byte>, released: nat) {
    && |ring| == SIZE && head < SIZE && tail < SIZE && released <= |stored|
    && |stored| - released < SIZE
    && head == Slot(tail, |stored| - released)
    && (forall n :: released <= n < |stored| ==> ring[Slot(tail, n - released)] == stored[n])
  }

  /** Room that the producer saw stays until it stores. */
  ghost predicate ProducerInv(p: Producer, data: seq<byte>, i: nat, ring: seq<byte>, head: nat, used: nat) {
    match p
    case Outside => true
    case Top => true
    case Loaded(next) => i < |data| && next == Next(head)
    case Room(next) => i < |data| && next == Next(head) && used < SIZE - 1
    case Stored(next) =>
      i < |data| && next == Next(head) && used < SIZE - 1 && head < |ring| && ring[head] == data[i]
  }

  ghost predicate ConsumerInv(s: State, stored: seq<byte>) {
    && s.released <= |s.taken| <= |stored|
    && s.taken == stored[..|s.taken|]
    && match s.c
       case Away => |s.taken| == s.released
       case Start => |s.taken| == s.released
       case Tail(at) => |s.taken| == s.released && at == s.tail && s.left > 0
       case Ready => |s.taken| == s.released < |stored| && s.left > 0
       case Copied => |s.taken| == s.released + 1
  }

  ghost predicate Inv(s: State) {
    && LogInv(s)
    && var stored := KeptBytes(s.puts);
    && RingInv(s.ring, s.head, s.tail, stored, s.released)
    && ProducerInv(s.p, s.data, s.i, s.ring, s.head, |stored| - s.released)
    && ConsumerInv(s, stored)
  }

  lemma KeepOneKeeps(puts: seq<Put>)
    requires puts != [] && forall k :: 0 <= k < |puts| ==> puts[k].kept <= |puts[k].data|
    requires puts[|puts| - 1].kept < |puts[|puts| - 1].data|
    ensures var last := puts[|puts| - 1];
            KeptBytes(KeepOne(puts)) == KeptBytes(puts) + [last.data[last.kept]]
  {
    var last, more := puts[|puts| - 1], KeepOne(puts);
    assert more[..|more| - 1] == puts[..|puts| - 1];
    assert last.data[..last.kept + 1] == last.data[..last.kept] + [last.data[last.kept]];
  }

  lemma StoreMissesUnread(ring: seq<byte>, head: nat, tail: nat, stored: seq<byte>, released: nat, b: byte)
    requires RingInv(ring, head, tail, stored, released)
    ensures RingInv(ring[head := b], head, tail, stored, released)
  {
  }

  lemma HeadMoves(ring: seq<byte>, head: nat, tail: nat, stored: seq<byte>, released: nat, b: byte)
    requires RingInv(ring, head, tail, stored, released)
    requires |stored| - released < SIZE - 1 && ring[head] == b
    ensures RingInv(ring, Next(head), tail, stored + [b], released)
  {
  }

  lemma TailMoves(ring: seq<byte>, head: nat, tail: nat, stored: seq<byte>, released: nat)
    requires RingInv(ring, head, tail, stored, released) && released < |stored|
    ensures RingInv(ring, head, Next(tail), stored, released + 1)
  {
  }

  lemma PutTestsRoom(s: State, next: nat)
    requires Inv(s) && s.p == Loaded(next)
    ensures Inv(Produce(s))
  {
    hide RingInv, KeptBytes;
    Wrap32Add(Cut(Finished(s)), 1);
    FinishedCut(s);
    assert Next(s.head) == s.tail ||
           |KeptBytes(s.puts)| - s.released < SIZE - 1 by {
      FullIsNext(s.ring, s.head, s.tail, KeptBytes(s.puts), s.released);
    }
  }

  /** A put that ends counts as cut when bytes of it are left. */
  lemma FinishedCut(s: State)
    requires s.puts != [] && s.puts[|s.puts| - 1] == Put(s.data, s.i) && s.i <= |s.data|
    ensures Cut(s.puts) == Cut(s.puts[..|s.puts| - 1]) + if s.i < |s.data| then 1 else 0
  {
  }

  lemma FullIsNext(ring: seq<byte>, head: nat, tail: nat, stored: seq<byte>, released: nat)
    requires RingInv(ring, head, tail, stored, released)
    ensures 0 <= |stored| - released < SIZE
    ensures Next(head) == tail <==> |stored| - released == SIZE - 1
  {
  }

  lemma PutAdvances(s: State, next: nat)
    requires Inv(s) && s.p == Stored(next)
    ensures Inv(Produce(s))
  {
    hide RingInv, KeptBytes, Cut, Wrap32, Next;
    KeepOneKeeps(s.puts);
    HeadMoves(s.ring, s.head, s.tail, KeptBytes(s.puts), s.released, s.data[s.i]);
    var s' := Produce(s);
    assert Finished(s') == Finished(s);
    assert LogInv(s');
    assert KeptBytes(s'.puts) == KeptBytes(s.puts) + [s.data[s.i]];
  }

  lemma ProduceKeepsInv(s: State)
    requires Inv(s)
    ensures Inv(Produce(s))
  {
    if s.p.Top? {
      hide RingInv, KeptBytes;
      FinishedCut(s);
    } else if s.p.Loaded? {
      PutTestsRoom(s, s.p.next);
    } else if s.p.Room? {
      hide KeptBytes, Cut;
      StoreMissesUnread(s.ring, s.head, s.tail, KeptBytes(s.puts), s.released, s.data[s.i]);
    } else if s.p.Stored? {
      PutAdvances(s, s.p.next);
    }
  }

  lemma ConsumeKeepsInv(s: State)
    requires Inv(s)
    ensures Inv(Consume(s))
  {
    hide KeptBytes, Cut, ProducerInv;
    var stored := KeptBytes(s.puts);
    if s.c.Ready? {
      assert s.ring[Slot(s.tail, 0)] == stored[s.released];
    } else if s.c.Copied? {
      TailMoves(s.ring, s.head, s.tail, stored, s.released);
      RoomStays(s.p, s.data, s.i, s.ring, s.head, |stored| - s.released);
    }
  }

  lemma CallsKeepInv(s: State, ev: Event)
    requires Inv(s) && (ev.PutCall? || ev.TakeCall?)
    ensures Inv(Step(s, ev))
  {
    hide RingInv, KeptBytes;
    if ev.PutCall? && s.p.Outside? {
      PutBegins(s, ev.data);
      var s' := Step(s, ev);
      assert s'.puts[..|s.puts|] == s.puts;
    }
  }

  lemma PutBegins(s: State, data: seq<byte>)
    requires LogInv(s)
    ensures KeptBytes(s.puts + [Put(data, 0)]) == KeptBytes(s.puts)
  {
    assert (s.puts + [Put(data, 0)])[..|s.puts|] == s.puts;
  }

  /** A slot given back leaves the producer where it stands. */
  lemma RoomStays(p: Producer, data: seq<byte>, i: nat, ring: seq<byte>, head: nat, used: nat)
    requires ProducerInv(p, data, i, ring, head, used) && used > 0
    ensures ProducerInv(p, data, i, ring, head, used - 1)
  {
  }

  lemma {:induction false} Reachable(events: seq<Event>)
    ensures Inv(Run(events))
    decreases events
  {
    hide Inv, Produce, Consume;
    if events == [] {
      InitialInv();
    } else {
      var s, ev := Run(events[..|events| - 1]), events[|events| - 1];
      Reachable(events[..|events| - 1]);
      match ev
      case PutCall(data) => CallsKeepInv(s, ev);
      case TakeCall(max) => CallsKeepInv(s, ev);
      case ProducerStep => ProduceKeepsInv(s);
      case ConsumerStep => ConsumeKeepsInv(s);
    }
  }

  lemma InitialInv()
    ensures Inv(Initial())
  {
  }

  // ---------------------------------------------------------------------------
  // Results over every interleaving
  // ---------------------------------------------------------------------------

  /** What the consumer took is a prefix of what the puts stored, in order. */
  lemma TakenIsAPrefix(events: seq<Event>)
    ensures var s := Run(events);
            && (forall k :: 0 <= k < |s.puts| ==> s.puts[k].kept <= |s.puts[k].data|)
            && s.taken <= KeptBytes(s.puts)
  {
    hide Run;
    Reachable(events);
  }

  /** At most 2047 slots are in use. */
  lemma OccupancyIsBounded(events: seq<Event>)
    ensures var s := Run(events);
            s.released <= |s.taken| <= |KeptBytes(s.puts)| <= s.released + SIZE - 1
  {
    hide Run;
    Reachable(events);
  }

  /** No store of the producer lands on a slot that still waits to be read. */
  lemma NoUnreadSlotIsOverwritten(events: seq<Event>, k: nat)
    requires var s := Run(events);
             s.p.Room? && k < |KeptBytes(s.puts)| - |s.taken|
    ensures var s := Run(events);
            && s.released <= |s.taken| && s.head < |s.ring| && |Produce(s).ring| == |s.ring|
            && Slot(s.tail, |s.taken| - s.released + k) < |s.ring|
    ensures var s := Run(events);
            var at := Slot(s.tail, |s.taken| - s.released + k);
            && Produce(s).ring[at] == s.ring[at] == KeptBytes(s.puts)[|s.taken| + k]
            && at != s.head
  {
    hide Run, Cut, KeptBytes, Wrap32;
    Reachable(events);
    var s := Run(events);
    var stored, j := KeptBytes(s.puts), |s.taken| - s.released + k;
    assert stored[|s.taken| + k] == s.ring[Slot(s.tail, j)];
  }

  lemma {:induction false} NothingCut(puts: seq<Put>)
    requires forall k :: 0 <= k < |puts| ==> puts[k].kept <= |puts[k].data|
    ensures Cut(puts) == 0 ==> KeptBytes(puts) == OfferedBytes(puts)
    ensures Cut(puts) > 0 ==> |KeptBytes(puts)| < |OfferedBytes(puts)|
    ensures |KeptBytes(puts)| <= |OfferedBytes(puts)|
    decreases puts
  {
    if puts != [] {
      var last := puts[|puts| - 1];
      NothingCut(puts[..|puts| - 1]);
      if last.kept == |last.data| {
        assert last.data[..last.kept] == last.data;
      }
    }
  }

  /** The finished puts lost no byte exactly when none of them was cut, and the overflow
      counter is the number of those, modulo its 32 bits. */
  lemma NothingLostExactlyWhen(events: seq<Event>)
    ensures var s := Run(events);
            && (KeptBytes(Finished(s)) == OfferedBytes(Finished(s)) <==> Cut(Finished(s)) == 0)
            && s.over == Wrap32(Cut(Finished(s)))
  {
    hide Run;
    Reachable(events);
    NothingCut(Finished(Run(events)));
  }

  lemma {:induction false} NoneCut(puts: seq<Put>)
    requires forall k :: 0 <= k < |puts| ==> puts[k].kept <= |puts[k].data|
    ensures Cut(puts) == 0 <==> forall k :: 0 <= k < |puts| ==> puts[k].kept == |puts[k].data|
    decreases puts
  {
    if puts != [] {
      var init, last := puts[..|puts| - 1], puts[|puts| - 1];
      NoneCut(init);
      assert Cut(puts) == 0 <==> Cut(init) == 0 && last.kept == |last.data|;
      if Cut(init) > 0 {
        var k :| 0 <= k < |init| && init[k].kept != |init[k].data|;
        assert puts[k] == init[k];
      }
    }
  }

  /** While fewer than 2^32 puts were cut, the overflow counter is 0 exactly when every
      finished put kept all its bytes. */
  lemma CounterTellsTheLoss(events: seq<Event>)
    requires Cut(Finished(Run(events))) < U32_SPAN
    ensures var s := Run(events);
            && (s.over == 0 <==> KeptBytes(Finished(s)) == OfferedBytes(Finished(s)))
            && (s.over == 0 <==>
                forall k :: 0 <= k < |Finished(s)| ==> Finished(s)[k].kept == |Finished(s)[k].data|)
  {
    hide Run;
    Reachable(events);
    NothingCut(Finished(Run(events)));
    NoneCut(Finished(Run(events)));
  }

  // ---------------------------------------------------------------------------
  // What a call does before it ends
  // ---------------------------------------------------------------------------

  /** A take gives up at its load of the head exactly when it took all that the puts stored, and
      a put gives up at its load of the tail exactly when 2047 slots are in use. */
  lemma GivesUpExactlyWhen(events: seq<Event>)
    ensures var s := Run(events);
            && (s.c.Tail? ==> (Consume(s).c.Away? <==> |s.taken| == |KeptBytes(s.puts)|))
            && (s.p.Loaded? ==> (Produce(s).p.Outside? <==> |KeptBytes(s.puts)| == s.released + 2047))
  {
    hide Run, KeptBytes, Cut;
    Reachable(events);
    var s := Run(events);
    FullIsNext(s.ring, s.head, s.tail, KeptBytes(s.puts), s.released);
  }

  function Count(events: seq<Event>, ev: Event): nat {
    if events == [] then 0
    else Count(events[..|events| - 1], ev) + if events[|events| - 1] == ev then 1 else 0
  }

  /** A take of `max` bytes runs since `base` bytes were taken and `total` were stored. */
  ghost predicate Taking(s: State, base: nat, total: nat, max: nat) {
    && base <= |s.taken| <= base + max && total <= |KeptBytes(s.puts)|
    && (!s.c.Away? ==> |s.taken| + s.left == base + max)
    && (s.c.Away? ==> |s.taken| == base + max || |s.taken| >= total)
  }

  /** The most steps of the consumer until its take ends. */
  function StepsLeft(c: Consumer, left: nat): nat {
    match c
    case Away => 0
    case Start => 4 * left + 1
    case Tail(_) => 4 * left
    case Ready => if left > 0 then 4 * left - 1 else 0
    case Copied => 4 * left + 2
  }

  lemma ConsumeKeepsTaking(s: State, base: nat, total: nat, max: nat)
    requires Inv(s) && Taking(s, base, total, max)
    ensures Taking(Consume(s), base, total, max)
    ensures StepsLeft(Consume(s).c, Consume(s).left) <= if s.c.Away? then 0 else StepsLeft(s.c, s.left) - 1
    ensures !s.c.Away? ==> StepsLeft(s.c, s.left) > 0
  {
    hide KeptBytes, Cut, ProducerInv, LogInv;
    FullIsNext(s.ring, s.head, s.tail, KeptBytes(s.puts), s.released);
  }

  /** A step other than one of the consumer leaves it, and what was stored stays. */
  lemma OthersKeepTaking(s: State, ev: Event)
    requires Inv(s) && (ev.PutCall? || ev.ProducerStep?)
    ensures var t := Step(s, ev);
            && t.c == s.c && t.left == s.left && t.taken == s.taken
            && KeptBytes(s.puts) <= KeptBytes(t.puts)
  {
    hide RingInv, ConsumerInv, Cut;
    if ev.PutCall? && s.p.Outside? {
      PutBegins(s, ev.data);
    } else if ev.ProducerStep? && s.p.Stored? {
      KeepOneKeeps(s.puts);
    }
    hide KeptBytes;
  }

  lemma {:induction false} TakeGoesOn(events: seq<Event>, max: nat, more: seq<Event>)
    requires Run(events).c.Away? && forall ev :: ev in more ==> !ev.TakeCall?
    ensures var s, t := Run(events), Run(events + [TakeCall(max)] + more);
            && Taking(t, |s.taken|, |KeptBytes(s.puts)|, max)
            && KeptBytes(s.puts) <= KeptBytes(t.puts)
            && StepsLeft(t.c, t.left) <= if Count(more, ConsumerStep) > 4 * max then 0
                                         else 4 * max + 1 - Count(more, ConsumerStep)
    decreases more
  {
    hide Inv, Taking, KeptBytes, Produce, Consume, StepsLeft;
    var s, all := Run(events), events + [TakeCall(max)] + more;
    if more == [] {
      assert all[..|all| - 1] == events;
      TakeBegins(s, max);
      Reachable(events);
    } else {
      var before, ev := more[..|more| - 1], more[|more| - 1];
      assert all[..|all| - 1] == events + [TakeCall(max)] + before;
      var t := Run(events + [TakeCall(max)] + before);
      TakeGoesOn(events, max, before);
      Reachable(events + [TakeCall(max)] + before);
      if ev.ConsumerStep? {
        ConsumeKeepsTaking(t, |s.taken|, |KeptBytes(s.puts)|, max);
        ConsumeKeepsPuts(t);
      } else {
        OthersKeepTaking(t, ev);
        SameTaking(t, Step(t, ev), |s.taken|, |KeptBytes(s.puts)|, max);
      }
    }
  }

  lemma SameTaking(s: State, t: State, base: nat, total: nat, max: nat)
    requires Taking(s, base, total, max)
    requires t.c == s.c && t.left == s.left && t.taken == s.taken && KeptBytes(s.puts) <= KeptBytes(t.puts)
    ensures Taking(t, base, total, max)
  {
    hide KeptBytes;
  }

  lemma ConsumeKeepsPuts(s: State)
    ensures Consume(s).puts == s.puts
  {
  }

  lemma TakeBegins(s: State, max: nat)
    requires s.c.Away?
    ensures var t := Step(s, TakeCall(max));
            Taking(t, |s.taken|, |KeptBytes(s.puts)|, max) && t.puts == s.puts && StepsLeft(t.c, t.left) == 4 * max + 1
  {
    hide KeptBytes;
  }

  /** From every reachable state and under every interleaving with the producer: a take of at
      most `max` bytes ends within 4 * max + 1 of its own steps, and gives those that were
      stored when it was called, in order, as far as `max` goes; and no more without a put. */
  lemma TakeGivesWhatIsThere(events: seq<Event>, max: nat, more: seq<Event>)
    requires Run(events).c.Away? && forall ev :: ev in more ==> !ev.TakeCall?
    ensures var s, t := Run(events), Run(events + [TakeCall(max)] + more);
            var there := KeptBytes(s.puts);
            var goal := if |s.taken| + max <= |there| then |s.taken| + max else |there|;
            && (Count(more, ConsumerStep) > 4 * max ==> t.c.Away?)
            && (t.c.Away? ==> goal <= |t.taken| <= |s.taken| + max && there[..goal] <= t.taken)
            && (t.c.Away? && KeptBytes(t.puts) == there ==> t.taken == there[..goal])
  {
    hide Run, KeptBytes, Count;
    var s, t := Run(events), Run(events + [TakeCall(max)] + more);
    TakeGoesOn(events, max, more);
    TakenIsAPrefix(events);
    TakenIsAPrefix(events + [TakeCall(max)] + more);
    Reachable(events + [TakeCall(max)] + more);
    hide RingInv, ProducerInv, LogInv;
  }

  /** A put of `data` runs as the last one since `total` bytes were stored and `released` given
      back. */
  ghost predicate Putting(s: State, n: nat, total: nat, released: nat, data: seq<byte>) {
    && |s.puts| == n + 1 && released <= s.released && released <= total
    && s.puts[n].data == data && s.puts[n].kept <= |data|
    && |KeptBytes(s.puts)| == total + s.puts[n].kept
    && (!s.p.Outside? ==> s.data == data && s.i == s.puts[n].kept)
    && (s.p.Outside? ==> s.puts[n].kept == |data| || s.puts[n].kept >= SIZE - 1 - (total - released))
  }

  /** The most steps of the producer until its put ends. */
  function PutStepsLeft(p: Producer, left: nat): int {
    match p
    case Outside => 0
    case Top => 4 * left + 1
    case Loaded(_) => 4 * left
    case Room(_) => 4 * left - 1
    case Stored(_) => 4 * left - 2
  }

  function BytesLeft(s: State): nat {
    if s.i <= |s.data| then |s.data| - s.i else 0
  }

  lemma ProduceKeepsPutting(s: State, n: nat, total: nat, released: nat, data: seq<byte>)
    requires Inv(s) && Putting(s, n, total, released, data)
    ensures Putting(Produce(s), n, total, released, data)
    ensures var t := Produce(s);
            PutStepsLeft(t.p, BytesLeft(t)) <= if s.p.Outside? then 0 else PutStepsLeft(s.p, BytesLeft(s)) - 1
    ensures !s.p.Outside? ==> PutStepsLeft(s.p, BytesLeft(s)) > 0
  {
    hide ConsumerInv, Cut;
    FullIsNext(s.ring, s.head, s.tail, KeptBytes(s.puts), s.released);
    if s.p.Stored? {
      KeepOneKeeps(s.puts);
    }
    hide KeptBytes, RingInv;
  }

  lemma OthersKeepPutting(s: State, ev: Event, n: nat, total: nat, released: nat, data: seq<byte>)
    requires Putting(s, n, total, released, data) && (ev.TakeCall? || ev.ConsumerStep?)
    ensures var t := Step(s, ev);
            Putting(t, n, total, released, data) && t.p == s.p && t.i == s.i && t.data == s.data
  {
    hide KeptBytes;
  }

  lemma {:induction false} PutGoesOn(events: seq<Event>, data: seq<byte>, more: seq<Event>)
    requires Run(events).p.Outside? && forall ev :: ev in more ==> !ev.PutCall?
    ensures var s, t := Run(events), Run(events + [PutCall(data)] + more);
            && s.released <= |KeptBytes(s.puts)|
            && Putting(t, |s.puts|, |KeptBytes(s.puts)|, s.released, data)
            && PutStepsLeft(t.p, BytesLeft(t)) <= if Count(more, ProducerStep) > 4 * |data| then 0
                                                  else 4 * |data| + 1 - Count(more, ProducerStep)
    decreases more
  {
    hide Inv, Putting, KeptBytes, Produce, Consume, PutStepsLeft, BytesLeft;
    var s, all := Run(events), events + [PutCall(data)] + more;
    OccupancyIsBounded(events);
    if more == [] {
      assert all[..|all| - 1] == events;
      PutCalled(s, data);
    } else {
      var before, ev := more[..|more| - 1], more[|more| - 1];
      assert all[..|all| - 1] == events + [PutCall(data)] + before;
      var t := Run(events + [PutCall(data)] + before);
      PutGoesOn(events, data, before);
      Reachable(events + [PutCall(data)] + before);
      if ev.ProducerStep? {
        ProduceKeepsPutting(t, |s.puts|, |KeptBytes(s.puts)|, s.released, data);
      } else {
        OthersKeepPutting(t, ev, |s.puts|, |KeptBytes(s.puts)|, s.released, data);
        SameBytesLeft(t, Step(t, ev));
      }
    }
  }

  lemma SameBytesLeft(s: State, t: State)
    requires t.i == s.i && t.data == s.data
    ensures BytesLeft(t) == BytesLeft(s)
  {
  }

  lemma PutCalled(s: State, data: seq<byte>)
    requires s.p.Outside? && s.released <= |KeptBytes(s.puts)|
    ensures var t := Step(s, PutCall(data));
            && Putting(t, |s.puts|, |KeptBytes(s.puts)|, s.released, data)
            && PutStepsLeft(t.p, BytesLeft(t)) == 4 * |data| + 1
  {
    assert (s.puts + [Put(data, 0)])[..|s.puts|] == s.puts;
    hide KeptBytes;
  }

  /** From every reachable state and under every interleaving with the consumer: a put ends within
      4 * |data| + 1 of its own steps, and stores all its bytes, or as many from the front as
      there was room for when it was called at least; and no more if nothing is taken. */
  lemma PutKeepsWhatFits(events: seq<Event>, data: seq<byte>, more: seq<Event>)
    requires Run(events).p.Outside? && forall ev :: ev in more ==> !ev.PutCall?
    ensures var s, t := Run(events), Run(events + [PutCall(data)] + more);
            var room := 2047 + s.released - |KeptBytes(s.puts)|;
            var goal := if |data| <= room then |data| else room;
            && (Count(more, ProducerStep) > 4 * |data| ==> t.p.Outside?)
            && 0 <= goal && |t.puts| == |s.puts| + 1 && t.puts[|s.puts|].data == data
            && (t.p.Outside? ==> goal <= t.puts[|s.puts|].kept <= |data|)
            && (t.p.Outside? && t.released == s.released ==> t.puts[|s.puts|].kept == goal)
  {
    hide Run, KeptBytes, Count;
    var s, t := Run(events), Run(events + [PutCall(data)] + more);
    PutGoesOn(events, data, more);
    OccupancyIsBounded(events);
    OccupancyIsBounded(events + [PutCall(data)] + more);
    Reachable(events + [PutCall(data)] + more);
    hide Inv;
  }
}
