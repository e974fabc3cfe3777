/** A locked writer of a panel against the interrupt that swaps its images: every read
    and write of the shared words is a step of its own. */
module Isolation {

  type Image = seq<bool>

  /** One pixel of a change. */
  datatype Draw = Draw(k: nat, on: bool)

  /** Where the writer that holds the lock stands. `Picked` read which image is the back
      one and is about to write a pixel of it. */
  datatype Writer = Outside | AtBegin | AtCopy | AtMark | Drawing | Picked(img: nat, draw: Draw)

  /** The device, and a log: the image `shown` when the last change began, and the draws
      of that change so far. */
  datatype State = State(images: seq<Image>, front: nat, dirty: bool, swap: bool, writer: Writer,
                         shown: Image, draws: seq<Draw>)

  datatype Event = Lock | WriterStep | Pick(draw: Draw) | Commit | SwapNow

  function Start(im: Image): State {
    State([im, im], 0, false, false, Outside, im, [])
  }

  predicate Wellformed(s: State) {
    |s.images| == 2 && s.front < 2 && (s.writer.Picked? ==> s.writer.img < 2)
  }

  function Put(im: Image, d: Draw): Image {
    if d.k < |im| then im[d.k := d.on] else im
  }

  function PutAll(im: Image, draws: seq<Draw>): Image {
    if draws == [] then im else Put(PutAll(im, draws[..|draws| - 1]), draws[|draws| - 1])
  }

  function Step(s: State, ev: Event): (s': State)
    requires Wellformed(s)
    ensures Wellformed(s')
  {
    match ev
    case Lock =>
      if s.writer.Outside? then s.(writer := AtBegin, shown := s.images[s.front], draws := []) else s
    case WriterStep =>
      (match s.writer
       case AtBegin => s.(writer := if s.dirty then Drawing else AtCopy)
       case AtCopy => s.(images := s.images[1 - s.front := s.images[s.front]], writer := AtMark)
       case AtMark => s.(dirty := true, writer := Drawing)
       case Picked(img, d) => s.(images := s.images[img := Put(s.images[img], d)],
                                 draws := s.draws + [d], writer := Drawing)
       case _ => s)
    case Pick(d) => if s.writer.Drawing? then s.(writer := Picked(1 - s.front, d)) else s
    case Commit => if s.writer.Drawing? then s.(swap := true, writer := Outside) else s
    case SwapNow =>
      if s.swap then s.(front := 1 - s.front, swap := false, dirty := false) else s
  }

  function Run(im: Image, events: seq<Event>): (s: State)
    ensures Wellformed(s)
  {
    if events == [] then Start(im) else Step(Run(im, events[..|events| - 1]), events[|events| - 1])
  }

  /** Every writer begins with no swap pending. */
  predicate Patient(im: Image, events: seq<Event>) {
    events != [] ==>
      && Patient(im, events[..|events| - 1])
      && (events[|events| - 1].Lock? ==> !Run(im, events[..|events| - 1]).swap)
  }

  /** The image the scan reads is the one from before the change, until the swap that
      takes the whole change. */
  predicate Inv(s: State)
    requires Wellformed(s)
  {
    var back, target := s.images[1 - s.front], PutAll(s.shown, s.draws);
    match s.writer
    case Outside =>
      s.dirty == s.swap &&
      if s.swap then s.images[s.front] == s.shown && back == target else s.images[s.front] == target
    case AtBegin => !s.swap && !s.dirty && s.draws == [] && s.images[s.front] == s.shown
    case AtCopy => !s.swap && !s.dirty && s.draws == [] && s.images[s.front] == s.shown
    case AtMark => !s.swap && !s.dirty && s.draws == [] && s.images[s.front] == s.shown == back
    case Drawing => !s.swap && s.dirty && s.images[s.front] == s.shown && back == target
    case Picked(img, _) =>
      !s.swap && s.dirty && img == 1 - s.front && s.images[s.front] == s.shown && back == target
  }

  lemma PutOneMore(im: Image, draws: seq<Draw>, d: Draw)
    ensures PutAll(im, draws + [d]) == Put(PutAll(im, draws), d)
  {
    assert (draws + [d])[..|draws|] == draws;
  }

  lemma StepKeepsInv(s: State, ev: Event)
    requires Wellformed(s) && Inv(s) && (ev.Lock? ==> !s.swap)
    ensures Inv(Step(s, ev))
  {
    hide Put;
    if s.writer.Picked? {
      PutOneMore(s.shown, s.draws, s.writer.draw);
    }
  }

  lemma {:induction false} Reachable(im: Image, events: seq<Event>)
    requires Patient(im, events)
    ensures Inv(Run(im, events))
    decreases events
  {
    hide Inv, Step;
    if events == [] {
      StartInv(im);
    } else {
      Reachable(im, events[..|events| - 1]);
      StepKeepsInv(Run(im, events[..|events| - 1]), events[|events| - 1]);
    }
  }

  lemma StartInv(im: Image)
    ensures Inv(Start(im))
  {
  }

  /** With patient writers, in every interleaving: the two flags agree outside a writer;
      the scan shows the image from before the change while it is made and until the
      swap, and the whole change right after it; no draw of an earlier change is lost. */
  lemma ChangesAppearWhole(im: Image, events: seq<Event>)
    requires Patient(im, events)
    ensures var s := Run(im, events);
            && (s.writer.Outside? ==> s.dirty == s.swap)
            && (!s.writer.Outside? || s.swap ==> s.images[s.front] == s.shown)
            && (s.writer.Outside? && !s.swap ==> s.images[s.front] == PutAll(s.shown, s.draws))
            && (s.swap ==> var s' := Step(s, SwapNow); s'.images[s'.front] == PutAll(s.shown, s.draws))
  {
    hide Run, PutAll;
    Reachable(im, events);
  }

  /** Only a swap changes what the scan shows. */
  lemma OnlyASwapChangesThePanel(im: Image, events: seq<Event>, ev: Event)
    requires Patient(im, events + [ev])
    ensures var s := Run(im, events);
            var s' := Step(s, ev);
            s'.images[s'.front] != s.images[s.front] ==> ev.SwapNow? && s.swap
  {
    hide Run, PutAll;
    assert (events + [ev])[..|events|] == events;
    Reachable(im, events);
  }

  lemma RunNext(im: Image, events: seq<Event>, ev: Event)
    ensures Run(im, events + [ev]) == Step(Run(im, events), ev)
  {
    assert (events + [ev])[..|events|] == events;
  }

  lemma {:induction false} PatientGoesOn(im: Image, events: seq<Event>, more: seq<Event>)
    requires Patient(im, events) && Lock !in more
    ensures Patient(im, events + more)
    decreases more
  {
    if more == [] {
      assert events + more == events;
    } else {
      assert (events + more)[..|events + more| - 1] == events + more[..|more| - 1];
      PatientGoesOn(im, events, more[..|more| - 1]);
    }
  }

  /** The event after the run does not change what the scan shows. */
  predicate Untouched(im: Image, events: seq<Event>, ev: Event) {
    var s := Run(im, events);
    var s' := Step(s, ev);
    s'.images[s'.front] == s.images[s.front]
  }

  /** The writer that begins now never changes what the scan shows, however the swaps fall. */
  ghost predicate BeginIsSafe(im: Image, events: seq<Event>) {
    forall more: seq<Event>, ev: Event :: Lock !in more && !ev.SwapNow? ==> Untouched(im, events + [Lock] + more, ev)
  }

  lemma SafeOne(im: Image, events: seq<Event>, more: seq<Event>, ev: Event)
    requires BeginIsSafe(im, events) && Lock !in more && !ev.SwapNow?
    ensures Untouched(im, events + [Lock] + more, ev)
  {
  }

  /** What the writer does when a swap is pending: it takes the back image, the swap comes,
      and its pixel lands on the image that the scan now shows. */
  lemma DrawsOnTheFront(im: Image, events: seq<Event>)
    requires Patient(im, events)
    requires var s := Run(im, events); s.writer.Outside? && s.swap && s.images[1 - s.front] != []
    ensures var s := Run(im, events);
            var d := Draw(0, !s.images[1 - s.front][0]);
            var more := [WriterStep, Pick(d), SwapNow];
            && !Untouched(im, events + [Lock] + more, WriterStep)
            && var t := Run(im, events + [Lock] + more + [WriterStep] + [Commit]);
            t.writer.Outside? && t.swap && !t.dirty
  {
    hide Run, PutAll;
    Reachable(im, events);
    var s := Run(im, events);
    var back := s.images[1 - s.front];
    var d := Draw(0, !back[0]);
    var e := events + [Lock];
    RunNext(im, events, Lock);
    RunNext(im, e, WriterStep);
    RunNext(im, e + [WriterStep], Pick(d));
    RunNext(im, e + [WriterStep] + [Pick(d)], SwapNow);
    var t := e + [WriterStep, Pick(d), SwapNow];
    assert t == e + [WriterStep] + [Pick(d)] + [SwapNow];
    RunNext(im, t, WriterStep);
    RunNext(im, t + [WriterStep], Commit);
    assert back[0 := d.on][0] != back[0];
  }

  /** Beginning a change leaves the panel alone exactly when no swap is pending. */
  lemma BeginIsSafeExactlyWhen(im: Image, events: seq<Event>)
    requires Patient(im, events)
    requires var s := Run(im, events); s.writer.Outside? && s.images[1 - s.front] != []
    ensures BeginIsSafe(im, events) <==> !Run(im, events).swap
  {
    hide Run, Step;
    var s := Run(im, events);
    if s.swap {
      DrawsOnTheFront(im, events);
      var more := [WriterStep, Pick(Draw(0, !s.images[1 - s.front][0])), SwapNow];
      assert Lock !in more;
      if BeginIsSafe(im, events) {
        SafeOne(im, events, more, WriterStep);
      }
    } else {
      forall more: seq<Event>, ev: Event | Lock !in more && !ev.SwapNow?
        ensures Untouched(im, events + [Lock] + more, ev)
      {
        OneWriterIsSafe(im, events, more, ev);
      }
    }
  }

  lemma OneWriterIsSafe(im: Image, events: seq<Event>, more: seq<Event>, ev: Event)
    requires Patient(im, events) && !Run(im, events).swap && Lock !in more && !ev.SwapNow?
    ensures Untouched(im, events + [Lock] + more, ev)
  {
    hide Run;
    var e := events + [Lock];
    assert e[..|events|] == events;
    PatientGoesOn(im, e, more);
    if !ev.Lock? {
      assert (e + more + [ev])[..|e + more|] == e + more;
      OnlyASwapChangesThePanel(im, e + more, ev);
    }
  }
}
