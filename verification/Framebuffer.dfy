/** The framebuffer's dirty rectangle and unsync flag as a cache-coherence protocol between the framebuffer memory and
    the device's screen. Updates run one at a time under the operation lock; framebuffer writers, failed transfers,
    status reports and the pixel reads of the sender itself interleave with them freely. */
module Framebuffer {
  import opened Bytes

  const WIDTH := 320     // RP_DISP_DEFAULT_WIDTH
  const HEIGHT := 240    // RP_DISP_DEFAULT_HEIGHT

  datatype Pixel = Pixel(x: int, y: int)
  type Image = Pixel -> word

  /** Both corners included; without a pixel when they are the wrong way round. */
  datatype Rect = Rect(left: int, top: int, right: int, bottom: int) {
    predicate Has(p: Pixel) {
      left <= p.x <= right && top <= p.y <= bottom
    }

    predicate Empty() {
      top > bottom || left > right
    }

    predicate OnScreen() {
      0 <= left && 0 <= top && right < WIDTH && bottom < HEIGHT
    }

    /** The smallest rectangle around both, as the driver stretches it. */
    function Stretch(r: Rect): Rect {
      Rect(if left > r.left then r.left else left, if top > r.top then r.top else top,
           if right < r.right then r.right else right, if bottom < r.bottom then r.bottom else bottom)
    }
  }

  const Clean := Rect(WIDTH, HEIGHT, -1, -1)
  const Whole := Rect(0, 0, WIDTH - 1, HEIGHT - 1)

  /** `over` inside the rectangle, `base` elsewhere. */
  function Paint(base: Image, r: Rect, over: Image): Image {
    p => if r.Has(p) then over(p) else base(p)
  }

  function Plane(color: word): Image {
    (p: Pixel) => color
  }

  /** Plain: the dirty rectangle is sent as an image. Fill: only the update's own rectangle is sent, as a fill command in
      copy mode. */
  datatype Hint = Plain | Fill(color: word)

  /** A send in progress: what it will paint where. */
  datatype Job = Job(area: Rect, hint: Hint, image: Image)

  /** `screen` is what the device shows once the commands in flight have arrived; `pending` are the rectangles of writers
      that have changed the framebuffer and not yet entered their update; `owed` says that a device was bound whose
      unsync call has not come yet. */
  datatype State = State(dirty: Rect, dirtyFlag: bool, unsync: int, bound: bool, owed: bool,
                         framebuffer: Image, screen: Image, pending: multiset<Rect>, job: Option<Job>)

  datatype Event =
    | Write(area: Rect, image: Image)      // a writer changes the framebuffer and owes an update
    | Begin(area: Rect, hint: Hint, settled: multiset<Rect>)   // _display_update, up to the send, for these writers
    | Dismiss(settled: multiset<Rect>)     // these writers enter no update, for want of a device
    | Sample(pixel: Pixel)                 // the sender reads a pixel (again)
    | Finish(ok: bool, garbage: Image)     // the send's result; a failed one may leave anything in its rectangle
    | Lost(garbage: Image)                 // fbhandler_set_unsync_flag: a transfer failed, or the device is dirty
    | Bind(shown: Image)                   // fbhandler_on_new_device
    | Announce                             // the unsync call that follows it
    | Unbind                               // fbhandler_on_remove_device

  /** The dirty rectangle after an update for `area` has been entered. */
  function Merged(dirty: Rect, unsync: int, area: Rect): Rect {
    if unsync - 1 == 0 then Whole else dirty.Stretch(area)
  }

  function Target(s: State): Rect
    requires s.job.Some?
  {
    if s.job.value.hint.Plain? then s.dirty else s.job.value.area
  }

  function AfterBegin(s: State, area: Rect, hint: Hint, settled: multiset<Rect>): State {
    var left := s.(pending := s.pending - settled);
    if !s.bound then left
    else
      var merged := Merged(s.dirty, s.unsync, area);
      var entered := left.(unsync := s.unsync - 1, dirty := merged);
      if merged.Empty() then entered
      else entered.(dirtyFlag := true,
                    job := Some(Job(area, hint, if hint.Plain? then s.framebuffer else Plane(hint.color))))
  }

  function AfterFinish(s: State, ok: bool, garbage: Image): State
    requires s.job.Some?
  {
    if ok then s.(screen := Paint(s.screen, Target(s), s.job.value.image), dirty := Clean, dirtyFlag := false, job := None)
    else s.(screen := Paint(s.screen, Target(s), garbage), job := None)
  }

  function Resample(job: Job, p: Pixel, framebuffer: Image): Job {
    if job.hint.Plain? then job.(image := Paint(job.image, Rect(p.x, p.y, p.x, p.y), framebuffer)) else job
  }

  /** Updates, binding and unbinding wait for the operation lock. */
  predicate Enabled(s: State, e: Event) {
    match e
    case Begin(_, _, _) => s.job.None?
    case Dismiss(_) => !s.bound
    case Bind(_) => s.job.None? && !s.bound
    case Unbind => s.job.None?
    case Sample(_) => s.job.Some?
    case Finish(_, _) => s.job.Some?
    case Lost(_) => s.bound
    case Announce => s.bound
    case Write(_, _) => true
  }

  function Apply(s: State, e: Event): State {
    if !Enabled(s, e) then s else
    match e
    case Write(area, image) =>
      s.(framebuffer := Paint(s.framebuffer, area, image), pending := s.pending + multiset{area})
    case Begin(area, hint, settled) => AfterBegin(s, area, hint, settled)
    case Dismiss(settled) => s.(pending := s.pending - settled)
    case Sample(p) => s.(job := Some(Resample(s.job.value, p, s.framebuffer)))
    case Finish(ok, garbage) => AfterFinish(s, ok, garbage)
    case Lost(garbage) => s.(screen := garbage, unsync := 1)
    case Bind(shown) => s.(bound := true, owed := true, screen := shown)
    case Announce => s.(unsync := 1, owed := false)
    case Unbind => s.(bound := false)
  }

  predicate Waiting(s: State, p: Pixel) {
    exists r :: r in s.pending && r.Has(p)
  }

  /** A pixel that is wrong on the screen is going to be sent. */
  ghost predicate Covered(s: State, p: Pixel) {
    s.framebuffer(p) == s.screen(p) || s.dirty.Has(p) || s.unsync == 1 || Waiting(s, p)
  }

  /** The send in progress stays within the dirty rectangle, what it will paint is what the framebuffer holds, and it
      paints every wrong pixel that nothing else will bring about. */
  ghost predicate Honest(s: State) {
    s.job.Some? ==>
      && s.bound && s.dirtyFlag
      && (forall p :: Whole.Has(p) && Target(s).Has(p) ==> s.dirty.Has(p))
      && (forall p :: Whole.Has(p) && Target(s).Has(p) ==> s.job.value.image(p) == s.framebuffer(p) || Waiting(s, p))
      && (!s.owed ==> forall p :: Whole.Has(p) ==> PaintedOrRight(s, p))
  }

  ghost predicate PaintedOrRight(s: State, p: Pixel)
    requires s.job.Some?
  {
    s.framebuffer(p) == s.screen(p) || Target(s).Has(p) || s.unsync == 1 || Waiting(s, p)
  }

  ghost predicate Coherent(s: State) {
    && s.dirty.OnScreen() && s.unsync <= 1
    && (s.job.None? && !s.dirtyFlag ==> s.dirty.Empty())
    && Honest(s)
    && (s.bound && !s.owed ==> forall p :: Whole.Has(p) ==> Covered(s, p))
  }

  /** The updates the protocol is meant for: on screen, taking in what their writers have changed, and with a fill hint
      only for a rectangle that holds the colour and takes in everything dirty. */
  ghost predicate Sound(s: State, e: Event) {
    && Enabled(s, e)
    && (e.Begin? ==> e.area.OnScreen() && (s.bound ==> Settles(e.area, e.settled)))
    && (e.Begin? && e.hint.Fill? ==> TakesIn(s, e.area) && Filled(s, e.area, e.hint.color, e.settled))
  }

  /** The update takes in what its writers have changed. */
  ghost predicate Settles(area: Rect, settled: multiset<Rect>) {
    forall r, p :: r in settled && Whole.Has(p) && r.Has(p) ==> area.Has(p)
  }

  /** The filled rectangle holds every pixel that may be wrong. */
  ghost predicate TakesIn(s: State, area: Rect) {
    forall p :: Whole.Has(p) && (s.dirty.Has(p) || s.unsync == 1) ==> area.Has(p)
  }

  /** The writer that asks for the fill has filled; whoever has changed a pixel since owes an update of its own. */
  ghost predicate Filled(s: State, area: Rect, color: word, settled: multiset<Rect>) {
    forall p :: area.Has(p) && Whole.Has(p) ==>
      s.framebuffer(p) == color || Waiting(s.(pending := s.pending - settled), p)
  }

  lemma WaitingElsewhere(s: State, area: Rect, settled: multiset<Rect>, p: Pixel)
    requires Waiting(s, p) && Settles(area, settled) && Whole.Has(p) && !area.Has(p)
    ensures Waiting(s.(pending := s.pending - settled), p)
  {
    var r :| r in s.pending && r.Has(p);
    assert r in s.pending - settled;
  }

  lemma BeginCoherent(s: State, area: Rect, hint: Hint, settled: multiset<Rect>)
    requires Coherent(s) && Sound(s, Begin(area, hint, settled))
    ensures Coherent(AfterBegin(s, area, hint, settled))
  {
    var t := AfterBegin(s, area, hint, settled);
    if s.bound {
      forall p | Whole.Has(p) && !s.owed
        ensures Covered(t, p)
      {
        assert Covered(s, p);
        if Waiting(s, p) && !area.Has(p) {
          WaitingElsewhere(s, area, settled, p);
        }
      }
      forall p | Whole.Has(p) && !s.owed && t.job.Some?
        ensures PaintedOrRight(t, p)
      {
        assert Covered(s, p);
        if Waiting(s, p) && !area.Has(p) {
          WaitingElsewhere(s, area, settled, p);
        }
      }
    }
  }

  lemma FinishCoherent(s: State, ok: bool, garbage: Image)
    requires Coherent(s) && s.job.Some?
    ensures Coherent(AfterFinish(s, ok, garbage))
  {
    var t := AfterFinish(s, ok, garbage);
    forall p | Whole.Has(p) && !s.owed
      ensures Covered(t, p)
    {
      assert Covered(s, p) && PaintedOrRight(s, p);
      assert Waiting(t, p) <==> Waiting(s, p);
      if ok && Target(s).Has(p) {
        assert s.job.value.image(p) == s.framebuffer(p) || Waiting(s, p);
      }
    }
  }

  lemma WriteCoherent(s: State, area: Rect, image: Image)
    requires Coherent(s)
    ensures Coherent(Apply(s, Write(area, image)))
  {
    var t := Apply(s, Write(area, image));
    forall p | Waiting(s, p) || area.Has(p)
      ensures Waiting(t, p)
    {
      if area.Has(p) {
        assert area in t.pending;
      } else {
        var r :| r in s.pending && r.Has(p);
        assert r in t.pending;
      }
    }
    forall p | Whole.Has(p) && s.bound && !s.owed
      ensures Covered(t, p)
    {
      assert Covered(s, p);
    }
  }

  lemma {:induction false} StepCoherent(s: State, e: Event)
    requires Coherent(s) && Sound(s, e)
    ensures Coherent(Apply(s, e))
  {
    match e
    case Write(area, image) => WriteCoherent(s, area, image);
    case Begin(area, hint, settled) => BeginCoherent(s, area, hint, settled);
    case Dismiss(_) =>
    case Finish(ok, garbage) => FinishCoherent(s, ok, garbage);
    case Sample(_) =>
      var t := Apply(s, e);
      assert forall p :: Waiting(t, p) <==> Waiting(s, p);
      assert forall p :: Covered(s, p) ==> Covered(t, p);
    case Bind(_) =>
    case Lost(_) =>
      var t := Apply(s, e);
      assert forall p :: Waiting(t, p) <==> Waiting(s, p);
    case Announce =>
      var t := Apply(s, e);
      assert forall p :: Waiting(t, p) <==> Waiting(s, p);
    case Unbind =>
  }

  /** Just after _reset_fb_private. */
  predicate Fresh(s: State) {
    s.dirty == Clean && !s.dirtyFlag && !s.bound && s.unsync == 1 && s.job.None?
  }

  ghost predicate SoundRun(s: State, events: seq<Event>)
    decreases |events|
  {
    events != [] ==> Sound(s, events[0]) && SoundRun(Apply(s, events[0]), events[1..])
  }

  function Run(s: State, events: seq<Event>): State
    decreases |events|
  {
    if events == [] then s else Run(Apply(s, events[0]), events[1..])
  }

  lemma {:induction false} RunAppend(s: State, events: seq<Event>, e: Event)
    ensures Run(s, events + [e]) == Apply(Run(s, events), e)
    decreases |events|
  {
    if events == [] {
      assert Run(Apply(s, e), []) == Apply(s, e);
    } else {
      assert (events + [e])[1..] == events[1..] + [e];
      RunAppend(Apply(s, events[0]), events[1..], e);
    }
  }

  lemma {:induction false} SoundAppend(s: State, events: seq<Event>, e: Event)
    requires SoundRun(s, events) && Sound(Run(s, events), e)
    ensures SoundRun(s, events + [e])
    decreases |events|
  {
    if events == [] {
      assert SoundRun(Apply(s, e), []);
    } else {
      assert (events + [e])[1..] == events[1..] + [e];
      SoundAppend(Apply(s, events[0]), events[1..], e);
    }
  }

  /** No lost screen update: in every run, whatever the interleaving, every pixel that differs between framebuffer and
      screen lies in the dirty rectangle, or a full update is due, or its writer has yet to enter its update. */
  lemma {:induction false} RunCoherent(s: State, events: seq<Event>)
    requires Coherent(s) && SoundRun(s, events)
    ensures Coherent(Run(s, events))
    decreases |events|
  {
    if events != [] {
      StepCoherent(s, events[0]);
      RunCoherent(Apply(s, events[0]), events[1..]);
    }
  }

  lemma FreshCoherent(s: State)
    requires Fresh(s)
    ensures Coherent(s)
  {
  }

  /** fbhandler_on_all_transfer_done: whether it starts an update of the whole screen. */
  predicate FlushNeeded(s: State) {
    s.dirtyFlag || s.unsync == 1
  }

  /** With no writer on its way, the update started when all transfers are done makes the screen show the framebuffer;
      when none is started, it does already. */
  lemma Synchronised(s: State, garbage: Image)
    requires Coherent(s) && s.bound && !s.owed && s.job.None? && s.pending == multiset{}
    ensures var t := AfterBegin(s, Whole, Plain, multiset{});
            && t.job.Some?
            && var u := if FlushNeeded(s) then AfterFinish(t, true, garbage) else s;
               forall p :: Whole.Has(p) ==> u.screen(p) == u.framebuffer(p)
  {
    BeginCoherent(s, Whole, Plain, multiset{});
    var t := AfterBegin(s, Whole, Plain, multiset{});
    assert t.dirty.Has(Pixel(0, 0));
    assert t.pending == multiset{};
    forall p | Whole.Has(p)
      ensures t.job.value.image(p) == t.framebuffer(p) && t.dirty.Has(p)
      ensures !FlushNeeded(s) ==> s.screen(p) == s.framebuffer(p)
    {
      assert Covered(s, p);
    }
  }

  /** A pixel that is read during a send is sent as it was when it was read last: a write after the update was entered and
      before the sender has come to the pixel is on the screen when the send has worked. */
  lemma ReadLast(s: State, p: Pixel, garbage: Image)
    requires s.job.Some? && s.job.value.hint.Plain?
    ensures var t := Apply(Apply(s, Sample(p)), Finish(true, garbage));
            && (Target(s).Has(p) ==> t.screen(p) == s.framebuffer(p))
            && forall q :: q != p ==> t.screen(q) == AfterFinish(s, true, garbage).screen(q)
  {
    var job := Resample(s.job.value, p, s.framebuffer);
    assert forall q: Pixel :: Rect(p.x, p.y, p.x, p.y).Has(q) <==> q == p;
    assert job.image(p) == s.framebuffer(p);
  }

  /** Without a device nothing is entered and nothing is sent, and the screen is nobody's concern until one is bound again. */
  lemma UnboundIdle(s: State, area: Rect, hint: Hint, settled: multiset<Rect>)
    requires Coherent(s) && s.job.None?
    ensures var t := Apply(s, Unbind);
            && Coherent(t) && Apply(t, Begin(area, hint, settled)) == t.(pending := s.pending - settled)
  {
  }

  // ---------------------------------------------------------------- the fill hint

  /** A fill hint for a rectangle that leaves out a dirty pixel: the state it comes in on. */
  function BeforeFill(dirty: Rect, unsync: int, area: Rect, color: word, lost: Pixel): State {
    var wrong: word := if color == 0 then 1 else 0;
    State(dirty, !dirty.Empty(), unsync, true, false, Plane(color),
          Paint(Plane(color), Rect(lost.x, lost.y, lost.x, lost.y), Plane(wrong)), multiset{area}, None)
  }

  /** The whole dirty rectangle is cleared though only the filled one was sent: whenever the merged rectangle sticks out
      of the filled one and was not merely stretched there, a coherent state can lose a pixel for good. */
  lemma FillLosesPixel(dirty: Rect, unsync: int, area: Rect, color: word, lost: Pixel, garbage: Image)
    requires dirty.OnScreen() && area.OnScreen() && unsync <= 1
    requires Whole.Has(lost) && !area.Has(lost) && (dirty.Has(lost) || unsync == 1)
    ensures var s := BeforeFill(dirty, unsync, area, color, lost);
            && Coherent(s) && Filled(s, area, color, multiset{area})
            && var t := AfterBegin(s, area, Fill(color), multiset{area});
               t.job.Some? && !Coherent(AfterFinish(t, true, garbage))
  {
    var s := BeforeFill(dirty, unsync, area, color, lost);
    forall p | Whole.Has(p)
      ensures Covered(s, p)
    {
      if unsync != 1 && p != lost {
        assert s.framebuffer(p) == s.screen(p);
      }
    }
    var t := AfterBegin(s, area, Fill(color), multiset{area});
    assert Merged(s.dirty, s.unsync, area).Has(lost);
    var u := AfterFinish(t, true, garbage);
    assert u.pending == multiset{};
    assert !Covered(u, lost);
  }

  lemma RunTake(s: State, events: seq<Event>, k: nat)
    requires k < |events|
    ensures Run(s, events[..k + 1]) == Apply(Run(s, events[..k]), events[k])
  {
    assert events[..k + 1] == events[..k] + [events[k]];
    RunAppend(s, events[..k], events[k]);
  }

  lemma SoundTake(s: State, events: seq<Event>, k: nat)
    requires k < |events| && SoundRun(s, events[..k]) && Sound(Run(s, events[..k]), events[k])
    ensures SoundRun(s, events[..k + 1])
    ensures Run(s, events[..k + 1]) == Apply(Run(s, events[..k]), events[k])
  {
    RunTake(s, events, k);
    assert events[..k + 1] == events[..k] + [events[k]];
    SoundAppend(s, events[..k], events[k]);
  }

  /** A device is bound, and its first update brings it in step. */
  function InStep(shown: Image): seq<Event> {
    [Bind(shown), Announce, Begin(Whole, Plain, multiset{}), Finish(true, shown)]
  }

  lemma NothingYet(s: State)
    ensures Run(s, []) == s && SoundRun(s, [])
  {
  }

  lemma InStepState(s: State, shown: Image, more: seq<Event>)
    requires Fresh(s) && s.pending == multiset{}
    ensures var events := InStep(shown) + more;
            && SoundRun(s, events[..4])
            && Run(s, events[..4])
               == s.(bound := true, owed := false, unsync := 0, dirty := Clean, screen := Paint(shown, Whole, s.framebuffer))
  {
    var events := InStep(shown) + more;
    NothingYet(s);
    assert events[..0] == [];
    hide Run, SoundRun;
    SoundTake(s, events, 0);
    SoundTake(s, events, 1);
    SoundTake(s, events, 2);
    SoundTake(s, events, 3);
  }

  function Dot(p: Pixel): Rect {
    Rect(p.x, p.y, p.x, p.y)
  }

  /** An update for one pixel is sent in vain; then another pixel is filled. */
  function FillAfterFailure(shown: Image, failed: Pixel, image: Image, garbage: Image, filled: Pixel, color: word): seq<Event> {
    InStep(shown)
    + [Write(Dot(failed), image), Begin(Dot(failed), Plain, multiset{Dot(failed)}), Finish(false, garbage)]
    + [Write(Dot(filled), Plane(color)), Begin(Dot(filled), Fill(color), multiset{Dot(filled)}), Finish(true, garbage)]
  }

  /** Such a run begins with the reset state and ends with a wrong pixel that nothing will bring about: no rectangle is
      dirty, no full update is due and nobody has an update to enter. */
  lemma FillLosesFromReset(s: State, shown: Image, failed: Pixel, image: Image, garbage: Image, filled: Pixel, color: word)
    requires Fresh(s) && s.pending == multiset{}
    requires Whole.Has(failed) && Whole.Has(filled) && failed != filled && garbage(failed) != image(failed)
    ensures var events := FillAfterFailure(shown, failed, image, garbage, filled, color);
            && SoundRun(s, events[..8])
            && var t := Run(s, events);
               && t.framebuffer(failed) != t.screen(failed) && t.dirty == Clean && t.unsync < 1
               && t.pending == multiset{} && t.job.None? && t.bound && !t.owed
  {
    var events := FillAfterFailure(shown, failed, image, garbage, filled, color);
    assert events == InStep(shown) + events[4..];
    InStepState(s, shown, events[4..]);
    FailedUpdate(s, events, failed, image, garbage);
    OtherFilled(s, events, failed, garbage, filled, color);
    assert events[..10] == events;
  }

  /** The fill clears the whole dirty rectangle though it paints its own pixel only. */
  lemma OtherFilled(s: State, events: seq<Event>, failed: Pixel, garbage: Image, filled: Pixel, color: word)
    requires |events| >= 10 && SoundRun(s, events[..7]) && Whole.Has(failed) && Whole.Has(filled) && failed != filled
    requires var t := Run(s, events[..7]);
             && t.bound && t.unsync == -1 && t.dirty == Dot(failed) && t.job.None? && t.pending == multiset{}
             && t.screen(failed) != t.framebuffer(failed)
    requires events[7] == Write(Dot(filled), Plane(color))
    requires events[8] == Begin(Dot(filled), Fill(color), multiset{Dot(filled)}) && events[9] == Finish(true, garbage)
    ensures SoundRun(s, events[..8])
    ensures var t := Run(s, events[..10]);
            && t.framebuffer(failed) != t.screen(failed) && t.dirty == Clean && t.unsync < 1
            && t.pending == multiset{} && t.job.None? && t.bound && t.owed == Run(s, events[..7]).owed
  {
    hide Run, SoundRun;
    SoundTake(s, events, 7);
    RunTake(s, events, 8);
    RunTake(s, events, 9);
  }

  lemma FailedUpdate(s: State, events: seq<Event>, failed: Pixel, image: Image, garbage: Image)
    requires |events| >= 7 && SoundRun(s, events[..4]) && Whole.Has(failed) && garbage(failed) != image(failed)
    requires var t := Run(s, events[..4]); t.bound && t.unsync == 0 && t.dirty == Clean && t.job.None?
    requires Run(s, events[..4]).pending == multiset{}
    requires events[4] == Write(Dot(failed), image) && events[5] == Begin(Dot(failed), Plain, multiset{Dot(failed)})
    requires events[6] == Finish(false, garbage)
    ensures SoundRun(s, events[..7])
    ensures var t := Run(s, events[..7]);
            && t.bound && t.owed == Run(s, events[..4]).owed && t.unsync == -1 && t.dirty == Dot(failed) && t.job.None?
            && t.pending == multiset{} && t.screen(failed) == garbage(failed) && t.framebuffer(failed) == image(failed)
  {
    hide Run, SoundRun;
    SoundTake(s, events, 4);
    SoundTake(s, events, 5);
    SoundTake(s, events, 6);
  }

  /** The other half: a fill that takes in every pixel that may be wrong keeps coherence. */
  lemma FillKeeps(s: State, area: Rect, color: word, ok: bool, garbage: Image)
    requires Coherent(s) && s.job.None? && area.OnScreen() && Filled(s, area, color, multiset{area}) && TakesIn(s, area)
    ensures var t := AfterBegin(s, area, Fill(color), multiset{area});
            Coherent(t) && (t.job.Some? ==> Coherent(AfterFinish(t, ok, garbage)))
  {
    var t := AfterBegin(s, area, Fill(color), multiset{area});
    BeginCoherent(s, area, Fill(color), multiset{area});
    if t.job.Some? {
      FinishCoherent(t, ok, garbage);
    }
  }
}
