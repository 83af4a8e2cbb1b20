/** fbhandlers.c as it runs: the fields of rpusbdisp_fb_private updated in place. Each method's effect is tied to a run of
    the Framebuffer protocol; what others do while the operation lock is held is left open. */
module FramebufferDriver {
  import opened Bytes
  import opened Framebuffer

  class FbPrivate {
    var left: int
    var top: int
    var right: int
    var bottom: int
    var dirtyFlag: bool
    var unsyncFlag: int
    var binded: bool
    var framebuffer: Image
    var screen: Image              // what the device will show
    var pending: multiset<Rect>
    var owed: bool
    var job: Option<Job>           // the send in progress, under the operation lock

    function State(): State
      reads this
    {
      Framebuffer.State.State(Rect(left, top, right, bottom), dirtyFlag, unsyncFlag, binded, owed,
                              framebuffer, screen, pending, job)
    }

    /** _reset_fb_private */
    constructor (framebuffer: Image, screen: Image)
      ensures Fresh(State())
    {
      left, right, top, bottom, dirtyFlag := WIDTH, -1, HEIGHT, -1, false;
      binded, unsyncFlag := false, 1;
      this.framebuffer, this.screen := framebuffer, screen;
      pending, owed, job := multiset{}, false, None;
    }

    method ClearDirtyRect()
      modifies this`left, this`right, this`top, this`bottom, this`dirtyFlag
      ensures Rect(left, top, right, bottom) == Clean && !dirtyFlag
    {
      left, right, top, bottom, dirtyFlag := WIDTH, -1, HEIGHT, -1, false;
    }

    /** One thing that may happen at any moment, whoever holds the operation lock. */
    method Other() returns (e: Event)
      modifies this`framebuffer, this`screen, this`pending, this`unsyncFlag, this`owed, this`job
      ensures !e.Begin? && Sound(old(State()), e) && State() == Apply(old(State()), e)
      ensures job.Some? == old(job.Some?)
    {
      e := *;
      match e {
        case Sample(p) =>
          if job.Some? {
            job := Some(Resample(job.value, p, framebuffer));
            return;
          }
        case Lost(garbage) =>
          if binded {
            screen, unsyncFlag := garbage, 1;
            return;
          }
        case Announce =>
          if binded {
            unsyncFlag, owed := 1, false;
            return;
          }
        case _ =>
      }
      var area: Rect, image: Image := *, *;
      framebuffer, pending := Paint(framebuffer, area, image), pending + multiset{area};
      e := Write(area, image);
    }

    method Others() returns (ghost run: seq<Event>)
      modifies this`framebuffer, this`screen, this`pending, this`unsyncFlag, this`owed, this`job
      ensures State() == Run(old(State()), run) && SoundRun(old(State()), run)
      ensures job.Some? == old(job.Some?)
    {
      hide State, Apply, Sound;
      run := [];
      var n: int := *;
      while n > 0
        invariant State() == Run(old(State()), run) && SoundRun(old(State()), run)
        invariant job.Some? == old(job.Some?)
      {
        var e := Other();
        RunAppend(old(State()), run, e);
        SoundAppend(old(State()), run, e);
        run := run + [e];
        n := n - 1;
      }
    }

    method StretchDirty(area: Rect)
      modifies this`left, this`right, this`top, this`bottom
      ensures Rect(left, top, right, bottom) == old(Rect(left, top, right, bottom)).Stretch(area)
    {
      if top > area.top { top := area.top; }
      if bottom < area.bottom { bottom := area.bottom; }
      if left > area.left { left := area.left; }
      if right < area.right { right := area.right; }
    }

    /** The unsync flag is counted down; when it was 1 the whole display becomes dirty. */
    method MergeDirty(area: Rect)
      modifies this`left, this`right, this`top, this`bottom, this`unsyncFlag
      ensures Rect(left, top, right, bottom) == Merged(old(Rect(left, top, right, bottom)), old(unsyncFlag),
          area) && unsyncFlag == old(unsyncFlag) - 1
    {
      unsyncFlag := unsyncFlag - 1;
      if unsyncFlag == 0 {
        left, right, top, bottom := 0, WIDTH - 1, 0, HEIGHT - 1;
      } else {
        StretchDirty(area);
      }
    }

    /** _display_update up to the send: the flag is consumed, the dirty rectangle stretched. */
    method Enter(area: Rect, hint: Hint, settled: multiset<Rect>)
      requires job.None?
      modifies this`left, this`right, this`top, this`bottom, this`dirtyFlag, this`unsyncFlag, this`pending, this`job
      ensures State() == AfterBegin(old(State()), area, hint, settled)
    {
      hide Rect.Stretch, Merged, AfterBegin, Plane;
      BeginCases(State(), area, hint, settled);
      pending := pending - settled;
      if !binded {
        return;
      }
      MergeDirty(area);
      if top > bottom || left > right {
        return;
      }
      dirtyFlag := true;
      job := Some(Job(area, hint, if hint.Plain? then framebuffer else Plane(hint.color)));
    }

    /** _display_update from the send's result on. */
    method Settle(ok: bool, garbage: Image)
      requires job.Some?
      modifies this`left, this`right, this`top, this`bottom, this`dirtyFlag, this`screen, this`job
      ensures State() == AfterFinish(old(State()), ok, garbage) && job.None?
    {
      if ok {
        screen := Paint(screen, Target(State()), job.value.image);
        ClearDirtyRect();
      } else {
        screen := Paint(screen, Target(State()), garbage);
      }
      job := None;
    }

    /** _display_update, called for the writers of `settled`; the result of the send and what a failed one leaves on the
        screen are up to the device, and others go on meanwhile. */
    method DisplayUpdate(x: int, y: int, width: int, height: int, hint: Hint, settled: multiset<Rect>)
      returns (ghost run: seq<Event>)
      requires job.None?
      modifies this
      ensures State() == Run(old(State()), run) && job.None?
      ensures run != [] && run[0] == Begin(Rect(x, y, width + x - 1, height + y - 1), hint, settled)
      ensures Sound(old(State()), run[0]) ==> SoundRun(old(State()), run)
      ensures Coherent(old(State())) && Sound(old(State()), run[0]) ==> Coherent(State())
    {
      hide Coherent, AfterBegin, AfterFinish, Sound, Run, SoundRun;
      ghost var s0 := State();
      var area := Rect(x, y, width + x - 1, height + y - 1);
      Enter(area, hint, settled);
      run := [Begin(area, hint, settled)];
      Entered(s0, area, hint, settled);
      if job.Some? {
        ghost var others := Others();
        var ok: bool, garbage: Image := *, *;
        Settle(ok, garbage);
        Settled(s0, area, hint, settled, others, ok, garbage);
        run := [Begin(area, hint, settled)] + others + [Finish(ok, garbage)];
      }
      if Coherent(s0) && Sound(s0, run[0]) {
        RunCoherent(s0, run);
      }
    }

    /** fbhandler_on_all_transfer_done */
    method AllTransferDone() returns (ghost run: seq<Event>)
      requires job.None? && Coherent(State())
      modifies this
      ensures State() == Run(old(State()), run) && SoundRun(old(State()), run) && Coherent(State()) && job.None?
      ensures run == [] <==> !FlushNeeded(old(State()))
      ensures run != [] ==> run[0] == Begin(Whole, Plain, multiset{})
    {
      hide Coherent, Run, SoundRun;
      run := [];
      NothingYet(State());
      if dirtyFlag || unsyncFlag == 1 {
        run := DisplayUpdate(0, 0, WIDTH, HEIGHT, Plain, multiset{});
      }
    }

    /** _display_defio_handler: it is called for the writers of the listed pages, and whatever it does they are not asked
        for again. It keeps coherence when the addresses of the pages tell where they lie in the framebuffer. */
    method DefioHandler(pages: seq<Page>, mmioStart: nat) returns (ghost run: seq<Event>)
      requires job.None? && Coherent(State())
      modifies this
      ensures State() == Run(old(State()), run) && job.None? && run != []
      ensures if old(binded) then
                exists top, bottom :: RowsOf(pages, mmioStart, top, bottom)
                  && run[0] == Begin(Rect(0, top, WIDTH - 1, bottom), Plain, Writers(pages))
              else
                run == [Dismiss(Writers(pages))]
      ensures !old(binded) || AllInPlace(pages, mmioStart) ==> SoundRun(old(State()), run) && Coherent(State())
    {
      hide Coherent, Run, SoundRun, RowsOf, Writers, AllInPlace;
      if !binded {
        ghost var s0 := State();
        run := [Dismiss(Writers(pages))];
        pending := pending - Writers(pages);
        Dismissed(s0, Writers(pages));
        return;
      }
      var top, bottom := DefioRows(pages, mmioStart);
      if AllInPlace(pages, mmioStart) {
        HandlerSettles(pages, mmioStart, top, bottom);
      }
      run := DisplayUpdate(0, top, WIDTH, bottom - top + 1, Plain, Writers(pages));
    }
  }

  // ---------------------------------------------------------------- deferred I/O

  const PAGE_SIZE := 4096
  const LINE_LENGTH := 640                     // octets in a row
  const SMEM_LEN := HEIGHT * LINE_LENGTH

  /** A page of the mapped framebuffer: its physical address, and the offset in the framebuffer that it holds. */
  datatype Page = Page(address: nat, at: nat) {
    predicate Aligned() {
      address % PAGE_SIZE == 0 && at % PAGE_SIZE == 0 && at < SMEM_LEN
    }

    /** The pixel's octets lie in the page. */
    predicate Holds(p: Pixel) {
      Whole.Has(p) && at <= p.y * LINE_LENGTH + 2 * p.x < at + PAGE_SIZE
    }

    /** The rows of its pixels, in which somebody who writes through the mapping leaves an update to be entered. */
    function Rows(): Rect {
      var last := (at + PAGE_SIZE - 1) / LINE_LENGTH;
      Rect(0, at / LINE_LENGTH, WIDTH - 1, if last < HEIGHT then last else HEIGHT - 1)
    }

    /** The handler's test. */
    predicate InRange(mmioStart: nat) {
      mmioStart <= address < mmioStart + SMEM_LEN
    }

    /** The handler's test passes, and the offset that it computes is where the page is. */
    predicate InPlace(mmioStart: nat) {
      InRange(mmioStart) && address - mmioStart == at
    }

    function FirstRow(mmioStart: nat): int {
      (address - mmioStart) / LINE_LENGTH
    }

    function LastRow(mmioStart: nat): int {
      var row := (address - mmioStart + PAGE_SIZE + LINE_LENGTH - 1) / LINE_LENGTH;
      if row < HEIGHT then row else HEIGHT - 1
    }
  }

  function Writers(pages: seq<Page>): multiset<Rect> {
    multiset(seq(|pages|, i requires 0 <= i < |pages| => pages[i].Rows()))
  }

  predicate AllInPlace(pages: seq<Page>, mmioStart: nat) {
    forall i :: 0 <= i < |pages| ==> pages[i].InPlace(mmioStart)
  }

  /** From the first row to the last of the pages that pass the test, and the wrong way round when none does. */
  ghost predicate RowsOf(pages: seq<Page>, mmioStart: nat, top: int, bottom: int) {
    && (forall i :: 0 <= i < |pages| && pages[i].InRange(mmioStart) ==>
          top <= pages[i].FirstRow(mmioStart) < HEIGHT && pages[i].LastRow(mmioStart) <= bottom)
    && ((top == HEIGHT && bottom == 0)
        || (exists i :: 0 <= i < |pages| && pages[i].InRange(mmioStart) && top == pages[i].FirstRow(mmioStart)))
    && ((top == HEIGHT && bottom == 0)
        || (exists i :: 0 <= i < |pages| && pages[i].InRange(mmioStart) && bottom == pages[i].LastRow(mmioStart)))
  }

  /** The loop of _display_defio_handler. */
  method DefioRows(pages: seq<Page>, mmioStart: nat) returns (top: int, bottom: int)
    ensures RowsOf(pages, mmioStart, top, bottom)
  {
    top, bottom := HEIGHT, 0;
    ghost var first: nat, last: nat := 0, 0;
    for i := 0 to |pages|
      invariant forall j :: 0 <= j < i && pages[j].InRange(mmioStart) ==>
                  top <= pages[j].FirstRow(mmioStart) < HEIGHT && pages[j].LastRow(mmioStart) <= bottom
      invariant (top == HEIGHT && bottom == 0)
                || (first < i && pages[first].InRange(mmioStart) && top == pages[first].FirstRow(mmioStart)
                    && last < i && pages[last].InRange(mmioStart) && bottom > 0
                    && pages[last].LastRow(mmioStart) == if bottom < HEIGHT then bottom else HEIGHT - 1)
    {
      var pageStart := pages[i].address;
      if pageStart < mmioStart || pageStart >= mmioStart + SMEM_LEN {
        continue;
      }
      var offset := pageStart - mmioStart;
      var current := offset / LINE_LENGTH;
      if top > current {
        top, first := current, i;
      }
      current := (offset + PAGE_SIZE + LINE_LENGTH - 1) / LINE_LENGTH;
      if bottom < current {
        bottom, last := current, i;
      }
    }
    if bottom >= HEIGHT {
      bottom := HEIGHT - 1;
    }
  }

  /** When every page is where its address says, the update takes in all that was written. */
  lemma HandlerSettles(pages: seq<Page>, mmioStart: nat, top: int, bottom: int)
    requires RowsOf(pages, mmioStart, top, bottom) && AllInPlace(pages, mmioStart)
    ensures Settles(Rect(0, top, WIDTH - 1, bottom), Writers(pages)) && Rect(0, top, WIDTH - 1, bottom).OnScreen()
  {
    forall r, p | r in Writers(pages) && Whole.Has(p) && r.Has(p)
      ensures Rect(0, top, WIDTH - 1, bottom).Has(p)
    {
      var i :| 0 <= i < |pages| && r == pages[i].Rows();
      assert pages[i].InPlace(mmioStart);
      assert pages[i].FirstRow(mmioStart) <= p.y <= pages[i].LastRow(mmioStart);
    }
  }

  /** A writer changes no more than the rows of the page. */
  lemma HeldInRows(page: Page, p: Pixel)
    requires page.Holds(p)
    ensures page.Rows().Has(p) && page.Rows().OnScreen() && 0 <= p.x < WIDTH
  {
  }

  /** The pixel whose octets stand at an offset. */
  function PixelAt(offset: nat): (p: Pixel)
    requires offset % 2 == 0 && offset < SMEM_LEN
    ensures Whole.Has(p) && p.y * LINE_LENGTH + 2 * p.x == offset && 0 <= p.x
  {
    Pixel(offset % LINE_LENGTH / 2, offset / LINE_LENGTH)
  }

  /** The offset behind the last pixel of a page. */
  function End(page: Page): nat {
    if page.at + PAGE_SIZE < SMEM_LEN then page.at + PAGE_SIZE else SMEM_LEN
  }

  /** The first and the last pixel of a page. */
  lemma Ends(page: Page)
    requires page.Aligned()
    ensures page.at % 2 == 0 && page.at < SMEM_LEN && (End(page) - 2) % 2 == 0 && page.at <= End(page) - 2 < SMEM_LEN
    ensures page.Holds(PixelAt(page.at)) && page.Holds(PixelAt(End(page) - 2))
  {
    hide PixelAt;
    EvenOffset(page.at);
  }

  lemma EvenOffset(at: nat)
    requires at % PAGE_SIZE == 0
    ensures at % 2 == 0 && (at + PAGE_SIZE - 2) % 2 == 0
  {
    assert at == 2 * (2048 * (at / PAGE_SIZE));
  }

  lemma NextPage(a: nat, b: nat)
    requires a % PAGE_SIZE == 0 && b % PAGE_SIZE == 0 && a < b
    ensures a + PAGE_SIZE <= b
  {
  }

  lemma OffsetAligned(page: Page, mmioStart: nat)
    requires page.Aligned() && mmioStart % PAGE_SIZE == 0 && mmioStart <= page.address
    ensures (page.address - mmioStart) % PAGE_SIZE == 0
  {
  }

  /** An offset too large begins below the page's first row, one too small ends above its last. */
  lemma WrongRows(page: Page, mmioStart: nat)
    requires page.Aligned() && mmioStart % PAGE_SIZE == 0 && page.InRange(mmioStart) && !page.InPlace(mmioStart)
    ensures page.at % 2 == 0 && page.at < SMEM_LEN && (End(page) - 2) % 2 == 0 && page.at <= End(page) - 2 < SMEM_LEN
    ensures page.FirstRow(mmioStart) > PixelAt(page.at).y || page.LastRow(mmioStart) < PixelAt(End(page) - 2).y
  {
    Ends(page);
    OffsetAligned(page, mmioStart);
    var offset: nat := page.address - mmioStart;
    if offset < page.at {
      NextPage(offset, page.at);
      EndsAbove(offset, page.at, PixelAt(End(page) - 2));
    } else {
      NextPage(page.at, offset);
      BeginsBelow(offset, page.at, PixelAt(page.at));
    }
  }

  lemma BeginsBelow(offset: nat, at: nat, p: Pixel)
    requires at + PAGE_SIZE <= offset && p.y * LINE_LENGTH <= at
    ensures offset / LINE_LENGTH > p.y
  {
  }

  lemma EndsAbove(offset: nat, at: nat, p: Pixel)
    requires offset + PAGE_SIZE <= at < SMEM_LEN && at % PAGE_SIZE == 0 && Whole.Has(p)
    requires p.y * LINE_LENGTH + 2 * p.x >= (if at + PAGE_SIZE < SMEM_LEN then at + PAGE_SIZE else SMEM_LEN) - 2
    ensures (offset + PAGE_SIZE + LINE_LENGTH - 1) / LINE_LENGTH < p.y
  {
    assert at <= 37 * PAGE_SIZE;
  }

  /** In place, the rows begin and end where the page does. */
  lemma RightRows(page: Page, mmioStart: nat, p: Pixel)
    requires page.InPlace(mmioStart) && page.Holds(p)
    ensures page.FirstRow(mmioStart) <= p.y <= page.LastRow(mmioStart)
  {
  }

  /** Exactly when the update for a page takes in all its pixels. */
  lemma PageCoveredIff(page: Page, mmioStart: nat, top: int, bottom: int)
    requires page.Aligned() && mmioStart % PAGE_SIZE == 0 && RowsOf([page], mmioStart, top, bottom)
    ensures (forall p :: page.Holds(p) ==> Rect(0, top, WIDTH - 1, bottom).Has(p)) <==> page.InPlace(mmioStart)
  {
    assert [page][0] == page;
    Ends(page);
    hide Page.Holds, Page.FirstRow, Page.LastRow, Page.Aligned, PixelAt, End;
    if page.InPlace(mmioStart) {
      forall p | page.Holds(p)
        ensures Rect(0, top, WIDTH - 1, bottom).Has(p)
      {
        HeldInRows(page, p);
        RightRows(page, mmioStart, p);
      }
    } else if page.InRange(mmioStart) {
      WrongRows(page, mmioStart);
    }
  }

  /** When no page passes the test, a screen without a dirty pixel stays so, whatever the pages' writers have changed:
      nothing is sent and nobody will ask again. */
  lemma SkippedPages(s: State, pages: seq<Page>, mmioStart: nat, top: int, bottom: int, p: Pixel)
    requires RowsOf(pages, mmioStart, top, bottom) && forall i :: 0 <= i < |pages| ==> !pages[i].InRange(mmioStart)
    requires s.job.None? && s.bound && s.unsync != 1 && (s.dirty == Clean || s.dirty == Rect(0, HEIGHT, WIDTH - 1, 0))
    requires s.framebuffer(p) != s.screen(p) && !Waiting(s.(pending := s.pending - Writers(pages)), p)
    ensures var t := AfterBegin(s, Rect(0, top, WIDTH - 1, bottom), Plain, Writers(pages));
            && t.job.None? && t.dirty == Rect(0, HEIGHT, WIDTH - 1, 0) && t.unsync == s.unsync - 1
            && t.screen == s.screen && t.framebuffer == s.framebuffer
            && t.pending == s.pending - Writers(pages)
            && (t.unsync != 1 ==> !Covered(t, p))
  {
  }

  /** A device is bound and in step, a page is written through the mapping, and the deferred handler runs for it with the
      mmio_start that nobody sets. */
  function MappedWrite(shown: Image, page: Page, image: Image, top: int, bottom: int): seq<Event> {
    InStep(shown) +
    [Write(page.Rows(), image), Begin(Rect(0, top, WIDTH - 1, bottom), Plain, multiset{page.Rows()})]
  }

  /** With the framebuffer's pages anywhere but in the first SMEM_LEN octets of physical memory, that run begins with the
      reset state and ends with a wrong pixel that nothing will bring about. */
  lemma MappedWriteLost(s: State, shown: Image, page: Page, image: Image, p: Pixel, top: int, bottom: int)
    requires Fresh(s) && s.pending == multiset{} && page.address >= SMEM_LEN && RowsOf([page], 0, top, bottom)
    requires page.Holds(p) && image(p) != s.framebuffer(p)
    ensures var events := MappedWrite(shown, page, image, top, bottom);
            && SoundRun(s, events[..5])
            && var t := Run(s, events);
               && t.framebuffer(p) != t.screen(p) && t.dirty.Empty() && t.unsync < 1
               && t.pending == multiset{} && t.job.None? && t.bound && !t.owed
  {
    var events := MappedWrite(shown, page, image, top, bottom);
    assert events == InStep(shown) + events[4..];
    InStepState(s, shown, events[4..]);
    assert events[..6] == events;
    HeldInRows(page, p);
    assert [page][0] == page;
    hide Run, SoundRun, Page.Holds, Page.Rows;
    SoundTake(s, events, 4);
    RunTake(s, events, 5);
  }

  lemma Dismissed(s: State, settled: multiset<Rect>)
    requires Coherent(s) && !s.bound
    ensures Run(s, [Dismiss(settled)]) == s.(pending := s.pending - settled)
    ensures SoundRun(s, [Dismiss(settled)]) && Coherent(s.(pending := s.pending - settled))
  {
    var t := Apply(s, Dismiss(settled));
    assert Run(t, []) == t && SoundRun(t, []);
  }

  lemma BeginCases(s: State, area: Rect, hint: Hint, settled: multiset<Rect>)
    ensures var left, merged := s.pending - settled, Merged(s.dirty, s.unsync, area);
            AfterBegin(s, area, hint, settled) ==
              if !s.bound then
                State(s.dirty, s.dirtyFlag, s.unsync, s.bound, s.owed, s.framebuffer, s.screen, left, s.job)
              else if merged.Empty() then
                State(merged, s.dirtyFlag, s.unsync - 1, s.bound, s.owed, s.framebuffer, s.screen, left, s.job)
              else
                State(merged, true, s.unsync - 1, s.bound, s.owed, s.framebuffer, s.screen, left,
                      Some(Job(area, hint, if hint.Plain? then s.framebuffer else Plane(hint.color))))
  {
  }

  lemma Entered(s: State, area: Rect, hint: Hint, settled: multiset<Rect>)
    requires s.job.None?
    ensures Run(s, [Begin(area, hint, settled)]) == AfterBegin(s, area, hint, settled)
    ensures Sound(s, Begin(area, hint, settled)) ==> SoundRun(s, [Begin(area, hint, settled)])
  {
    var t := Apply(s, Begin(area, hint, settled));
    assert Run(t, []) == t && SoundRun(t, []);
  }

  /** A whole update is its beginning, what others did, and its end. */
  lemma Settled(s: State, area: Rect, hint: Hint, settled: multiset<Rect>, others: seq<Event>, ok: bool, garbage: Image)
    requires s.job.None?
    requires var t := AfterBegin(s, area, hint, settled);
             SoundRun(t, others) && Run(t, others).job.Some?
    ensures var run := [Begin(area, hint, settled)] + others + [Finish(ok, garbage)];
            && Run(s, run) == AfterFinish(Run(AfterBegin(s, area, hint, settled), others), ok, garbage)
            && (Sound(s, run[0]) ==> SoundRun(s, run))
  {
    var begin, finish, t := Begin(area, hint, settled), Finish(ok, garbage), AfterBegin(s, area, hint, settled);
    RunAppend(t, others, finish);
    SoundAppend(t, others, finish);
    assert ([begin] + others + [finish])[1..] == others + [finish];
    assert Apply(s, begin) == t;
  }
}
