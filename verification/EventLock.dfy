/** The hand-over of event handling between threads: the recursive events lock, the count of threads modifying the poll
    set, and the condition on which the other threads wait. A thread is what it still has to do, one atomic step after
    the other; any number of threads interleave in any way. */
module EventLock {
  import opened Bytes

  /** What a thread may call; Close with the do_close inside, Manual for an application that takes the lock itself. A
      thread handles events quietly until one of its callbacks has taken and left the lock again. */
  datatype Call = Notify | Close | HandleEvents | Manual

  datatype Instr =
    | IncModify | WritePipe(call: Call) | DecModify
    | Acquire | Activate | Clear | Release           // events_lock and event_handler_active
    | TakeWaiters | Broadcast | DropWaiters          // event_waiters_lock and its condition
    | CheckModify | TryAcquire                       // libusb_try_lock_events
    | RecheckModify | RecheckActive                  // libusb_event_handler_active
    | Sleep | Asleep                                 // libusb_wait_for_event
    | Handle(quiet: bool)                            // handle_events, callbacks included

  datatype Code = Done | Then(head: Instr, tail: Code)

  function LockEvents(k: Code): Code {
    Then(Acquire, Then(Activate, k))
  }

  function Shout(k: Code): Code {
    Then(TakeWaiters, Then(Broadcast, Then(DropWaiters, k)))
  }

  function UnlockEvents(k: Code): Code {
    Then(Clear, Then(Release, Shout(k)))
  }

  function Entry(call: Call, k: Code): Code {
    match call
    case Notify => Then(IncModify, Then(WritePipe(call), k))
    case Close => Then(IncModify, Then(WritePipe(call), k))
    case HandleEvents => Then(CheckModify, k)
    case Manual => LockEvents(Then(Handle(true), UnlockEvents(k)))
  }

  /** What a thread goes back to when a call has taken and left the lock: the handling it was called from, if any. */
  function Disturbed(k: Code): Code {
    if Handling(k) then Then(Handle(false), k.tail) else k
  }

  predicate Handling(k: Code) {
    k.Then? && k.head.Handle?
  }

  /** After the write to the control pipe. */
  function Written(call: Call, ok: bool, k: Code): Code {
    if ok then LockEvents(if call.Close? then LockEvents(UnlockEvents(Then(DecModify, UnlockEvents(Disturbed(k)))))
                          else Then(DecModify, UnlockEvents(Disturbed(k))))
    else if call.Close? then LockEvents(UnlockEvents(Then(DecModify, Disturbed(k))))
    else Then(DecModify, k)
  }

  function Wait(k: Code): Code {
    Then(TakeWaiters, Then(RecheckModify, Then(DropWaiters, k)))
  }

  /** `owner` holds the events lock `depth` times; `waiters` holds the event waiters lock. */
  datatype State = State(code: seq<Code>, modifiers: nat, owner: Option<nat>, depth: nat, active: bool,
                         waiters: Option<nat>)

  /** Go: the instruction as it is. Fail: the write fails. Enough: the caller's completion flag is set, or a wait times
      out. Nest: a callback notifies or closes. Complete: a transfer completes. Start: an idle thread calls in. */
  datatype Choice = Go | Fail | Enough | Nest(call: Call) | Complete | Start(call: Call)

  function Idle(n: nat): State {
    State(seq(n, _ => Done), 0, None, 0, false, None)
  }

  predicate Enabled(s: State, t: nat, c: Choice) {
    && t < |s.code|
    && match s.code[t]
       case Done => c.Start?
       case Then(i, _) =>
         match c
         case Go =>
           && (i == Acquire ==> s.owner.None? || s.owner == Some(t))
           && (i == TakeWaiters ==> s.waiters.None?)
           && i != Asleep
           && (i == Release ==> s.depth > 0)
           && (i == DecModify ==> s.modifiers > 0)
         case Fail => i.WritePipe?
         case Enough => i == RecheckModify || i == Asleep
         case Nest(call) => i.Handle? && (call.Notify? || call.Close?)
         case Complete => i.Handle?
         case Start(_) => false
  }

  function Set(s: State, t: nat, code: Code): State
    requires t < |s.code|
  {
    s.(code := s.code[t := code])
  }

  /** Everyone asleep has to take the waiters lock again. */
  function Woken(code: Code): Code {
    if code.Then? && code.head == Asleep then Then(TakeWaiters, code.tail) else code
  }

  function WakeAll(codes: seq<Code>): (r: seq<Code>)
    ensures |r| == |codes|
  {
    seq(|codes|, t requires 0 <= t < |codes| => Woken(codes[t]))
  }

  function Step(s: State, t: nat, c: Choice): State
    requires Enabled(s, t, c)
  {
    match c
    case Start(call) => Set(s, t, Entry(call, Done))
    case Fail => Set(s, t, Written(s.code[t].head.call, false, s.code[t].tail))
    case Nest(call) => Set(s, t, Entry(call, s.code[t]))
    case Complete => Set(s, t, Shout(s.code[t]))
    case Enough =>
      if s.code[t].head == RecheckModify then Set(s, t, s.code[t].tail) else Set(s, t, Then(TakeWaiters, s.code[t].tail))
    case Go =>
      var k := s.code[t].tail;
      var next := Set(s, t, k);
      match s.code[t].head
      case IncModify => next.(modifiers := s.modifiers + 1)
      case WritePipe(call) => Set(s, t, Written(call, true, k))
      case DecModify => next.(modifiers := s.modifiers - 1)
      case Acquire => next.(owner := Some(t), depth := s.depth + 1)
      case Activate => next.(active := true)
      case Clear => next.(active := false)
      case Release => next.(owner := if s.depth == 1 then None else s.owner, depth := s.depth - 1)
      case TakeWaiters => next.(waiters := Some(t))
      case Broadcast => next.(code := WakeAll(next.code))
      case DropWaiters => next.(waiters := None)
      case CheckModify => Set(s, t, if s.modifiers > 0 then Wait(k) else Then(TryAcquire, k))
      case TryAcquire =>
        if s.owner.None? then
          Set(s, t, Then(Activate, Then(Handle(true), UnlockEvents(k)))).(owner := Some(t), depth := s.depth + 1)
        else Set(s, t, Wait(k))
      case RecheckModify => Set(s, t, if s.modifiers > 0 then Then(Sleep, k) else Then(RecheckActive, k))
      case RecheckActive =>
        Set(s, t, if s.active then Then(Sleep, k) else Then(DropWaiters, Then(CheckModify, Done)))
      case Sleep => Set(s, t, Then(Asleep, k)).(waiters := None)
      case Handle(_) => next
      case Asleep => next
  }

  // ---------------------------------------------------------------- what every step keeps

  /** Between the increment of pollfd_modify and its decrement. */
  predicate InSection(code: Code) {
    code.Then? && (code.head.WritePipe? || code.head == DecModify || (code.head != IncModify && InSection(code.tail)))
  }

  predicate Starts(code: Code, i: Instr) {
    code.Then? && code.head == i
  }

  /** A broadcast is still to come: the thread's code holds one, or will once its write to the pipe is done. */
  predicate Owes(code: Code) {
    code.Then? && (code.head == Broadcast || code.head.WritePipe? || Owes(code.tail))
  }

  /** Asleep, or about to fall asleep with the decision made. */
  predicate Awaiting(code: Code) {
    code.Then? && (code.head == Sleep || code.head == Asleep)
  }

  /** The code makes sense for a thread that holds the events lock `d` times and the waiters lock if `w`. */
  predicate Fits(code: Code, d: nat, w: bool) {
    match code
    case Done => d == 0 && !w
    case Then(i, k) =>
      && (Starts(k, Release) ==> i == Clear) && !Awaiting(k)
      && match i
         case IncModify => !w && k.Then? && k.head.WritePipe? && Fits(k, d, w)
         case WritePipe(_) => !w && !InSection(k) && Fits(k, d, w) && if d == 0 then k == Done else Handling(k)
         case DecModify => !w && !InSection(k) && Fits(k, d, w)
         case Acquire => !w && Starts(k, Activate) && Fits(k, d + 1, w)
         case Activate => !w && d > 0 && Fits(k, d, w)
         case Clear => !w && d > 0 && Starts(k, Release) && Fits(k, d, w)
         case Release => !w && d > 0 && Owes(k) && Fits(k, d - 1, w)
         case TakeWaiters => !w && Fits(k, d, true)
         case Broadcast => w && Fits(k, d, w)
         case DropWaiters => w && Fits(k, d, false)
         case CheckModify => !w && d == 0 && k == Done
         case TryAcquire => !w && d == 0 && k == Done
         case RecheckModify => w && d == 0 && k == Then(DropWaiters, Done)
         case RecheckActive => w && d == 0 && k == Then(DropWaiters, Done)
         case Sleep => w && d == 0 && k == Then(DropWaiters, Done)
         case Asleep => !w && d == 0 && k == Then(DropWaiters, Done)
         case Handle(_) => !w && d == 1 && k == UnlockEvents(Done) && !InSection(k) && Fits(k, d, w)
  }

  function Depth(s: State, t: nat): nat {
    if s.owner == Some(t) then s.depth else 0
  }

  function Sections(codes: seq<Code>): nat {
    if codes == [] then 0 else Sections(codes[..|codes| - 1]) + if InSection(codes[|codes| - 1]) then 1 else 0
  }

  ghost predicate Orderly(s: State) {
    && (forall t {:trigger s.code[t]} :: 0 <= t < |s.code| ==> Fits(s.code[t], Depth(s, t), s.waiters == Some(t)))
    && (s.owner.Some? <==> s.depth > 0)
    && (s.owner.Some? ==> s.owner.value < |s.code|)
    && (s.waiters.Some? ==> s.waiters.value < |s.code|)
    && (s.active ==> s.owner.Some? && !Starts(s.code[s.owner.value], Release))
    && s.modifiers == Sections(s.code)
  }

  /** A call that goes through the lock only wears the handling behind it. */
  lemma DisturbedCode(k: Code)
    ensures Owes(Disturbed(k)) == Owes(k) && InSection(Disturbed(k)) == InSection(k)
    ensures Awaiting(Disturbed(k)) == Awaiting(k) && Starts(Disturbed(k), Release) == Starts(k, Release)
  {
  }

  lemma DisturbedFits(k: Code, d: nat, w: bool)
    ensures Fits(Disturbed(k), d, w) == Fits(k, d, w)
  {
  }

  lemma FitsLock(k: Code, d: nat)
    requires Fits(k, d + 1, false) && !Starts(k, Release) && !Awaiting(k)
    ensures Fits(LockEvents(k), d, false)
  {
  }

  lemma FitsShout(k: Code, d: nat)
    requires Fits(k, d, false) && !Starts(k, Release) && !Awaiting(k)
    ensures Fits(Shout(k), d, false)
  {
    assert Fits(Then(DropWaiters, k), d, true);
    assert Fits(Then(Broadcast, Then(DropWaiters, k)), d, true);
  }

  lemma FitsUnlock(k: Code, d: nat)
    requires Fits(k, d, false) && !Starts(k, Release) && !Awaiting(k)
    ensures Fits(UnlockEvents(k), d + 1, false)
  {
    FitsShout(k, d);
    assert Fits(Then(Release, Shout(k)), d + 1, false);
  }

  lemma SectionOfUnlock(k: Code)
    ensures InSection(UnlockEvents(k)) == InSection(k)
  {
    assert InSection(Shout(k)) == InSection(k) by {
      assert InSection(Then(Broadcast, Then(DropWaiters, k))) == InSection(k);
    }
  }

  lemma FitsWritten(call: Call, ok: bool, k: Code, d: nat)
    requires Fits(k, d, false) && !Starts(k, Release) && !Awaiting(k) && !InSection(k)
    ensures Fits(Written(call, ok, k), d, false) && InSection(Written(call, ok, k))
  {
    hide Disturbed, Owes;
    DisturbedCode(k);
    DisturbedFits(k, d, false);
    var back := Disturbed(k);
    var dec := if ok then Then(DecModify, UnlockEvents(back)) else Then(DecModify, back);
    SectionOfUnlock(back);
    if ok { FitsUnlock(back, d); }
    var e := if ok then d + 1 else d;
    assert Fits(dec, e, false);
    FitsUnlock(dec, e);
    SectionOfUnlock(dec);
    FitsLock(UnlockEvents(dec), e);
    assert InSection(LockEvents(UnlockEvents(dec)));
    if ok {
      FitsLock(LockEvents(UnlockEvents(dec)), d);
      FitsLock(dec, d);
    }
  }

  lemma FitsEntry(call: Call, k: Code, d: nat)
    requires Fits(k, d, false) && !Starts(k, Release) && !Awaiting(k) && !InSection(k)
    requires if call.HandleEvents? || call.Manual? || d == 0 then k == Done && d == 0 else Handling(k)
    ensures Fits(Entry(call, k), d, false) && !InSection(Entry(call, k))
  {
    if call.Manual? {
      FitsUnlock(k, d);
      SectionOfUnlock(k);
      assert Fits(Then(Handle(true), UnlockEvents(k)), d + 1, false);
      FitsLock(Then(Handle(true), UnlockEvents(k)), d);
    } else if !call.HandleEvents? {
      assert Fits(Then(WritePipe(call), k), d, false);
    }
  }

  lemma {:induction false} SectionsSet(codes: seq<Code>, t: nat, code: Code)
    requires t < |codes|
    ensures Sections(codes[t := code]) + (if InSection(codes[t]) then 1 else 0)
         == Sections(codes) + (if InSection(code) then 1 else 0)
  {
    var init := codes[..|codes| - 1];
    if t < |codes| - 1 {
      assert codes[t := code][..|codes| - 1] == init[t := code];
      SectionsSet(init, t, code);
    } else {
      assert codes[t := code][..|codes| - 1] == init;
    }
  }

  lemma {:induction false} SectionsWoken(codes: seq<Code>)
    ensures Sections(WakeAll(codes)) == Sections(codes)
  {
    if codes != [] {
      assert WakeAll(codes)[..|codes| - 1] == WakeAll(codes[..|codes| - 1]);
      SectionsWoken(codes[..|codes| - 1]);
    }
  }

  predicate Mine(who: Option<nat>, t: nat) {
    who == None || who == Some(t)
  }

  /** A step of thread t: it changes its own code, takes or gives only locks that are free or its own, and what it does
      to the flag and the count fits its code. */
  lemma Transition(s: State, s': State, t: nat)
    requires Orderly(s) && t < |s.code| == |s'.code| && s'.code == s.code[t := s'.code[t]]
    requires Fits(s'.code[t], Depth(s', t), s'.waiters == Some(t))
    requires (s'.owner == s.owner && s'.depth == s.depth) || (Mine(s.owner, t) && Mine(s'.owner, t))
    requires s'.waiters == s.waiters || (Mine(s.waiters, t) && Mine(s'.waiters, t))
    requires s'.owner.Some? <==> s'.depth > 0
    requires s'.active ==> s'.owner.Some? && (s.active || s'.owner == Some(t))
    requires s'.active && s'.owner == Some(t) ==> !Starts(s'.code[t], Release)
    requires s'.modifiers + (if InSection(s.code[t]) then 1 else 0) == s.modifiers + if InSection(s'.code[t]) then 1 else 0
    ensures Orderly(s')
  {
    SectionsSet(s.code, t, s'.code[t]);
    hide Fits, InSection, Sections;
    forall u | 0 <= u < |s.code|
      ensures Fits(s'.code[u], Depth(s', u), s'.waiters == Some(u))
    {
      assert Fits(s.code[u], Depth(s, u), s.waiters == Some(u));
    }
  }

  /** A step that only changes what its thread has to do. */
  lemma LocalStep(s: State, t: nat, code: Code)
    requires Orderly(s) && t < |s.code|
    requires Fits(code, Depth(s, t), s.waiters == Some(t)) && InSection(code) == InSection(s.code[t])
    requires s.active ==> !Starts(code, Release)
    ensures Orderly(Set(s, t, code))
  {
    hide Fits, InSection;
    Transition(s, Set(s, t, code), t);
  }

  /** What the code of the stepping thread says. */
  lemma CodeOf(s: State, t: nat)
    requires Orderly(s) && t < |s.code|
    ensures Fits(s.code[t], Depth(s, t), s.waiters == Some(t))
    ensures s.code[t].Then? && InSection(s.code[t]) ==> s.modifiers > 0
  {
    SectionsSet(s.code, t, Done);
  }

  /** Flag, count and locks. */
  lemma SharedStep(s: State, t: nat)
    requires Orderly(s) && Enabled(s, t, Go)
    requires s.code[t].head in {IncModify, DecModify, Acquire, Activate, Clear, Release, TakeWaiters, DropWaiters, Sleep}
    ensures Orderly(Step(s, t, Go))
  {
    CodeOf(s, t);
    Transition(s, Step(s, t, Go), t);
  }

  lemma FitsHandling()
    ensures var code := Then(Activate, Then(Handle(true), UnlockEvents(Done)));
            Fits(code, 1, false) && !InSection(code)
  {
    FitsUnlock(Done, 0);
    SectionOfUnlock(Done);
    assert Fits(Then(Handle(true), UnlockEvents(Done)), 1, false);
  }

  lemma TryAcquireStep(s: State, t: nat)
    requires Orderly(s) && Enabled(s, t, Go) && s.code[t].head == TryAcquire
    ensures Orderly(Step(s, t, Go))
  {
    CodeOf(s, t);
    if s.owner.None? {
      TakenStep(s, t);
    } else {
      FitsWait();
      LocalStep(s, t, Wait(Done));
    }
  }

  lemma TakenStep(s: State, t: nat)
    requires Orderly(s) && Enabled(s, t, Go) && s.code[t] == Then(TryAcquire, Done) && s.owner.None? && s.waiters != Some(t)
    ensures Orderly(Step(s, t, Go))
  {
    hide Fits, InSection, UnlockEvents, Wait;
    FitsHandling();
    assert !InSection(s.code[t]) by { NoSectionHere(); }
    Transition(s, Step(s, t, Go), t);
  }

  lemma NoSectionHere()
    ensures !InSection(Then(TryAcquire, Done))
  {
  }

  lemma FitsWait()
    ensures Fits(Wait(Done), 0, false) && !InSection(Wait(Done))
  {
    assert Fits(Then(RecheckModify, Then(DropWaiters, Done)), 0, true);
    assert !InSection(Then(DropWaiters, Done));
  }

  lemma WokenFits(code: Code, d: nat, w: bool)
    requires Fits(code, d, w)
    ensures Fits(Woken(code), d, w) && (Starts(Woken(code), Release) <==> Starts(code, Release))
  {
  }

  lemma AllWoken(s: State)
    requires Orderly(s)
    ensures Orderly(s.(code := WakeAll(s.code)))
  {
    SectionsWoken(s.code);
    forall u | 0 <= u < |s.code|
      ensures Fits(WakeAll(s.code)[u], Depth(s, u), s.waiters == Some(u))
    {
      WokenFits(s.code[u], Depth(s, u), s.waiters == Some(u));
    }
    if s.owner.Some? {
      WokenFits(s.code[s.owner.value], s.depth, s.waiters == s.owner);
    }
  }

  lemma BroadcastStep(s: State, t: nat)
    requires Orderly(s) && Enabled(s, t, Go) && s.code[t].head == Broadcast
    ensures Orderly(Step(s, t, Go))
  {
    CodeOf(s, t);
    LocalStep(s, t, s.code[t].tail);
    hide Orderly, Fits;
    AllWoken(Set(s, t, s.code[t].tail));
  }

  /** Every step of every thread keeps the locks, the flag and the count in order, failed writes included. */
  lemma StepOrderly(s: State, t: nat, c: Choice)
    requires Orderly(s) && Enabled(s, t, c)
    ensures Orderly(Step(s, t, c))
  {
    hide Orderly, Fits, InSection;
    CodeOf(s, t);
    match c
    case Start(call) => StartStep(s, t, call);
    case Fail => WriteStep(s, t, false);
    case Nest(call) => NestStep(s, t, call);
    case Complete => CompleteStep(s, t);
    case Enough => EnoughStep(s, t);
    case Go =>
      match s.code[t].head
      case IncModify => SharedStep(s, t);
      case DecModify => SharedStep(s, t);
      case WritePipe(call) => WriteStep(s, t, true);
      case Acquire => SharedStep(s, t);
      case Activate => SharedStep(s, t);
      case Clear => SharedStep(s, t);
      case Release => SharedStep(s, t);
      case TakeWaiters => SharedStep(s, t);
      case DropWaiters => SharedStep(s, t);
      case Sleep => SharedStep(s, t);
      case Broadcast => BroadcastStep(s, t);
      case TryAcquire => TryAcquireStep(s, t);
      case CheckModify => CheckStep(s, t);
      case RecheckModify => CheckStep(s, t);
      case RecheckActive => CheckStep(s, t);
      case Handle(_) => CheckStep(s, t);
  }

  lemma StartStep(s: State, t: nat, call: Call)
    requires Orderly(s) && Enabled(s, t, Start(call))
    ensures Orderly(Step(s, t, Start(call)))
  {
    CodeOf(s, t);
    FitsEntry(call, Done, 0);
    LocalStep(s, t, Entry(call, Done));
  }

  lemma WriteStep(s: State, t: nat, ok: bool)
    requires Orderly(s) && t < |s.code| && s.code[t].Then? && s.code[t].head.WritePipe?
    ensures Orderly(Set(s, t, Written(s.code[t].head.call, ok, s.code[t].tail)))
  {
    CodeOf(s, t);
    FitsWritten(s.code[t].head.call, ok, s.code[t].tail, Depth(s, t));
    LocalStep(s, t, Written(s.code[t].head.call, ok, s.code[t].tail));
  }

  lemma NestStep(s: State, t: nat, call: Call)
    requires Orderly(s) && Enabled(s, t, Nest(call))
    ensures Orderly(Step(s, t, Nest(call)))
  {
    CodeOf(s, t);
    FitsEntry(call, s.code[t], Depth(s, t));
    LocalStep(s, t, Entry(call, s.code[t]));
  }

  lemma CompleteStep(s: State, t: nat)
    requires Orderly(s) && Enabled(s, t, Complete)
    ensures Orderly(Step(s, t, Complete))
  {
    CodeOf(s, t);
    FitsShout(s.code[t], Depth(s, t));
    assert InSection(Then(Broadcast, Then(DropWaiters, s.code[t]))) == InSection(s.code[t]);
    LocalStep(s, t, Shout(s.code[t]));
  }

  lemma EnoughStep(s: State, t: nat)
    requires Orderly(s) && Enabled(s, t, Enough)
    ensures Orderly(Step(s, t, Enough))
  {
    CodeOf(s, t);
    LocalStep(s, t, Step(s, t, Enough).code[t]);
  }

  lemma CheckStep(s: State, t: nat)
    requires Orderly(s) && Enabled(s, t, Go)
    requires Handling(s.code[t]) || s.code[t].head in {CheckModify, RecheckModify, RecheckActive}
    ensures Orderly(Step(s, t, Go))
  {
    CodeOf(s, t);
    FitsWait();
    hide Wait, UnlockEvents, Written;
    LocalStep(s, t, Step(s, t, Go).code[t]);
  }

  lemma IdleOrderly(n: nat)
    ensures Orderly(Idle(n))
  {
    NoSections(n);
  }

  lemma {:induction false} NoSections(n: nat)
    ensures Sections(seq(n, _ => Done)) == 0
  {
    if n > 0 {
      assert seq(n, _ => Done)[..n - 1] == seq(n - 1, _ => Done);
      NoSections(n - 1);
    }
  }

  // ---------------------------------------------------------------- no lost wake-up

  /** Whoever leaves the modify section still has a broadcast to make. */
  predicate Promising(code: Code) {
    code.Then? ==> (code.head == DecModify ==> Owes(code.tail)) && Promising(code.tail)
  }

  ghost predicate Owed(s: State) {
    (exists t :: 0 <= t < |s.code| && Awaiting(s.code[t])) ==> exists u :: 0 <= u < |s.code| && Owes(s.code[u])
  }

  ghost predicate AllPromising(s: State) {
    forall t :: 0 <= t < |s.code| ==> Promising(s.code[t])
  }

  lemma PromisingShout(k: Code)
    requires Promising(k)
    ensures Promising(UnlockEvents(k)) && Promising(Shout(k)) && Owes(UnlockEvents(k)) && Owes(Shout(k))
  {
    assert Promising(Then(DropWaiters, k));
    assert Promising(Then(Broadcast, Then(DropWaiters, k)));
    assert Promising(Then(Release, Shout(k)));
    assert Owes(Then(Release, Shout(k)));
  }

  /** After a write that succeeds, and after one that fails while a broadcast is owed anyway. */
  lemma PromisingWritten(call: Call, ok: bool, k: Code)
    requires Promising(k) && (ok || Owes(k))
    ensures Promising(Written(call, ok, k)) && Owes(Written(call, ok, k))
  {
    DisturbedCode(k);
    var back := Disturbed(k);
    PromisingShout(back);
    var dec := if ok then Then(DecModify, UnlockEvents(back)) else Then(DecModify, back);
    assert Promising(dec) && Owes(dec);
    PromisingShout(dec);
    var inner := UnlockEvents(dec);
    assert Promising(Then(Activate, inner)) && Owes(Then(Activate, inner));
    assert Promising(LockEvents(inner)) && Owes(LockEvents(inner));
    assert Promising(Then(Activate, LockEvents(inner))) && Owes(Then(Activate, LockEvents(inner)));
    assert Promising(Then(Activate, dec)) && Owes(Then(Activate, dec));
  }

  lemma PromisingEntry(call: Call, k: Code)
    requires Promising(k)
    ensures Promising(Entry(call, k))
  {
    PromisingShout(k);
    assert Promising(Then(WritePipe(call), k));
    assert Promising(Then(Handle(true), UnlockEvents(k)));
    assert Promising(Then(Activate, Then(Handle(true), UnlockEvents(k))));
  }

  lemma PromisingHandling()
    ensures Promising(Then(Activate, Then(Handle(true), UnlockEvents(Done)))) && Promising(Wait(Done))
  {
    PromisingShout(Done);
    assert Promising(Then(Handle(true), UnlockEvents(Done)));
    assert Promising(Then(RecheckModify, Then(DropWaiters, Done)));
  }

  /** What a thread has to do after a plain step. */
  lemma CodeGo(s: State, t: nat)
    requires Orderly(s) && Enabled(s, t, Go) && Promising(s.code[t])
    ensures Promising(Step(s, t, Go).code[t])
    ensures Owes(s.code[t]) && s.code[t].head != Broadcast ==> Owes(Step(s, t, Go).code[t])
  {
    hide Orderly, Fits, UnlockEvents, Wait, Written;
    var i, k := s.code[t].head, s.code[t].tail;
    if i.WritePipe? {
      PromisingWritten(i.call, true, k);
    } else if i in {CheckModify, TryAcquire, RecheckModify, RecheckActive} {
      PromisingHandling();
      QuietCode(s, t);
    } else {
      WokenPromising(k);
    }
  }

  /** A thread that is asking for events has nothing else to do. */
  lemma QuietCode(s: State, t: nat)
    requires Orderly(s) && t < |s.code| && s.code[t].Then?
    requires s.code[t].head in {CheckModify, TryAcquire, RecheckModify, RecheckActive}
    ensures !Owes(s.code[t]) && Promising(s.code[t].tail)
    ensures s.code[t].tail ==
            if s.code[t].head in {CheckModify, TryAcquire} then Done else Then(DropWaiters, Done)
  {
    CodeOf(s, t);
  }

  /** A write that fails does no harm in a thread that holds the events lock. */
  predicate Harms(s: State, t: nat, c: Choice) {
    c == Fail && s.owner != Some(t)
  }

  /** Thanks to the lock it holds, the thread has a broadcast to make after its write. */
  lemma FailHeld(s: State, t: nat)
    requires Orderly(s) && Enabled(s, t, Fail) && s.owner == Some(t) && Promising(s.code[t])
    ensures Promising(Step(s, t, Fail).code[t]) && Owes(Step(s, t, Fail).code[t])
  {
    CodeOf(s, t);
    HolderOwes(s.code[t].tail, s.depth, s.waiters == Some(t));
    PromisingWritten(s.code[t].head.call, false, s.code[t].tail);
  }

  lemma CodeStep(s: State, t: nat, c: Choice)
    requires Orderly(s) && Enabled(s, t, c) && !Harms(s, t, c) && Promising(s.code[t])
    ensures Promising(Step(s, t, c).code[t])
    ensures Owes(s.code[t]) && !(c == Go && s.code[t].head == Broadcast) ==> Owes(Step(s, t, c).code[t])
  {
    hide Orderly, Fits, Entry, Shout;
    match c
    case Start(call) => PromisingEntry(call, Done);
    case Nest(call) => PromisingEntry(call, s.code[t]); OwesEntry(call, s.code[t]);
    case Complete => PromisingShout(s.code[t]);
    case Enough =>
    case Fail => FailHeld(s, t);
    case Go => CodeGo(s, t);
  }

  lemma OwesEntry(call: Call, k: Code)
    requires call.Notify? || call.Close?
    ensures Owes(Entry(call, k))
  {
    assert Owes(Then(WritePipe(call), k));
  }

  lemma WokenPromising(code: Code)
    ensures Promising(code) ==> Promising(Woken(code))
  {
  }

  /** The lock's holder will announce that it lets go. */
  lemma {:induction false} HolderOwes(code: Code, d: nat, w: bool)
    requires Fits(code, d, w) && d > 0
    ensures Owes(code)
  {
    match code
    case Then(i, k) =>
      if i == Acquire {
        HolderOwes(k, d + 1, w);
      } else if i != Release {
        HolderOwes(k, d, if i == TakeWaiters then true else if i == DropWaiters then false else w);
      }
  }

  lemma {:induction false} SectionOwes(code: Code)
    requires InSection(code) && Promising(code)
    ensures Owes(code)
  {
    if code.head != DecModify && !code.head.WritePipe? {
      SectionOwes(code.tail);
    }
  }

  lemma {:induction false} SomeoneInSection(codes: seq<Code>) returns (u: nat)
    requires Sections(codes) > 0
    ensures u < |codes| && InSection(codes[u])
  {
    var last := |codes| - 1;
    if InSection(codes[last]) {
      u := last;
    } else {
      u := SomeoneInSection(codes[..last]);
    }
  }

  /** When the test under the waiters lock says that somebody is at work, somebody owes a broadcast. */
  lemma BusyOwes(s: State) returns (u: nat)
    requires Orderly(s) && AllPromising(s) && (s.modifiers > 0 || s.active)
    ensures u < |s.code| && Owes(s.code[u])
  {
    if s.modifiers > 0 {
      u := SomeoneInSection(s.code);
      SectionOwes(s.code[u]);
    } else {
      u := s.owner.value;
      CodeOf(s, u);
      HolderOwes(s.code[u], s.depth, s.waiters == Some(u));
    }
  }

  /** The other threads only ever get woken. */
  lemma OthersCode(s: State, t: nat, c: Choice, u: nat)
    requires Enabled(s, t, c) && u < |s.code| && u != t
    ensures Step(s, t, c).code[u] == s.code[u] || Step(s, t, c).code[u] == Woken(s.code[u])
    ensures Owes(s.code[u]) ==> Owes(Step(s, t, c).code[u])
    ensures Promising(s.code[u]) ==> Promising(Step(s, t, c).code[u])
    ensures Awaiting(Step(s, t, c).code[u]) ==> Awaiting(s.code[u])
  {
    WokenPromising(s.code[u]);
  }

  lemma StepPromising(s: State, t: nat, c: Choice)
    requires Orderly(s) && AllPromising(s) && Enabled(s, t, c) && !Harms(s, t, c)
    ensures AllPromising(Step(s, t, c))
  {
    hide Orderly, Promising, Owes;
    CodeStep(s, t, c);
    forall u | 0 <= u < |s.code|
      ensures Promising(Step(s, t, c).code[u])
    {
      if u != t {
        OthersCode(s, t, c, u);
      }
    }
  }

  /** A broadcast leaves nobody asleep, nor anybody about to be: those would hold the waiters lock. */
  lemma BroadcastWakes(s: State, t: nat, u: nat)
    requires Orderly(s) && Enabled(s, t, Go) && s.code[t].head == Broadcast && u < |s.code|
    ensures !Awaiting(Step(s, t, Go).code[u])
  {
    CodeOf(s, t);
    CodeOf(s, u);
  }

  /** How a thread comes to await: it was already, or it has just seen somebody at work. */
  lemma FallsAsleep(s: State, t: nat, c: Choice)
    requires Orderly(s) && Enabled(s, t, c) && Awaiting(Step(s, t, c).code[t])
    ensures Awaiting(s.code[t]) || (c == Go && !Owes(s.code[t]) && (s.modifiers > 0 || s.active))
  {
    CodeOf(s, t);
    if c == Go && s.code[t].head !in {RecheckModify, RecheckActive, Sleep} {
      NotAsleepNext(s, t);
    }
  }

  lemma NotAsleepNext(s: State, t: nat)
    requires Orderly(s) && Enabled(s, t, Go) && s.code[t].head !in {RecheckModify, RecheckActive, Sleep}
    ensures !Awaiting(Step(s, t, Go).code[t])
  {
    CodeOf(s, t);
  }

  lemma StepOwed(s: State, t: nat, c: Choice)
    requires Orderly(s) && AllPromising(s) && Owed(s) && Enabled(s, t, c) && !Harms(s, t, c)
    ensures Owed(Step(s, t, c))
  {
    hide Orderly, AllPromising, Owes, Awaiting, Step;
    var s' := Step(s, t, c);
    StepLength(s, t, c);
    if v :| 0 <= v < |s'.code| && Awaiting(s'.code[v]) {
      var broadcast := c == Go && s.code[t].head == Broadcast;
      if broadcast {
        BroadcastWakes(s, t, v);
      }
      var u := Ower(s, t, c, v);
      PromiseOf(s, t);
      CodeStep(s, t, c);
      if u != t {
        OthersCode(s, t, c, u);
      }
    }
  }

  lemma PromiseOf(s: State, t: nat)
    requires AllPromising(s) && t < |s.code|
    ensures Promising(s.code[t])
  {
  }

  lemma StepLength(s: State, t: nat, c: Choice)
    requires Enabled(s, t, c)
    ensures |Step(s, t, c).code| == |s.code|
  {
  }

  /** Before the step already, somebody owes the broadcast that v awaits after it. */
  lemma Ower(s: State, t: nat, c: Choice, v: nat) returns (u: nat)
    requires Orderly(s) && AllPromising(s) && Owed(s) && Enabled(s, t, c)
    requires v < |s.code| && |Step(s, t, c).code| == |s.code| && Awaiting(Step(s, t, c).code[v])
    ensures u < |s.code| && Owes(s.code[u])
  {
    hide Orderly, AllPromising, Owes, Awaiting, Step;
    if v == t {
      FallsAsleep(s, t, c);
      if Awaiting(s.code[t]) {
        u :| 0 <= u < |s.code| && Owes(s.code[u]);
      } else {
        u := BusyOwes(s);
      }
    } else {
      OthersCode(s, t, c, v);
      u :| 0 <= u < |s.code| && Owes(s.code[u]);
    }
  }

  // ---------------------------------------------------------------- runs

  datatype Move = Move(thread: nat, choice: Choice)

  ghost predicate Possible(s: State, run: seq<Move>)
    decreases |run|
  {
    run != [] ==>
      && Enabled(s, run[0].thread, run[0].choice)
      && Possible(Step(s, run[0].thread, run[0].choice), run[1..])
  }

  function After(s: State, run: seq<Move>): State
    requires Possible(s, run)
    decreases |run|
  {
    if run == [] then s else After(Step(s, run[0].thread, run[0].choice), run[1..])
  }

  /** Every write that fails along the run fails in the thread that holds the events lock then. */
  ghost predicate Harmless(s: State, run: seq<Move>)
    requires Possible(s, run)
    decreases |run|
  {
    run != [] ==>
      && !Harms(s, run[0].thread, run[0].choice)
      && Harmless(Step(s, run[0].thread, run[0].choice), run[1..])
  }

  lemma {:induction false} RunOrderly(s: State, run: seq<Move>)
    requires Orderly(s) && Possible(s, run)
    ensures Orderly(After(s, run))
    decreases |run|
  {
    if run != [] {
      StepOrderly(s, run[0].thread, run[0].choice);
      RunOrderly(Step(s, run[0].thread, run[0].choice), run[1..]);
    }
  }

  lemma {:induction false} RunOwed(s: State, run: seq<Move>)
    requires Orderly(s) && AllPromising(s) && Owed(s) && Possible(s, run) && Harmless(s, run)
    ensures AllPromising(After(s, run)) && Owed(After(s, run))
    decreases |run|
  {
    if run != [] {
      hide Orderly, AllPromising, Owed, Enabled, Step;
      var t, c := run[0].thread, run[0].choice;
      StepOrderly(s, t, c);
      StepPromising(s, t, c);
      StepOwed(s, t, c);
      RunOwed(Step(s, t, c), run[1..]);
    }
  }

  /** In every run, failed writes included: the active flag implies a holder of the events lock, the count is the number
      of threads in a modify section, a thread at work on events holds the lock, and no two threads hold it. */
  lemma MutualExclusion(n: nat, run: seq<Move>)
    requires Possible(Idle(n), run)
    ensures var s := After(Idle(n), run);
            && (s.active ==> s.owner.Some?)
            && s.modifiers == Sections(s.code)
            && forall t :: 0 <= t < |s.code| && Handling(s.code[t]) ==> s.owner == Some(t)
  {
    IdleOrderly(n);
    RunOrderly(Idle(n), run);
    var s := After(Idle(n), run);
    forall t | 0 <= t < |s.code| && Handling(s.code[t])
      ensures s.owner == Some(t)
    {
      CodeOf(s, t);
    }
  }

  /** No lost wake-up: in every run whose failed writes all fail in the holder of the events lock, whoever waits for an
      event is owed a broadcast by another thread that has not made it yet. */
  lemma NoLostWakeup(n: nat, run: seq<Move>, t: nat)
    requires Possible(Idle(n), run) && Harmless(Idle(n), run)
    requires var s := After(Idle(n), run); t < |s.code| && Awaiting(s.code[t])
    ensures var s := After(Idle(n), run); exists u :: 0 <= u < |s.code| && u != t && Owes(s.code[u])
  {
    IdleOrderly(n);
    RunOrderly(Idle(n), run);
    RunOwed(Idle(n), run);
    var s := After(Idle(n), run);
    CodeOf(s, t);
    var u :| 0 <= u < |s.code| && Owes(s.code[u]);
  }

  // ---------------------------------------------------------------- the flag

  /** As long as the thread holds the lock, what it still has to do agrees with the flag: on, until a call that goes
      through the lock inside a callback leaves it off. */
  predicate FlagFits(code: Code, active: bool) {
    match code
    case Done => true
    case Then(i, k) =>
      match i
      case Activate => FlagFits(k, true)
      case Clear => FlagFits(k, false)
      case Handle(quiet) => active == quiet && FlagFits(k, active)
      case _ => FlagFits(k, active)
  }

  /** A thread without the lock does not mind the flag: it will set it before it handles anything. */
  lemma {:induction false} FlagFree(code: Code, w: bool, a: bool, b: bool)
    requires Fits(code, 0, w) && FlagFits(code, a)
    ensures FlagFits(code, b)
  {
    if code.Then? && code.head != Acquire {
      FlagFree(code.tail, code.head in {TakeWaiters, Asleep} || (w && code.head != DropWaiters), a, b);
    }
  }

  ghost predicate Flagged(s: State) {
    forall t :: 0 <= t < |s.code| ==> FlagFits(s.code[t], s.active)
  }

  lemma FlagUnlock(k: Code, a: bool)
    ensures FlagFits(Shout(k), a) == FlagFits(k, a)
    ensures FlagFits(UnlockEvents(k), a) == FlagFits(k, false) && FlagFits(LockEvents(k), a) == FlagFits(k, true)
  {
    assert FlagFits(Then(Broadcast, Then(DropWaiters, k)), a) == FlagFits(k, a);
    assert FlagFits(Then(Broadcast, Then(DropWaiters, k)), false) == FlagFits(k, false);
    assert FlagFits(Shout(k), false) == FlagFits(k, false);
    assert FlagFits(Then(Release, Shout(k)), false) == FlagFits(k, false);
  }

  /** What a write goes back to is nothing or a handling, which it disturbs. */
  lemma FlagWritten(call: Call, ok: bool, k: Code, a: bool)
    requires FlagFits(k, a) && (k == Done || (Handling(k) && k.tail == UnlockEvents(Done)))
    ensures FlagFits(Written(call, ok, k), a)
  {
    var back := Disturbed(k);
    FlagUnlock(Done, false);
    assert FlagFits(back, false);
    var dec := if ok then Then(DecModify, UnlockEvents(back)) else Then(DecModify, back);
    FlagUnlock(back, true);
    FlagUnlock(dec, true);
    FlagUnlock(UnlockEvents(dec), true);
    FlagUnlock(LockEvents(UnlockEvents(dec)), a);
    FlagUnlock(UnlockEvents(dec), a);
    FlagUnlock(dec, a);
  }

  lemma FlagEntry(call: Call, k: Code, a: bool)
    requires FlagFits(k, a) && (call.Manual? ==> k == Done)
    ensures FlagFits(Entry(call, k), a)
  {
    if call.Manual? {
      FlagUnlock(k, true);
      FlagUnlock(Then(Handle(true), UnlockEvents(k)), a);
    } else if !call.HandleEvents? {
      assert FlagFits(Then(WritePipe(call), k), a);
    }
  }

  lemma FlagWait(a: bool)
    ensures FlagFits(Wait(Done), a) && FlagFits(Then(Activate, Then(Handle(true), UnlockEvents(Done))), a)
  {
    FlagUnlock(Done, true);
    assert FlagFits(Then(Handle(true), UnlockEvents(Done)), true);
    assert FlagFits(Then(RecheckModify, Then(DropWaiters, Done)), a);
  }

  /** What a thread that is about to write goes back to. */
  lemma FlagBack(s: State, t: nat)
    requires Orderly(s) && t < |s.code|
    ensures s.code[t].Then? && s.code[t].head.WritePipe? ==>
              var k := s.code[t].tail; k == Done || (Handling(k) && k.tail == UnlockEvents(Done))
  {
    CodeOf(s, t);
  }

  /** A thread's own step. */
  lemma FlagStep(s: State, t: nat, c: Choice)
    requires Orderly(s) && Flagged(s) && Enabled(s, t, c)
    ensures var s' := Step(s, t, c); FlagFits(s'.code[t], s'.active)
  {
    hide Orderly, Fits;
    CodeOf(s, t);
    FlagBack(s, t);
    var code := s.code[t];
    match c
    case Start(call) => FlagEntry(call, Done, s.active);
    case Nest(call) => FlagEntry(call, code, s.active);
    case Complete => FlagUnlock(code, s.active);
    case Fail => FlagWritten(code.head.call, false, code.tail, s.active);
    case Enough => FlagPassed(s, t, c);
    case Go =>
      if code.head.WritePipe? {
        FlagWritten(code.head.call, true, code.tail, s.active);
      } else if code.head in {CheckModify, TryAcquire, RecheckModify, RecheckActive} {
        FlagAsked(s, t);
      } else {
        FlagPassed(s, t, c);
      }
  }

  /** The steps of a thread that asks for events. */
  lemma FlagAsked(s: State, t: nat)
    requires Enabled(s, t, Go) && FlagFits(s.code[t], s.active)
    requires Fits(s.code[t], Depth(s, t), s.waiters == Some(t))
    requires s.code[t].head in {CheckModify, TryAcquire, RecheckModify, RecheckActive}
    ensures var s' := Step(s, t, Go); FlagFits(s'.code[t], s'.active)
  {
    FlagWait(s.active);
    hide Wait, UnlockEvents;
  }

  /** The steps that just pass an instruction. */
  lemma FlagPassed(s: State, t: nat, c: Choice)
    requires Enabled(s, t, c) && FlagFits(s.code[t], s.active)
    requires c == Enough || (c == Go && !s.code[t].head.WritePipe?
                             && s.code[t].head !in {CheckModify, TryAcquire, RecheckModify, RecheckActive})
    ensures var s' := Step(s, t, c); FlagFits(s'.code[t], s'.active)
  {
    if c == Go && s.code[t].head == Broadcast {
      FlagWoken(s.code[t].tail, s.active);
    }
  }

  /** Only the lock's holder touches the flag. */
  lemma FlagKept(s: State, t: nat, c: Choice)
    requires Orderly(s) && Enabled(s, t, c)
    ensures Step(s, t, c).active == s.active || s.owner == Some(t)
  {
    CodeOf(s, t);
  }

  lemma FlagWoken(code: Code, a: bool)
    requires FlagFits(code, a)
    ensures FlagFits(Woken(code), a)
  {
  }

  lemma StepFlagged(s: State, t: nat, c: Choice)
    requires Orderly(s) && Flagged(s) && Enabled(s, t, c)
    ensures Flagged(Step(s, t, c))
  {
    StepLength(s, t, c);
    FlagStep(s, t, c);
    FlagKept(s, t, c);
    var s' := Step(s, t, c);
    forall u | 0 <= u < |s'.code|
      ensures FlagFits(s'.code[u], s'.active)
    {
      if u != t {
        CodeOf(s, u);
        OthersCode(s, t, c, u);
        hide Orderly, Fits, FlagFits, Step;
        if s'.active != s.active {
          FlagFree(s.code[u], s.waiters == Some(u), s.active, s'.active);
        }
        FlagWoken(s.code[u], s'.active);
      }
    }
  }

  lemma {:induction false} RunFlagged(s: State, run: seq<Move>)
    requires Orderly(s) && Flagged(s) && Possible(s, run)
    ensures Flagged(After(s, run))
    decreases |run|
  {
    if run != [] {
      hide Orderly, Flagged, Enabled, Step;
      StepOrderly(s, run[0].thread, run[0].choice);
      StepFlagged(s, run[0].thread, run[0].choice);
      RunFlagged(Step(s, run[0].thread, run[0].choice), run[1..]);
    }
  }

  /** Exactly when a thread that handles events has the flag on, in every run, failed writes included: until one of its
      callbacks closes, or notifies with a write that succeeds. From then on the threads that come to wait find a lock that
      is held and a flag that is off. */
  lemma HandlerFlag(n: nat, run: seq<Move>, t: nat)
    requires Possible(Idle(n), run)
    requires var s := After(Idle(n), run); t < |s.code| && Handling(s.code[t])
    ensures var s := After(Idle(n), run); s.owner == Some(t) && (s.active <==> s.code[t].head.quiet)
  {
    IdleOrderly(n);
    RunOrderly(Idle(n), run);
    RunFlagged(Idle(n), run);
    CodeOf(After(Idle(n), run), t);
  }

  // ---------------------------------------------------------------- progress

  /** Whoever has a step to make, with the locks as they are. */
  lemma HolderMoves(s: State, t: nat)
    requires Orderly(s) && t < |s.code| && s.code[t].Then? && !Starts(s.code[t], Asleep)
    requires s.code[t].head == Acquire ==> s.owner.None? || s.owner == Some(t)
    requires s.code[t].head == TakeWaiters ==> s.waiters.None?
    ensures Enabled(s, t, Go)
  {
    CodeOf(s, t);
  }

  lemma CanMove(s: State, w: nat) returns (t: nat)
    requires Orderly(s) && Owed(s) && w < |s.code| && s.code[w].Then?
    ensures Enabled(s, t, Go)
  {
    if s.waiters.Some? {
      t := s.waiters.value;
      CodeOf(s, t);
      HolderMoves(s, t);
    } else if s.owner.Some? {
      t := s.owner.value;
      CodeOf(s, t);
      HolderMoves(s, t);
    } else {
      t := w;
      if Awaiting(s.code[w]) {
        t :| 0 <= t < |s.code| && Owes(s.code[t]);
        CodeOf(s, t);
      }
      HolderMoves(s, t);
    }
  }

  /** No deadlock: in such a run, as long as some thread is not done, some thread can step, without any wait having to time
      out. */
  lemma NoDeadlock(n: nat, run: seq<Move>, w: nat) returns (t: nat)
    requires Possible(Idle(n), run) && Harmless(Idle(n), run)
    requires var s := After(Idle(n), run); w < |s.code| && s.code[w].Then?
    ensures Enabled(After(Idle(n), run), t, Go)
  {
    IdleOrderly(n);
    RunOrderly(Idle(n), run);
    RunOwed(Idle(n), run);
    t := CanMove(After(Idle(n), run), w);
  }

  // ---------------------------------------------------------------- what is announced arrives

  ghost predicate NobodyAwaits(s: State) {
    forall u :: 0 <= u < |s.code| ==> !Awaiting(s.code[u])
  }

  /** Plain steps of one thread. */
  predicate Plain(run: seq<Move>, t: nat) {
    forall m :: m in run ==> m == Move(t, Go)
  }

  predicate AllPlain(run: seq<Move>) {
    forall m :: m in run ==> m.choice == Go
  }

  /** An upper bound of the plain steps to the end of the code. */
  function Weight(code: Code): nat {
    match code
    case Done => 0
    case Then(i, k) => (if i.WritePipe? then 20 else if i == RecheckModify then 5 else if i == RecheckActive then 3 else 1)
                       + Weight(k)
  }

  lemma WeightUnlock(k: Code)
    ensures Weight(UnlockEvents(k)) == Weight(k) + 5 && Weight(LockEvents(k)) == Weight(k) + 2
    ensures Owes(UnlockEvents(k)) && Owes(Shout(k)) && (Owes(k) ==> Owes(LockEvents(k)))
  {
    assert Weight(Then(Broadcast, Then(DropWaiters, k))) == Weight(k) + 2;
    assert Weight(Shout(k)) == Weight(k) + 3;
    assert Owes(Then(Release, Shout(k)));
    assert Owes(k) ==> Owes(Then(Activate, k));
  }

  lemma WeightNext(i: Instr, k: Code)
    ensures Weight(Then(i, k)) == Weight(Then(i, Done)) + Weight(k) && (Owes(k) ==> Owes(Then(i, k)))
    ensures i == DecModify ==> Weight(Then(i, k)) == Weight(k) + 1
  {
  }

  lemma WeightDisturbed(k: Code)
    ensures Weight(Disturbed(k)) == Weight(k)
  {
  }

  lemma WrittenOwes(call: Call, k: Code)
    ensures Owes(Written(call, true, k)) && Weight(Written(call, true, k)) < Weight(k) + 20
  {
    hide Weight, Owes, UnlockEvents, LockEvents, Disturbed;
    var back := Disturbed(k);
    WeightDisturbed(k);
    WeightUnlock(back);
    WeightNext(DecModify, UnlockEvents(back));
    var dec := Then(DecModify, UnlockEvents(back));
    WeightUnlock(dec);
    WeightUnlock(UnlockEvents(dec));
    WeightUnlock(LockEvents(UnlockEvents(dec)));
  }

  /** A thread that owes a broadcast has it closer after each plain step. */
  lemma OwesGo(s: State, t: nat)
    requires Orderly(s) && Enabled(s, t, Go) && Owes(s.code[t]) && s.code[t].head != Broadcast
    ensures var code := Step(s, t, Go).code[t]; Owes(code) && Weight(code) < Weight(s.code[t])
  {
    CodeOf(s, t);
    hide Orderly;
    if s.code[t].head.WritePipe? {
      hide Written;
      WrittenOwes(s.code[t].head.call, s.code[t].tail);
    }
  }

  /** The locks stay free or its own. */
  lemma MineGo(s: State, t: nat)
    requires Orderly(s) && Enabled(s, t, Go) && Owes(s.code[t]) && Mine(s.owner, t) && Mine(s.waiters, t)
    ensures Mine(Step(s, t, Go).owner, t) && Mine(Step(s, t, Go).waiters, t)
  {
    CodeOf(s, t);
  }

  lemma OwerMoves(s: State, t: nat)
    requires Orderly(s) && t < |s.code| && Owes(s.code[t]) && Mine(s.owner, t) && Mine(s.waiters, t)
    ensures Enabled(s, t, Go)
  {
    CodeOf(s, t);
    HolderMoves(s, t);
  }

  lemma BroadcastWakesAll(s: State, t: nat)
    requires Orderly(s) && Enabled(s, t, Go) && s.code[t].head == Broadcast
    ensures NobodyAwaits(Step(s, t, Go))
  {
    StepLength(s, t, Go);
    forall u | 0 <= u < |s.code|
      ensures !Awaiting(Step(s, t, Go).code[u])
    {
      BroadcastWakes(s, t, u);
    }
  }

  /** A broadcast that is owed comes by plain steps of the thread that owes it, unless others hold the locks; after it
      nobody waits. */
  lemma {:induction false} Announced(s: State, t: nat) returns (run: seq<Move>)
    requires Orderly(s) && t < |s.code| && Owes(s.code[t]) && Mine(s.owner, t) && Mine(s.waiters, t)
    ensures Plain(run, t) && Possible(s, run) && NobodyAwaits(After(s, run))
    decreases Weight(s.code[t])
  {
    OwerMoves(s, t);
    StepOrderly(s, t, Go);
    StepLength(s, t, Go);
    var s' := Step(s, t, Go);
    var rest: seq<Move> := [];
    if s.code[t].head == Broadcast {
      BroadcastWakesAll(s, t);
      NoMoves(s');
    } else {
      OwesGo(s, t);
      MineGo(s, t);
      hide Orderly, Owes, Enabled, Step;
      rest := Announced(s', t);
    }
    run := [Move(t, Go)] + rest;
    assert run[1..] == rest;
  }

  lemma NoMoves(s: State)
    ensures Possible(s, []) && After(s, []) == s && Harmless(s, [])
  {
  }

  lemma HoldStep(s: State, w: nat)
    requires Orderly(s) && s.waiters == Some(w)
    ensures w < |s.code| && Enabled(s, w, Go)
    ensures var s' := Step(s, w, Go);
            s'.waiters == None || (s'.waiters == Some(w) && Weight(s'.code[w]) < Weight(s.code[w]))
  {
    CodeOf(s, w);
    HolderMoves(s, w);
    hide Orderly, InSection, Owes;
  }

  /** From every state in which whoever waits is owed a broadcast, plain steps lead to one in which nobody waits: no wait has
      to time out for it, and no new call to come. */
  lemma {:induction false} CanWake(s: State) returns (run: seq<Move>)
    requires Orderly(s) && AllPromising(s) && Owed(s)
    ensures AllPlain(run) && Possible(s, run) && NobodyAwaits(After(s, run))
    decreases if s.waiters.Some? && s.waiters.value < |s.code| then 1 + Weight(s.code[s.waiters.value]) else 0
  {
    if NobodyAwaits(s) {
      run := [];
      NoMoves(s);
    } else if s.waiters.Some? {
      var w := s.waiters.value;
      HoldStep(s, w);
      StepOrderly(s, w, Go);
      StepPromising(s, w, Go);
      StepOwed(s, w, Go);
      hide Orderly, AllPromising, Owed, Enabled, Step, Weight;
      StepLength(s, w, Go);
      var rest := CanWake(Step(s, w, Go));
      run := [Move(w, Go)] + rest;
      assert run[1..] == rest;
    } else {
      var u := WhoOwes(s);
      run := Announced(s, u);
    }
  }

  /** The lock's holder owes; when nobody holds it, whoever owes can take it. */
  lemma WhoOwes(s: State) returns (u: nat)
    requires Orderly(s) && Owed(s) && !NobodyAwaits(s)
    ensures u < |s.code| && Owes(s.code[u]) && Mine(s.owner, u)
  {
    if s.owner.Some? {
      u := s.owner.value;
      CodeOf(s, u);
      HolderOwes(s.code[u], s.depth, s.waiters == Some(u));
    } else {
      u :| 0 <= u < |s.code| && Owes(s.code[u]);
    }
  }

  /** In every run whose failed writes all fail in the holder of the events lock, however many threads wait, plain steps alone
      can wake them all. */
  lemma EverybodyCanWake(n: nat, run: seq<Move>) returns (more: seq<Move>)
    requires Possible(Idle(n), run) && Harmless(Idle(n), run)
    ensures AllPlain(more) && Possible(After(Idle(n), run), more)
    ensures NobodyAwaits(After(After(Idle(n), run), more))
  {
    IdleOrderly(n);
    RunOrderly(Idle(n), run);
    RunOwed(Idle(n), run);
    more := CanWake(After(Idle(n), run));
  }

  // ---------------------------------------------------------------- completion of a transfer

  /** Somewhere along the run nobody waits. */
  ghost predicate PassesWake(s: State, run: seq<Move>)
    requires Possible(s, run)
    decreases |run|
  {
    NobodyAwaits(s) || (run != [] && PassesWake(Step(s, run[0].thread, run[0].choice), run[1..]))
  }

  /** Thread t has the way back to `code` before it, and a broadcast on it. */
  predicate Returning(s: State, t: nat, code: Code) {
    && t < |s.code|
    && (s.code[t] == Then(TakeWaiters, Then(Broadcast, Then(DropWaiters, code)))
        || s.code[t] == Then(Broadcast, Then(DropWaiters, code)))
  }

  lemma ReturningStep(s: State, t: nat, code: Code, u: nat, c: Choice)
    requires Orderly(s) && Returning(s, t, code) && Enabled(s, u, c)
    ensures Returning(Step(s, u, c), t, code) || NobodyAwaits(Step(s, u, c))
  {
    StepLength(s, u, c);
    if u != t {
      OthersCode(s, u, c, t);
    } else if s.code[t].head == Broadcast {
      hide Orderly;
      BroadcastWakesAll(s, t);
    }
  }

  lemma {:induction false} ReturnsAwake(s: State, t: nat, code: Code, run: seq<Move>)
    requires Orderly(s) && Possible(s, run) && Returning(s, t, code) && After(s, run).code != [] && Handling(code)
    requires t < |After(s, run).code| && After(s, run).code[t] == code
    ensures PassesWake(s, run)
    decreases |run|
  {
    if run != [] {
      var u, c := run[0].thread, run[0].choice;
      var s' := Step(s, u, c);
      ReturningStep(s, t, code, u, c);
      StepOrderly(s, u, c);
      hide Orderly, Returning, NobodyAwaits, Enabled, Step;
      if Returning(s', t, code) {
        ReturnsAwake(s', t, code, run[1..]);
      } else {
        AwakeAlready(s', run[1..]);
      }
    }
  }

  lemma AwakeAlready(s: State, run: seq<Move>)
    requires Possible(s, run) && NobodyAwaits(s)
    ensures PassesWake(s, run)
  {
  }

  /** A completed transfer wakes everybody: whatever happens between the completion and the thread's return to its handling,
      there is a moment when nobody waits. */
  lemma CompletionWakes(s: State, t: nat, run: seq<Move>)
    requires Orderly(s) && Enabled(s, t, Complete)
    requires var s' := Step(s, t, Complete);
             Possible(s', run) && t < |After(s', run).code| && After(s', run).code[t] == s.code[t]
    ensures PassesWake(Step(s, t, Complete), run)
  {
    StepOrderly(s, t, Complete);
    hide Orderly;
    ReturnsAwake(Step(s, t, Complete), t, s.code[t], run);
  }

  function Thrice(t: nat): seq<Move> {
    [Move(t, Go), Move(t, Go), Move(t, Go)]
  }

  /** And the thread does return: what it has to do first is take the waiters lock, broadcast and let it go; with that lock
      free it is back after three plain steps, which change nothing else and leave nobody waiting. */
  lemma CompletionReturns(s: State, t: nat)
    requires Orderly(s) && Enabled(s, t, Complete)
    ensures Step(s, t, Complete).code[t] == Then(TakeWaiters, Then(Broadcast, Then(DropWaiters, s.code[t])))
    ensures WakeAll(s.code)[t] == s.code[t]
    ensures s.waiters == None ==>
              && NobodyAwaits(s.(code := WakeAll(s.code)))
              && Possible(Step(s, t, Complete), Thrice(t))
              && After(Step(s, t, Complete), Thrice(t)) == s.(code := WakeAll(s.code))
  {
    hide Orderly, NobodyAwaits, Possible, After;
    WakeAllWakes(s, t);
    if s.waiters == None {
      Shouts(s, t);
      hide *;
      ThreeMoves(Step(s, t, Complete), t);
    }
  }

  lemma Shouts(s: State, t: nat)
    requires Enabled(s, t, Complete) && s.waiters == None
    ensures var s0 := Step(s, t, Complete);
            && Enabled(s0, t, Go) && Enabled(Step(s0, t, Go), t, Go) && Enabled(Step(Step(s0, t, Go), t, Go), t, Go)
            && Step(Step(Step(s0, t, Go), t, Go), t, Go) == s.(code := WakeAll(s.code))
  {
    var code := s.code[t];
    var s2 := Step(Step(Step(s, t, Complete), t, Go), t, Go);
    assert s2.code == WakeAll(s.code[t := Then(DropWaiters, code)]);
    assert s2.code[t := code] == WakeAll(s.code);
  }

  /** Those about to fall asleep hold the waiters lock, so none but the handler itself could be. */
  lemma WakeAllWakes(s: State, t: nat)
    requires Orderly(s) && Enabled(s, t, Complete)
    ensures s.waiters == None ==> NobodyAwaits(s.(code := WakeAll(s.code)))
    ensures WakeAll(s.code)[t] == s.code[t]
  {
    if s.waiters == None {
      forall u | 0 <= u < |s.code|
        ensures !Awaiting(WakeAll(s.code)[u])
      {
        CodeOf(s, u);
      }
    }
  }

  lemma ThreeMoves(s: State, t: nat)
    requires Enabled(s, t, Go) && Enabled(Step(s, t, Go), t, Go) && Enabled(Step(Step(s, t, Go), t, Go), t, Go)
    ensures Possible(s, Thrice(t)) && After(s, Thrice(t)) == Step(Step(Step(s, t, Go), t, Go), t, Go)
  {
    var s1, s2 := Step(s, t, Go), Step(Step(s, t, Go), t, Go);
    hide Enabled, Step;
    OneMove(s2, t, []);
    OneMove(s1, t, [Move(t, Go)]);
    OneMove(s, t, [Move(t, Go), Move(t, Go)]);
    NoMoves(Step(s2, t, Go));
    assert [Move(t, Go)] + [] == [Move(t, Go)];
    assert [Move(t, Go)] + [Move(t, Go)] == [Move(t, Go), Move(t, Go)];
    assert [Move(t, Go)] + [Move(t, Go), Move(t, Go)] == Thrice(t);
  }

  lemma OneMove(s: State, t: nat, rest: seq<Move>)
    requires Enabled(s, t, Go)
    ensures Possible(Step(s, t, Go), rest) ==>
              && Possible(s, [Move(t, Go)] + rest)
              && After(s, [Move(t, Go)] + rest) == After(Step(s, t, Go), rest)
  {
    assert ([Move(t, Go)] + rest)[1..] == rest;
  }

  // ---------------------------------------------------------------- failed writes

  lemma {:induction false} Extend(s: State, run: seq<Move>, t: nat, c: Choice)
    requires Possible(s, run) && Enabled(After(s, run), t, c)
    ensures Possible(s, run + [Move(t, c)]) && After(s, run + [Move(t, c)]) == Step(After(s, run), t, c)
    ensures Harmless(s, run) && !Harms(After(s, run), t, c) ==> Harmless(s, run + [Move(t, c)])
    decreases |run|
  {
    var longer := run + [Move(t, c)];
    if run == [] {
      assert Possible(Step(s, t, c), []);
      assert longer[1..] == [];
    } else {
      assert longer[1..] == run[1..] + [Move(t, c)];
      Extend(Step(s, run[0].thread, run[0].choice), run[1..], t, c);
    }
  }

  /** Somebody waits and nobody is going to announce anything. */
  ghost predicate Forsaken(s: State) {
    (exists v :: 0 <= v < |s.code| && Awaiting(s.code[v])) && forall u :: 0 <= u < |s.code| ==> !Owes(s.code[u])
  }

  /** Only a new call or a wait that times out gets the threads going again. */
  ghost predicate Stuck(s: State) {
    forall u :: 0 <= u < |s.code| ==> !Enabled(s, u, Go)
  }

  /** No further failure is needed to leave somebody forsaken. */
  ghost predicate MayForsake(s: State) {
    exists run :: Possible(s, run) && Harmless(s, run) && Forsaken(After(s, run))
  }

  /** One thread is about to write to the pipe; the others have nothing to do. */
  predicate Writing(s: State, t: nat) {
    && t < |s.code| && s.code[t].Then? && s.code[t].head.WritePipe?
    && forall u :: 0 <= u < |s.code| && u != t ==> s.code[u] == Done
  }

  /** What threads t and v have to do, and what they see of the rest, while the others have nothing to do. */
  predicate Pair(s: State, t: nat, v: nat, both: State) {
    && t < |s.code| && v < |s.code| && t != v
    && s.(code := [s.code[t], s.code[v]]) == both
    && forall u :: 0 <= u < |s.code| && u != t && u != v ==> s.code[u] == Done
  }

  lemma Played(s: State, run: seq<Move>, t: nat, c: Choice) returns (longer: seq<Move>)
    requires Possible(s, run) && Harmless(s, run) && Enabled(After(s, run), t, c) && c != Fail
    ensures longer == run + [Move(t, c)]
    ensures Possible(s, longer) && Harmless(s, longer) && After(s, longer) == Step(After(s, run), t, c)
  {
    longer := run + [Move(t, c)];
    Extend(s, run, t, c);
  }

  /** Thread v asks for events while t is in its modify section ... */
  lemma FallsForTheCount(s: State, run: seq<Move>, t: nat, v: nat) returns (longer: seq<Move>)
    requires Possible(s, run) && Harmless(s, run)
    requires Pair(After(s, run), t, v, State([Then(DecModify, Done), Done], 1, None, 0, false, None))
    ensures Possible(s, longer) && Harmless(s, longer)
    ensures Pair(After(s, longer), t, v, State([Done, Then(Asleep, Then(DropWaiters, Done))], 0, None, 0, false, None))
  {
    hide Possible, After, Harmless;
    longer := Played(s, run, v, Choice.Start(HandleEvents));
    longer := Played(s, longer, v, Go);
    longer := FallsAsleepOnIt(s, longer, t, v);
    longer := Played(s, longer, t, Go);
  }

  /** ... and falls asleep on the count. */
  lemma FallsAsleepOnIt(s: State, run: seq<Move>, t: nat, v: nat) returns (longer: seq<Move>)
    requires Possible(s, run) && Harmless(s, run)
    requires Pair(After(s, run), t, v, State([Then(DecModify, Done), Wait(Done)], 1, None, 0, false, None))
    ensures Possible(s, longer) && Harmless(s, longer)
    ensures Pair(After(s, longer), t, v,
                 State([Then(DecModify, Done), Then(Asleep, Then(DropWaiters, Done))], 1, None, 0, false, None))
  {
    hide Possible, After, Harmless;
    longer := Played(s, run, v, Go);
    longer := Played(s, longer, v, Go);
    longer := Played(s, longer, v, Go);
  }

  /** do_close by a thread while the others have nothing to do: it takes the lock ... */
  lemma ClosesUp(s: State, t: nat, v: nat) returns (run: seq<Move>)
    requires Pair(s, t, v, State([LockEvents(UnlockEvents(Then(DecModify, Done))), Done], 1, None, 0, false, None))
    ensures Possible(s, run) && Harmless(s, run)
    ensures Pair(After(s, run), t, v, State([Then(DecModify, Done), Done], 1, None, 0, false, None))
  {
    run := [];
    assert Possible(s, run) && Harmless(s, run) && After(s, run) == s;
    hide Possible, After, Harmless, UnlockEvents;
    run := Played(s, run, t, Go);
    run := Played(s, run, t, Go);
    run := LetsGo(s, run, t, v);
    run := Announces(s, run, t, v);
  }

  /** ... lets it go ... */
  lemma LetsGo(s: State, run: seq<Move>, t: nat, v: nat) returns (longer: seq<Move>)
    requires Possible(s, run) && Harmless(s, run)
    requires Pair(After(s, run), t, v,
                  State([UnlockEvents(Then(DecModify, Done)), Done], 1, Some(t), 1, true, None))
    ensures Possible(s, longer) && Harmless(s, longer)
    ensures Pair(After(s, longer), t, v, State([Shout(Then(DecModify, Done)), Done], 1, None, 0, false, None))
  {
    hide Possible, After, Harmless, Shout;
    longer := Played(s, run, t, Go);
    longer := Played(s, longer, t, Go);
  }

  /** ... and announces it. */
  lemma Announces(s: State, run: seq<Move>, t: nat, v: nat) returns (longer: seq<Move>)
    requires Possible(s, run) && Harmless(s, run)
    requires Pair(After(s, run), t, v, State([Shout(Then(DecModify, Done)), Done], 1, None, 0, false, None))
    ensures Possible(s, longer) && Harmless(s, longer)
    ensures Pair(After(s, longer), t, v, State([Then(DecModify, Done), Done], 1, None, 0, false, None))
  {
    hide Possible, After, Harmless;
    longer := Played(s, run, t, Go);
    longer := Played(s, longer, t, Go);
    assert After(s, longer).code[t] == Then(DropWaiters, Then(DecModify, Done));
    longer := Played(s, longer, t, Go);
  }

  /** While the others have nothing to do, a thread without the lock that is about to write leaves nothing open. */
  lemma WritingAlone(s: State, t: nat, v: nat)
    requires Orderly(s) && Writing(s, t) && s.owner != Some(t) && v < |s.code| && v != t
    ensures Pair(s, t, v, State([Then(s.code[t].head, Done), Done], 1, None, 0, false, None))
  {
    CodeOf(s, t);
    if s.owner.Some? {
      CodeOf(s, s.owner.value);
    }
    if s.waiters.Some? {
      CodeOf(s, s.waiters.value);
    }
    SectionsSet(s.code, t, Done);
    NoSections(|s.code|);
    assert s.code[t := Done] == seq(|s.code|, _ => Done);
  }

  /** A thread without the events lock whose write fails while the others have nothing to do strands any other thread that
      then asks for events. */
  lemma FailedWriteStrands(s: State, t: nat, v: nat) returns (run: seq<Move>)
    requires Orderly(s) && Writing(s, t) && s.owner != Some(t) && v < |s.code| && v != t
    ensures var s' := Step(s, t, Fail);
            && Possible(s', run) && Harmless(s', run)
            && |After(s', run).code| == |s.code| && Awaiting(After(s', run).code[v])
            && Forsaken(After(s', run)) && Stuck(After(s', run))
  {
    WritingAlone(s, t, v);
    var s' := Step(s, t, Fail);
    if s.code[t].head.call.Close? {
      run := ClosesUp(s', t, v);
    } else {
      run := [];
    }
    run := FallsForTheCount(s', run, t, v);
    RunLength(s', run);
  }

  lemma {:induction false} RunLength(s: State, run: seq<Move>)
    requires Possible(s, run)
    ensures |After(s, run).code| == |s.code|
    decreases |run|
  {
    if run != [] {
      RunLength(Step(s, run[0].thread, run[0].choice), run[1..]);
    }
  }

  /** With the lock, the thread is in a callback and has its unlocking still to do. */
  lemma FailedWriteHeld(s: State, t: nat, run: seq<Move>)
    requires Orderly(s) && Writing(s, t) && s.owner == Some(t)
    requires Possible(Step(s, t, Fail), run) && Harmless(Step(s, t, Fail), run)
    ensures !Forsaken(After(Step(s, t, Fail), run))
  {
    CodeOf(s, t);
    PromisingShout(Done);
    assert Promising(s.code[t].tail);
    StepOrderly(s, t, Fail);
    StepPromising(s, t, Fail);
    StepOwed(s, t, Fail);
    RunOwed(Step(s, t, Fail), run);
  }

  /** Exactly when a write that fails in a reachable state, the others having nothing to do, may leave somebody waiting
      for nothing without any further failure: when the writer does not hold the events lock. */
  lemma StrandsIff(n: nat, before: seq<Move>, t: nat)
    requires n >= 2 && Possible(Idle(n), before) && Writing(After(Idle(n), before), t)
    ensures var s := After(Idle(n), before); MayForsake(Step(s, t, Fail)) <==> s.owner != Some(t)
  {
    IdleOrderly(n);
    RunOrderly(Idle(n), before);
    RunLength(Idle(n), before);
    var s := After(Idle(n), before);
    if s.owner == Some(t) {
      forall run | Possible(Step(s, t, Fail), run) && Harmless(Step(s, t, Fail), run)
        ensures !Forsaken(After(Step(s, t, Fail), run))
      {
        FailedWriteHeld(s, t, run);
      }
    } else {
      var run := FailedWriteStrands(s, t, if t == 0 then 1 else 0);
    }
  }

  /** usbi_fd_notification takes its count back without a broadcast when its write fails, and libusb_close after its only
      broadcast, which comes with do_close: among any number of threads, one such failure is enough. */
  lemma FailedCallStrands(n: nat, call: Call, t: nat, v: nat) returns (before: seq<Move>, run: seq<Move>)
    requires (call.Notify? || call.Close?) && t < n && v < n && t != v
    ensures Possible(Idle(n), before) && Harmless(Idle(n), before) && Enabled(After(Idle(n), before), t, Fail)
    ensures var s := Step(After(Idle(n), before), t, Fail);
            Possible(s, run) && Harmless(s, run) && Forsaken(After(s, run)) && Stuck(After(s, run))
  {
    before := [];
    assert Possible(Idle(n), before) && Harmless(Idle(n), before) && After(Idle(n), before) == Idle(n);
    IdleOrderly(n);
    hide Possible, After, Harmless, Orderly, Forsaken, Stuck;
    before := Played(Idle(n), before, t, Choice.Start(call));
    before := Played(Idle(n), before, t, Go);
    RunOrderly(Idle(n), before);
    run := FailedWriteStrands(After(Idle(n), before), t, v);
  }

  // ---------------------------------------------------------------- calls that run undisturbed

  /** Thread t does c and then plain steps. */
  predicate Does(run: seq<Move>, t: nat, c: Choice) {
    run != [] && run[0] == Move(t, c) && Plain(run[1..], t)
  }

  lemma Begins(s: State, t: nat, c: Choice) returns (run: seq<Move>)
    requires Enabled(s, t, c) && c != Fail
    ensures Does(run, t, c) && Possible(s, run) && Harmless(s, run) && After(s, run) == Step(s, t, c)
  {
    NoMoves(s);
    run := Played(s, [], t, c);
  }

  lemma Goes(s: State, run: seq<Move>, t: nat, c: Choice) returns (longer: seq<Move>)
    requires Does(run, t, c) && Possible(s, run) && Harmless(s, run) && Enabled(After(s, run), t, Go)
    ensures Does(longer, t, c) && Possible(s, longer) && Harmless(s, longer)
    ensures After(s, longer) == Step(After(s, run), t, Go)
  {
    hide Possible, Harmless, After, Enabled, Step;
    longer := Played(s, run, t, Go);
    assert longer[1..] == run[1..] + [Move(t, Go)];
  }

  /** What has become of thread t, the others being as they were. */
  predicate Became(s: State, s': State, t: nat, code: Code, owner: Option<nat>, depth: nat, active: bool, waiters: Option<nat>) {
    && t < |s.code|
    && s' == State(s.code[t := code], s.modifiers, owner, depth, active, waiters)
  }

  /** Exactly how libusb_handle_events goes, when nobody else moves meanwhile: with the lock free and nobody in a modify
      section the thread handles events; otherwise it falls asleep if somebody is in a modify section or the flag is on; and
      if neither, it is back at its first test. */
  lemma AsksIff(s: State, v: nat) returns (run: seq<Move>)
    requires Orderly(s) && v < |s.code| && s.code[v] == Done && s.waiters == None
    ensures Does(run, v, Choice.Start(HandleEvents)) && Possible(s, run) && Harmless(s, run)
    ensures var s' := After(s, run);
            if s.modifiers == 0 && s.owner == None then
              Became(s, s', v, Then(Handle(true), UnlockEvents(Done)), Some(v), 1, true, None)
            else if s.modifiers > 0 || s.active then
              Became(s, s', v, Then(Asleep, Then(DropWaiters, Done)), s.owner, s.depth, s.active, None)
            else
              Became(s, s', v, Then(CheckModify, Done), s.owner, s.depth, s.active, None)
  {
    hide Possible, Harmless, After;
    run := Begins(s, v, Choice.Start(HandleEvents));
    run := Goes(s, run, v, Choice.Start(HandleEvents));
    if s.modifiers > 0 {
      run := AsleepByCount(s, v, run);
    } else {
      assert After(s, run).code[v] == Then(TryAcquire, Done);
      run := Goes(s, run, v, Choice.Start(HandleEvents));
      if s.owner == None {
        assert After(s, run).code[v] == Then(Activate, Then(Handle(true), UnlockEvents(Done)));
        run := Goes(s, run, v, Choice.Start(HandleEvents));
      } else {
        run := DecidesByFlag(s, v, run);
      }
    }
  }

  lemma AsleepByCount(s: State, v: nat, run: seq<Move>) returns (longer: seq<Move>)
    requires Does(run, v, Choice.Start(HandleEvents)) && Possible(s, run) && Harmless(s, run) && s.modifiers > 0
    requires s.waiters == None && Became(s, After(s, run), v, Wait(Done), s.owner, s.depth, s.active, None)
    ensures Does(longer, v, Choice.Start(HandleEvents)) && Possible(s, longer) && Harmless(s, longer)
    ensures Became(s, After(s, longer), v, Then(Asleep, Then(DropWaiters, Done)), s.owner, s.depth, s.active, None)
  {
    hide Possible, Harmless, After;
    longer := Goes(s, run, v, Choice.Start(HandleEvents));
    longer := Goes(s, longer, v, Choice.Start(HandleEvents));
    assert After(s, longer).code[v] == Then(Sleep, Then(DropWaiters, Done));
    longer := Goes(s, longer, v, Choice.Start(HandleEvents));
  }

  lemma DecidesByFlag(s: State, v: nat, run: seq<Move>) returns (longer: seq<Move>)
    requires Does(run, v, Choice.Start(HandleEvents)) && Possible(s, run) && Harmless(s, run) && s.modifiers == 0
    requires s.waiters == None && Became(s, After(s, run), v, Wait(Done), s.owner, s.depth, s.active, None)
    ensures Does(longer, v, Choice.Start(HandleEvents)) && Possible(s, longer) && Harmless(s, longer)
    ensures Became(s, After(s, longer), v,
                   if s.active then Then(Asleep, Then(DropWaiters, Done)) else Then(CheckModify, Done),
                   s.owner, s.depth, s.active, None)
  {
    hide Possible, Harmless, After;
    longer := Goes(s, run, v, Choice.Start(HandleEvents));
    longer := Goes(s, longer, v, Choice.Start(HandleEvents));
    assert After(s, longer).code[v] == Then(RecheckActive, Then(DropWaiters, Done));
    longer := Goes(s, longer, v, Choice.Start(HandleEvents));
    longer := Goes(s, longer, v, Choice.Start(HandleEvents));
  }

  lemma AsleepCode(s: State, v: nat)
    requires Orderly(s) && v < |s.code| && Starts(s.code[v], Asleep)
    ensures s.code[v] == Then(Asleep, Then(DropWaiters, Done))
  {
    CodeOf(s, v);
  }

  /** A wait ends when it times out, or when the thread is woken: in two plain steps more the thread is done. */
  lemma WaitEnds(s: State, v: nat) returns (run: seq<Move>)
    requires Orderly(s) && v < |s.code| && Starts(s.code[v], Asleep) && s.waiters == None
    ensures Does(run, v, Enough) && Possible(s, run) && Harmless(s, run) && |run| == 3
    ensures Became(s, After(s, run), v, Done, s.owner, s.depth, s.active, None)
    ensures Woken(s.code[v]) == Step(s, v, Enough).code[v]
  {
    hide Possible, Harmless, After, Orderly, Fits;
    AsleepCode(s, v);
    NoMoves(s);
    run := Played(s, [], v, Enough);
    run := Played(s, run, v, Go);
    run := Played(s, run, v, Go);
  }

  /** Thread t holds the lock `d` times and nobody holds the waiters lock. */
  predicate Stands(s: State, t: nat, code: Code, d: nat, active: bool, m: nat) {
    && t < |s.code| && s.code[t] == code && s.owner == Some(t) && s.depth == d && s.active == active && s.modifiers == m
    && s.waiters == None
  }

  lemma Locks(s: State, run: seq<Move>, t: nat, c: Choice, k: Code, d: nat, active: bool, m: nat) returns (longer: seq<Move>)
    requires Does(run, t, c) && Possible(s, run) && Harmless(s, run)
    requires Stands(After(s, run), t, LockEvents(k), d, active, m)
    ensures Does(longer, t, c) && Possible(s, longer) && Harmless(s, longer)
    ensures Stands(After(s, longer), t, k, d + 1, true, m)
  {
    hide Possible, Harmless, After;
    longer := Goes(s, run, t, c);
    longer := Goes(s, longer, t, c);
  }

  /** A broadcast leaves nobody waiting, and nothing else of the state changes for it. */
  lemma Tells(s: State, run: seq<Move>, t: nat, c: Choice, k: Code) returns (longer: seq<Move>)
    requires Orderly(s) && Does(run, t, c) && Possible(s, run) && Harmless(s, run)
    requires var s' := After(s, run); t < |s'.code| && s'.code[t] == Shout(k) && s'.waiters == None
    ensures Does(longer, t, c) && Possible(s, longer) && Harmless(s, longer) && NobodyAwaits(After(s, longer))
    ensures var s0, s1 := After(s, run), After(s, longer);
            s1 == s0.(code := s1.code) && t < |s1.code| && s1.code[t] == k
  {
    hide Possible, Harmless, After, Orderly, NobodyAwaits, WakeAll;
    longer := Goes(s, run, t, c);
    var s1 := After(s, longer);
    RunOrderly(s, longer);
    longer := Goes(s, longer, t, c);
    BroadcastWakesAll(s1, t);
    var s2 := After(s, longer);
    RunOrderly(s, longer);
    assert s2.code[t] == Then(DropWaiters, k) by { WokenDrop(s1.code[t := s1.code[t].tail], t, k); }
    longer := Goes(s, longer, t, c);
    StillNobody(s2, t);
  }

  lemma WokenDrop(codes: seq<Code>, t: nat, k: Code)
    requires t < |codes| && codes[t] == Then(DropWaiters, k)
    ensures WakeAll(codes)[t] == codes[t]
  {
  }

  lemma StillNobody(s: State, t: nat)
    requires Orderly(s) && Enabled(s, t, Go) && s.code[t].head == DropWaiters && NobodyAwaits(s)
    ensures NobodyAwaits(Step(s, t, Go))
  {
    CodeOf(s, t);
  }

  /** Unlocking switches the flag off, gives the lock back once and leaves nobody waiting. */
  lemma Unlocks(s: State, run: seq<Move>, t: nat, c: Choice, k: Code, d: nat, active: bool, m: nat)
    returns (longer: seq<Move>)
    requires Orderly(s) && Does(run, t, c) && Possible(s, run) && Harmless(s, run) && d > 0
    requires Stands(After(s, run), t, UnlockEvents(k), d, active, m)
    ensures Does(longer, t, c) && Possible(s, longer) && Harmless(s, longer) && NobodyAwaits(After(s, longer))
    ensures var s' := After(s, longer);
            && t < |s'.code| && s'.code[t] == k && !s'.active && s'.modifiers == m && s'.waiters == None
            && s'.depth == d - 1 && s'.owner == if d > 1 then Some(t) else None
  {
    hide Possible, Harmless, After, Orderly, Shout, NobodyAwaits;
    longer := Goes(s, run, t, c);
    longer := Goes(s, longer, t, c);
    longer := Tells(s, longer, t, c, k);
  }

  /** Up to the write, which works. */
  lemma ClosesInside(s: State, t: nat) returns (run: seq<Move>)
    requires t < |s.code| && Handling(s.code[t]) && s.waiters == None && s.owner == Some(t)
    requires s.code[t].tail == UnlockEvents(Done)
    ensures Does(run, t, Nest(Close)) && Possible(s, run) && Harmless(s, run)
    ensures var dec := Then(DecModify, UnlockEvents(Then(Handle(false), UnlockEvents(Done))));
            Stands(After(s, run), t, LockEvents(LockEvents(UnlockEvents(dec))), s.depth, s.active, s.modifiers + 1)
  {
    hide Possible, Harmless, After, LockEvents, UnlockEvents;
    run := Begins(s, t, Nest(Close));
    run := Goes(s, run, t, Nest(Close));
    run := Goes(s, run, t, Nest(Close));
  }

  /** Up to the end of do_close. */
  lemma ClosesOnce(s: State, t: nat, dec: Code) returns (run: seq<Move>)
    requires Orderly(s) && t < |s.code| && Handling(s.code[t]) && s.waiters == None && s.owner == Some(t)
    requires s.code[t].tail == UnlockEvents(Done)
    requires dec == Then(DecModify, UnlockEvents(Then(Handle(false), UnlockEvents(Done))))
    ensures Does(run, t, Nest(Close)) && Possible(s, run) && Harmless(s, run)
    ensures Stands(After(s, run), t, dec, s.depth + 1, false, s.modifiers + 1)
  {
    hide Possible, Harmless, After, Orderly, LockEvents, UnlockEvents, NobodyAwaits, Fits, Step, Enabled, Does;
    var c, d, m := Nest(Close), s.depth, s.modifiers + 1;
    run := ClosesInside(s, t);
    run := Locks(s, run, t, c, LockEvents(UnlockEvents(dec)), d, s.active, m);
    run := Locks(s, run, t, c, UnlockEvents(dec), d + 1, true, m);
    run := Unlocks(s, run, t, c, dec, d + 2, true, m);
  }

  /** A callback that closes a device: the handler is back at its handling with the lock as before, but with the flag off,
      and it has woken everybody on the way. */
  lemma NestedClose(s: State, t: nat) returns (run: seq<Move>)
    requires Orderly(s) && t < |s.code| && Handling(s.code[t]) && s.waiters == None
    ensures Does(run, t, Nest(Close)) && Possible(s, run) && Harmless(s, run)
    ensures Stands(After(s, run), t, Then(Handle(false), UnlockEvents(Done)), s.depth, false, s.modifiers)
    ensures NobodyAwaits(After(s, run))
  {
    hide Possible, Harmless, After, Orderly, LockEvents, UnlockEvents, NobodyAwaits, Fits, Does;
    HandlerCode(s, t);
    var c, back := Nest(Close), Then(Handle(false), UnlockEvents(Done));
    run := ClosesOnce(s, t, Then(DecModify, UnlockEvents(back)));
    run := Goes(s, run, t, c);
    run := Unlocks(s, run, t, c, back, s.depth + 1, false, s.modifiers);
  }

  lemma HandlerCode(s: State, t: nat)
    requires Orderly(s) && t < |s.code| && Handling(s.code[t])
    ensures s.owner == Some(t) && s.depth == 1 && s.code[t].tail == UnlockEvents(Done)
  {
    CodeOf(s, t);
  }

  /** A handler that is through gives the lock back, switches the flag off and leaves nobody waiting. */
  lemma HandlingEnds(s: State, t: nat) returns (run: seq<Move>)
    requires Orderly(s) && t < |s.code| && Handling(s.code[t]) && s.waiters == None
    ensures Does(run, t, Go) && Possible(s, run) && Harmless(s, run) && NobodyAwaits(After(s, run))
    ensures var s' := After(s, run);
            t < |s'.code| && s'.code[t] == Done && s'.owner == None && !s'.active && s'.modifiers == s.modifiers
  {
    hide Possible, Harmless, After, Orderly, UnlockEvents, NobodyAwaits, Fits;
    HandlerCode(s, t);
    run := Begins(s, t, Go);
    run := Unlocks(s, run, t, Go, Done, 1, s.active, s.modifiers);
  }

  /** A thread that sees its completion flag set when it looks again does not wait: it is done in one plain step more. */
  lemma FlagSeen(s: State, v: nat) returns (run: seq<Move>)
    requires Orderly(s) && v < |s.code| && Starts(s.code[v], RecheckModify)
    ensures Does(run, v, Enough) && Possible(s, run) && Harmless(s, run) && |run| == 2
    ensures Became(s, After(s, run), v, Done, s.owner, s.depth, s.active, None)
  {
    hide Possible, Harmless, After, Orderly, Fits;
    LookingCode(s, v);
    NoMoves(s);
    run := Played(s, [], v, Enough);
    run := Played(s, run, v, Go);
  }

  lemma LookingCode(s: State, v: nat)
    requires Orderly(s) && v < |s.code| && Starts(s.code[v], RecheckModify)
    ensures s.code[v] == Then(RecheckModify, Then(DropWaiters, Done)) && s.waiters == Some(v)
  {
    CodeOf(s, v);
  }

  /** Nobody holds the events lock or the waiters lock. */
  predicate Lies(s: State, t: nat, code: Code, m: nat) {
    && t < |s.code| && s.code[t] == code && s.owner == None && s.depth == 0 && !s.active && s.modifiers == m
    && s.waiters == None
  }

  lemma LocksFirst(s: State, run: seq<Move>, t: nat, c: Choice, k: Code, m: nat) returns (longer: seq<Move>)
    requires Does(run, t, c) && Possible(s, run) && Harmless(s, run) && Lies(After(s, run), t, LockEvents(k), m)
    ensures Does(longer, t, c) && Possible(s, longer) && Harmless(s, longer)
    ensures Stands(After(s, longer), t, k, 1, true, m)
  {
    hide Possible, Harmless, After;
    longer := Goes(s, run, t, c);
    longer := Goes(s, longer, t, c);
  }

  /** What a call does before it takes the lock: nothing, or the count and a write that works. */
  lemma CallBegins(s: State, t: nat, call: Call) returns (run: seq<Move>)
    requires !call.HandleEvents? && Lies(s, t, Done, s.modifiers)
    ensures var c := Choice.Start(call);
            Does(run, t, c) && Possible(s, run) && Harmless(s, run)
    ensures match call
            case Manual => Lies(After(s, run), t, LockEvents(Then(Handle(true), UnlockEvents(Done))), s.modifiers)
            case Notify => Lies(After(s, run), t, LockEvents(Then(DecModify, UnlockEvents(Done))), s.modifiers + 1)
            case Close =>
              Lies(After(s, run), t, LockEvents(LockEvents(UnlockEvents(Then(DecModify, UnlockEvents(Done))))),
                   s.modifiers + 1)
            case HandleEvents => false
  {
    hide Possible, Harmless, After, LockEvents, UnlockEvents;
    run := Begins(s, t, Choice.Start(call));
    if !call.Manual? {
      run := Goes(s, run, t, Choice.Start(call));
      run := Goes(s, run, t, Choice.Start(call));
    }
  }

  /** A notification, a close and a handling by hand come to their end when nobody else moves meanwhile, with the locks, the
      flag and the count as before and nobody left waiting. */
  lemma CallReturns(s: State, t: nat, call: Call) returns (run: seq<Move>)
    requires Orderly(s) && !call.HandleEvents? && Lies(s, t, Done, s.modifiers)
    ensures Does(run, t, Choice.Start(call)) && Possible(s, run) && Harmless(s, run)
    ensures Lies(After(s, run), t, Done, s.modifiers) && NobodyAwaits(After(s, run))
  {
    hide Possible, Harmless, After, Orderly, LockEvents, UnlockEvents, NobodyAwaits, Does, Fits;
    var c, m := Choice.Start(call), s.modifiers;
    run := CallBegins(s, t, call);
    var last := UnlockEvents(Done);
    if call.Manual? {
      run := LocksFirst(s, run, t, c, Then(Handle(true), last), m);
      run := LastUnlock(s, run, t, c, Handle(true), true, m);
    } else if call.Notify? {
      run := LocksFirst(s, run, t, c, Then(DecModify, last), m + 1);
      run := LastUnlock(s, run, t, c, DecModify, true, m);
    } else {
      run := LocksFirst(s, run, t, c, LockEvents(UnlockEvents(Then(DecModify, last))), m + 1);
      run := Locks(s, run, t, c, UnlockEvents(Then(DecModify, last)), 1, true, m + 1);
      run := Unlocks(s, run, t, c, Then(DecModify, last), 2, true, m + 1);
      run := LastUnlock(s, run, t, c, DecModify, false, m);
    }
  }

  lemma LastUnlock(s: State, run: seq<Move>, t: nat, c: Choice, i: Instr, active: bool, m: nat) returns (longer: seq<Move>)
    requires Orderly(s) && Does(run, t, c) && Possible(s, run) && Harmless(s, run) && (i == DecModify || i == Handle(true))
    requires Stands(After(s, run), t, Then(i, UnlockEvents(Done)), 1, active, if i == DecModify then m + 1 else m)
    ensures Does(longer, t, c) && Possible(s, longer) && Harmless(s, longer)
    ensures Lies(After(s, longer), t, Done, m) && NobodyAwaits(After(s, longer))
  {
    hide Possible, Harmless, After, Orderly, UnlockEvents, NobodyAwaits, Does, Fits;
    longer := Goes(s, run, t, c);
    longer := Unlocks(s, longer, t, c, Done, 1, active, m);
  }
}
