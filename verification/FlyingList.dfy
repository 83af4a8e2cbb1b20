/** libusbx's list of flying transfers: sorted by timeout on a circular heap list, scanned with early exits to flag expired
    transfers and to set the timer. */
module FlyingList {
  import opened Bytes
  import opened LinkedList

  /** struct timeval, normalised. */
  datatype Timeval = Timeval(sec: nat, usec: nat) {
    /** timerisset: an unset timeout is an infinite one. */
    predicate IsSet() {
      sec != 0 || usec != 0
    }

    function Micros(): nat {
      1_000_000 * sec + usec
    }

    /** The source's comparison. */
    predicate Later(tv: Timeval) {
      sec > tv.sec || (sec == tv.sec && usec > tv.usec)
    }
  }

  lemma LaterIsMore(a: Timeval, b: Timeval)
    requires a.usec < 1_000_000 && b.usec < 1_000_000
    ensures a.Later(b) <==> a.Micros() > b.Micros()
    ensures a.IsSet() <==> a.Micros() > 0
  {
  }

  /** A transfer is known by the address of its list node. */
  type Transfer = Ptr

  /** What the list does not hold: a transfer's timeout, and whether it was flagged as timed out or is left to the OS. */
  datatype Info = Info(timeout: Timeval, timedOut: bool, osHandles: bool)

  function Due(info: seq<Info>, t: Transfer): nat
    requires t < |info|
  {
    info[t].timeout.Micros()
  }

  predicate Finite(info: seq<Info>, t: Transfer) {
    t < |info| && info[t].timeout.IsSet()
  }

  /** Finite timeouts ascending, infinite ones last. */
  predicate Sorted(info: seq<Info>, s: seq<Transfer>) {
    && (forall i :: 0 <= i < |s| ==> s[i] < |info|)
    && forall i, j :: 0 <= i < j < |s| && Finite(info, s[j]) ==> Finite(info, s[i]) && Due(info, s[i]) <= Due(info, s[j])
  }

  /** `c` has to stand behind a new transfer `t`. */
  predicate Behind(info: seq<Info>, c: Transfer, t: Transfer) {
    Finite(info, t) && c < |info| && (!Finite(info, c) || Due(info, c) > Due(info, t))
  }

  /** The place of a new transfer: behind all that are due no later, equal ones included. */
  predicate PlaceOf(info: seq<Info>, s: seq<Transfer>, t: Transfer, at: nat) {
    && at <= |s|
    && (forall i :: 0 <= i < at ==> !Behind(info, s[i], t))
    && (forall i :: at <= i < |s| ==> Behind(info, s[i], t))
  }

  lemma OnlyOnePlace(info: seq<Info>, s: seq<Transfer>, t: Transfer, a: nat, b: nat)
    requires PlaceOf(info, s, t, a) && PlaceOf(info, s, t, b)
    ensures a == b
  {
    var first := if a < b then a else b;
    var disputed := first < |s| && Behind(info, s[first], t);
  }

  function Insert(s: seq<Transfer>, at: nat, t: Transfer): seq<Transfer>
    requires at <= |s|
  {
    s[..at] + [t] + s[at..]
  }

  lemma InsertAt(s: seq<Transfer>, at: nat, t: Transfer)
    requires at <= |s|
    ensures var r := Insert(s, at, t);
            && |r| == |s| + 1 && IsInsert(s, at, t, r)
            && forall k :: 0 <= k < |r| ==> r[k] == if k < at then s[k] else if k == at then t else s[k - 1]
  {
  }

  lemma InsertMultiset(s: seq<Transfer>, at: nat, t: Transfer)
    requires at <= |s|
    ensures multiset(Insert(s, at, t)) == multiset(s) + multiset{t}
  {
    assert s == s[..at] + s[at..];
  }

  lemma InsertSorted(info: seq<Info>, s: seq<Transfer>, t: Transfer, at: nat)
    requires Sorted(info, s) && t < |info| && PlaceOf(info, s, t, at)
    ensures Sorted(info, Insert(s, at, t)) && IsInsert(s, at, t, Insert(s, at, t))
    ensures multiset(Insert(s, at, t)) == multiset(s) + multiset{t}
  {
    hide Insert, IsInsert;
    InsertAt(s, at, t);
    InsertMultiset(s, at, t);
    var r := Insert(s, at, t);
    forall i, j | 0 <= i < j < |r| && Finite(info, r[j])
      ensures Finite(info, r[i]) && Due(info, r[i]) <= Due(info, r[j])
    {
      if i == at {
        assert r[j] == s[j - 1];
      } else if j == at {
        assert !Behind(info, s[i], t);
      }
    }
  }

  /** Once a finite timeout comes no earlier than t's, all later ones do. */
  lemma FirstBehind(info: seq<Info>, s: seq<Transfer>, t: Transfer, at: nat)
    requires Sorted(info, s) && at < |s| && Behind(info, s[at], t)
    ensures forall i :: at <= i < |s| ==> Behind(info, s[i], t)
  {
  }

  /** The earliest unflagged finite timeout of the list: what the timer should be set to. */
  predicate Waits(info: seq<Info>, t: Transfer) {
    Finite(info, t) && !info[t].timedOut
  }

  ghost predicate IsNext(info: seq<Info>, s: seq<Transfer>, tv: Option<Timeval>) {
    match tv
    case None => forall t :: t in s ==> !Waits(info, t)
    case Some(v) =>
      && (exists t :: t in s && Waits(info, t) && info[t].timeout == v)
      && (forall t :: t in s && Waits(info, t) ==> v.Micros() <= Due(info, t))
  }

  /** Not yet handled, and not left to the operating system. */
  predicate Unhandled(info: seq<Info>, t: Transfer) {
    Finite(info, t) && !info[t].timedOut && !info[t].osHandles
  }

  predicate Expired(info: seq<Info>, t: Transfer, now: Timeval) {
    Unhandled(info, t) && Due(info, t) <= now.Micros()
  }

  lemma NextAt(l: Links, head: Ptr, s: seq<Ptr>, i: nat)
    requires Ring(l, head, s)
    ensures l.Has(head) && l.next[head] == At(s, head, 0)
    ensures i < |s| ==> l.Has(s[i]) && s[i] != head && l.next[s[i]] == At(s, head, i + 1)
  {
  }

  class Context {
    const capacity: nat                // transfers there can be
    const usingTimerfd: bool
    var links: Links
    var info: seq<Info>
    var timer: Option<Timeval>         // what the timerfd is armed for
    ghost var flying: seq<Transfer>

    /** Address of the list head. */
    function Head(): Ptr {
      capacity
    }

    ghost predicate Valid()
      reads this
    {
      && |info| == capacity && |links.next| == |links.prev| == capacity + 1
      && (forall t :: 0 <= t < |info| ==> info[t].timeout.usec < 1_000_000)
      && Ring(links, Head(), flying) && Sorted(info, flying)
    }

    constructor (capacity: nat, usingTimerfd: bool)
      ensures Valid() && flying == [] && timer == None
      ensures this.capacity == capacity && this.usingTimerfd == usingTimerfd
    {
      this.capacity, this.usingTimerfd := capacity, usingTimerfd;
      info := seq(capacity, _ => Info(Timeval(0, 0), false, false));
      links := ListInit(Links(seq(capacity + 1, _ => 0), seq(capacity + 1, _ => 0)), capacity);
      timer, flying := None, [];
    }

    /** The search of add_to_flying_list; the node before which the transfer goes in, the head for the end. */
    method FindPlace(t: Transfer) returns (cur: Ptr, first: bool, ghost at: nat)
      requires Valid() && t < capacity && Finite(info, t)
      ensures PlaceOf(info, flying, t, at) && cur == At(flying, Head(), at)
      ensures first <==> at == 0
    {
      hide Ring, Sorted;
      NextAt(links, Head(), flying, 0);
      cur, first, at := links.next[Head()], true, 0;
      while cur != Head()
        invariant at <= |flying| && cur == At(flying, Head(), at) && (first <==> at == 0)
        invariant forall i :: 0 <= i < at ==> !Behind(info, flying[i], t)
        decreases |flying| - at
      {
        NextAt(links, Head(), flying, at);
        Ahead(t, at);
        if !info[cur].timeout.IsSet() || info[cur].timeout.Later(info[t].timeout) {
          FirstBehind(info, flying, t, at);
          return;
        }
        first := false;
        cur := links.next[cur];
        at := at + 1;
      }
      NextAt(links, Head(), flying, at);
    }

    lemma Ahead(t: Transfer, i: nat)
      requires Valid() && t < capacity && i < |flying|
      ensures flying[i] < |info|
      ensures Behind(info, flying[i], t) <==>
              Finite(info, t) && (!info[flying[i]].timeout.IsSet() || info[flying[i]].timeout.Later(info[t].timeout))
    {
      LaterIsMore(info[flying[i]].timeout, info[t].timeout);
    }

    /** What add_to_flying_list leaves in the list, wherever the search ended. */
    method LinkIn(t: Transfer, cur: Ptr, ghost at: nat)
      requires Valid() && t < capacity && t !in flying
      requires PlaceOf(info, flying, t, at) && cur == At(flying, Head(), at)
      modifies this`links, this`flying
      ensures Valid() && flying == Insert(old(flying), at, t)
    {
      InsertSorted(info, flying, t, at);
      Neighbours(at);
      AddTailFields(links, t, cur);
      ghost var l' := ListAddTail(links, t, cur);
      InsertedRing(links, l', t, Head(), flying, at, Insert(flying, at, t));
      hide Ring, Sorted, ListAddTail;
      links := ListAddTail(links, t, cur);
      flying := Insert(flying, at, t);
    }

    lemma Neighbours(at: nat)
      requires Valid() && at <= |flying|
      ensures var cur := At(flying, Head(), at);
              && links.Has(cur) && links.Has(links.prev[cur])
              && links.prev[cur] == if at == 0 then Head() else flying[at - 1]
    {
    }

    /** add_to_flying_list: the transfer goes behind all that are due no later, and the timer is set when it comes first.
        `settable` is whether timerfd_settime works. */
    method AddToFlyingList(t: Transfer, settable: bool) returns (ok: bool, ghost at: nat)
      requires Valid() && t < capacity && t !in flying
      modifies this`links, this`flying, this`timer
      ensures Valid()
      ensures PlaceOf(info, old(flying), t, at) && flying == Insert(old(flying), at, t)
      ensures var sets := usingTimerfd && at == 0 && info[t].timeout.IsSet();
              && (ok <==> !sets || settable)
              && timer == if sets && settable then Some(info[t].timeout) else old(timer)
    {
      hide Ring, Sorted;
      NextAt(links, Head(), flying, 0);
      var first := true;
      if links.next[Head()] == Head() {
        at := 0;
        LinkFirst(t);
      } else if !info[t].timeout.IsSet() {
        at := |flying|;
        LinkIn(t, Head(), at);
      } else {
        var cur;
        cur, first, at := FindPlace(t);
        LinkIn(t, cur, at);
      }
      ok := true;
      if first && usingTimerfd && info[t].timeout.IsSet() {
        if settable {
          timer := Some(info[t].timeout);
        } else {
          ok := false;
        }
      }
    }

    /** The first flying transfer. */
    method LinkFirst(t: Transfer)
      requires Valid() && t < capacity && flying == []
      modifies this`links, this`flying
      ensures Valid() && flying == [t] == Insert(old(flying), 0, t)
    {
      AddFields(links, t, Head());
      InsertedRing(links, ListAdd(links, t, Head()), t, Head(), [], 0, [t]);
      links := ListAdd(links, t, Head());
      flying := [t];
    }

    /** list_del of a flying transfer. */
    method Unlink(t: Transfer, ghost at: nat)
      requires Valid() && at < |flying| && flying[at] == t
      modifies this`links, this`flying
      ensures Valid() && flying == old(flying[..at] + flying[at + 1..])
    {
      ghost var s := flying[..at] + flying[at + 1..];
      LinksOf(at);
      DelFields(links, t);
      DeletedRing(links, ListDel(links, t), Head(), flying, at, s);
      hide Ring, ListDel;
      links := ListDel(links, t);
      flying := s;
    }

    lemma LinksOf(at: nat)
      requires Valid() && at < |flying|
      ensures var t := flying[at];
              && links.Has(t) && links.Has(links.next[t]) && links.Has(links.prev[t])
              && links.next[t] != t && links.prev[t] != t
    {
      if at > 0 { OnlyAt(links, Head(), flying, 0, |flying|, at); }
      if at + 1 < |flying| { OnlyAt(links, Head(), flying, 0, |flying|, at); }
    }

    /** arm_timerfd_for_next_timeout: 1 for a timer armed, 0 for a timer disarmed, None for a failed call. */
    method ArmForNextTimeout(settable: bool) returns (r: Option<nat>)
      requires Valid()
      modifies this`timer
      ensures Valid()
      ensures settable ==> IsNext(info, flying, timer) && r == Some(if timer.Some? then 1 else 0)
      ensures !settable ==> r == None && timer == old(timer)
    {
      hide Ring;
      NextAt(links, Head(), flying, 0);
      var transfer := links.next[Head()];
      ghost var at := 0;
      while transfer != Head()
        invariant at <= |flying| && transfer == At(flying, Head(), at)
        invariant timer == old(timer) && forall i :: 0 <= i < at ==> !Waits(info, flying[i])
        decreases |flying| - at
      {
        NextAt(links, Head(), flying, at);
        if !info[transfer].timeout.IsSet() {
          break;
        }
        if !info[transfer].timedOut {
          if settable {
            timer := Some(info[transfer].timeout);
            return Some(1);
          }
          return None;
        }
        transfer := links.next[transfer];
        at := at + 1;
      }
      NextAt(links, Head(), flying, at);
      if settable {
        timer := None;
        return Some(0);
      }
      return None;
    }

    /** libusb_submit_transfer under the list's lock; `accepted` is the backend's answer. A transfer that was not submitted
        is off the list again, and the timer set for what the list holds. */
    method SubmitTransfer(t: Transfer, timeout: nat, sec: nat, nsec: nat, settable: bool, accepted: bool, osHandles: bool,
                          rearmable: bool)
      returns (ok: bool)
      requires Valid() && t < capacity && t !in flying && nsec < 1_000_000_000
      modifies this
      ensures Valid()
      ensures |info| == |old(info)| && forall u :: 0 <= u < |info| && u != t ==> info[u] == old(info)[u]
      ensures !info[t].timedOut && IsTimeout(old(info)[t].timeout, timeout, sec, nsec, info[t].timeout)
      ensures info[t].osHandles <==> ok && osHandles
      ensures ok <==> accepted && (settable || !Rearms(old(flying), t))
      ensures ok ==> exists at :: PlaceOf(info, old(flying), t, at) && flying == Insert(old(flying), at, t)
      ensures ok ==> timer == if Rearms(old(flying), t) then Some(info[t].timeout) else old(timer)
      ensures !ok ==> flying == old(flying) && (rearmable ==> IsNext(info, flying, timer))
    {
      hide Ring, Sorted, PlaceOf, Finite, Insert, IsNext, IsTimeout, End;
      var tv := CalculateTimeout(info[t].timeout, timeout, sec, nsec);
      Change(t, Info(tv, false, false));
      ghost var at;
      ok, at := AddToFlyingList(t, settable);
      FinitePlace(info, old(flying), t, at);
      if ok {
        ok := accepted;
        if accepted && osHandles {
          SamePlace(info, info[t := info[t].(osHandles := true)], old(flying), t, at);
          Flag(t);
        }
      }
      if !ok {
        TakenBack(old(flying), at, t);
        Unlink(t, at);
        var _ := ArmForNextTimeout(rearmable);
      }
    }

    /** usbi_handle_transfer_completion as far as the list goes: false when the timer could not be set for the others. */
    method HandleCompletion(t: Transfer, rearmable: bool) returns (ok: bool)
      requires Valid() && t in flying
      modifies this`links, this`flying, this`timer
      ensures Valid() && t !in flying && multiset(flying) + multiset{t} == multiset(old(flying))
      ensures ok <==> !usingTimerfd || rearmable
      ensures usingTimerfd && rearmable ==> IsNext(info, flying, timer)
      ensures !usingTimerfd || !rearmable ==> timer == old(timer)
    {
      hide Ring, Sorted, IsNext;
      ghost var at :| 0 <= at < |flying| && flying[at] == t;
      TakenOut(at);
      Unlink(t, at);
      ok := true;
      if usingTimerfd {
        var r := ArmForNextTimeout(rearmable);
        ok := r.Some?;
      }
    }

    /** A transfer is on the list only once. */
    lemma TakenOut(at: nat)
      requires Valid() && at < |flying|
      ensures var s := flying[..at] + flying[at + 1..];
              flying[at] !in s && multiset(s) + multiset{flying[at]} == multiset(flying)
    {
      var s := flying[..at] + flying[at + 1..];
      forall k | 0 <= k < |s|
        ensures s[k] != flying[at]
      {
        OnlyAt(links, Head(), flying, 0, |flying|, at);
      }
      assert flying == flying[..at] + [flying[at]] + flying[at + 1..];
    }

    /** The timer has to be set for a transfer that joins these. */
    predicate Rearms(flying: seq<Transfer>, t: Transfer)
      reads this`info
    {
      usingTimerfd && Finite(info, t) && PlaceOf(info, flying, t, 0)
    }

    /** A transfer is submitted, and at `now` the timeouts are looked at: it is flagged then exactly when the end of its
        timeout, counted from the submission, is not after now, unless nobody but the operating system minds it. */
    method SubmitAndHandle(t: Transfer, timeout: nat, sec: nat, nsec: nat, settable: bool, accepted: bool,
                           osHandles: bool, rearmable: bool, now: Timeval)
      returns (ok: bool)
      requires Valid() && t < capacity && t !in flying && nsec < 1_000_000_000 && now.usec < 1_000_000
      modifies this
      ensures Valid() && t < |info|
      ensures timeout > 0 ==>
                (info[t].timedOut <==> ok && !osHandles && End(sec, nsec, timeout) <= now.Micros())
    {
      hide Ring, Sorted;
      ok := SubmitTransfer(t, timeout, sec, nsec, settable, accepted, osHandles, rearmable);
      if timeout > 0 {
        SubmittedExpires(info, t, timeout, sec, nsec, now);
      }
      HandleTimeoutsLocked(now);
    }

    /** The fields of a transfer that is not flying. */
    method Change(t: Transfer, to: Info)
      requires Valid() && t < capacity && t !in flying && to.timeout.usec < 1_000_000
      modifies this`info
      ensures Valid() && info == old(info)[t := to]
    {
      Elsewhere(info, info[t := to], flying);
      hide Ring, Sorted;
      info := info[t := to];
    }

    /** The backend takes over the timeout. */
    method Flag(t: Transfer)
      requires Valid() && t < capacity
      modifies this`info
      ensures Valid() && info == old(info)[t := old(info)[t].(osHandles := true)]
    {
      SameTimeouts(info, info[t := info[t].(osHandles := true)], flying);
      hide Ring, Sorted;
      info := info[t := info[t].(osHandles := true)];
    }

    /** handle_timeout, its cancel request neither unlinking the transfer nor changing its timeout. */
    method HandleTimeout(t: Transfer)
      requires Valid() && t < capacity
      modifies this`info
      ensures Valid() && info == old(info)[t := old(info)[t].(timedOut := true)]
    {
      SameTimeouts(info, info[t := info[t].(timedOut := true)], flying);
      hide Ring, Sorted;
      info := info[t := info[t].(timedOut := true)];
    }

    /** handle_timeouts_locked: the scan stops at the first timeout still ahead or infinite, and yet flags exactly the
        expired transfers that were neither flagged nor left to the operating system. */
    method HandleTimeoutsLocked(now: Timeval)
      requires Valid() && now.usec < 1_000_000
      modifies this`info
      ensures Valid()
      ensures forall t :: 0 <= t < capacity ==>
                info[t] == if t in flying
                  && Expired(old(info), t, now) then old(info)[t].(timedOut := true) else old(info)[t]
    {
      hide Ring, Sorted;
      ghost var was := info;
      AllKnown(info, flying);
      NextAt(links, Head(), flying, 0);
      var transfer := links.next[Head()];
      ghost var at := 0;
      while transfer != Head()
        invariant Valid() && at <= |flying| && transfer == At(flying, Head(), at)
        invariant Flagged(was, info, flying, at, now)
        decreases |flying| - at
      {
        NextAt(links, Head(), flying, at);
        Known(at);
        if !info[transfer].timeout.IsSet() {
          RestInfinite(info, flying, at);
          break;
        }
        if !info[transfer].timedOut && !info[transfer].osHandles {
          LaterIsMore(info[transfer].timeout, now);
          if info[transfer].timeout.Later(now) {
            RestLater(info, flying, at, now);
            break;
          }
          FlagNext(was, info, flying, at, now);
          HandleTimeout(transfer);
        }
        transfer := links.next[transfer];
        at := at + 1;
      }
      NextAt(links, Head(), flying, at);
    }

    /** libusb_get_next_timeout: without a timerfd, the time left until the earliest timeout that is still to be handled,
        zero when it has passed. */
    method GetNextTimeout(now: Timeval) returns (left: Option<Timeval>)
      requires Valid() && now.usec < 1_000_000
      ensures usingTimerfd ==> left == None
      ensures !usingTimerfd ==> (left == None <==> forall i :: 0 <= i < |flying| ==> !Unhandled(info, flying[i]))
      ensures left.Some? ==> left.value.usec < 1_000_000 && IsLeft(info, flying, now, left.value)
    {
      hide Ring, Sorted, IsLeft, IsEarliest;
      if usingTimerfd {
        return None;
      }
      NextAt(links, Head(), flying, 0);
      var transfer := links.next[Head()];
      ghost var at := 0;
      while transfer != Head()
        invariant at <= |flying| && transfer == At(flying, Head(), at)
        invariant forall i :: 0 <= i < at ==> !Unhandled(info, flying[i])
        decreases |flying| - at
      {
        NextAt(links, Head(), flying, at);
        if !info[transfer].timedOut && !info[transfer].osHandles && info[transfer].timeout.IsSet() {
          Earliest(info, flying, at);
          var rest := TimeUntil(info[transfer].timeout, now);
          TimeLeft(info, flying, at, now, rest);
          return Some(rest);
        }
        transfer := links.next[transfer];
        at := at + 1;
      }
      NextAt(links, Head(), flying, at);
      return None;
    }

    /** The time left until a timeout, zero when it has passed. */
    static method TimeUntil(timeout: Timeval, now: Timeval) returns (left: Timeval)
      requires timeout.usec < 1_000_000 && now.usec < 1_000_000
      ensures left.usec < 1_000_000
      ensures left.Micros() == if timeout.Micros() > now.Micros() then timeout.Micros() - now.Micros() else 0
    {
      LaterIsMore(timeout, now);
      if !timeout.Later(now) {
        return Timeval(0, 0);
      }
      left := TimerSub(timeout, now);
    }

    lemma Known(i: nat)
      requires Valid() && i < |flying|
      ensures flying[i] < |info| && info[flying[i]].timeout.usec < 1_000_000
      ensures forall k :: 0 <= k < |flying| && k != i ==> flying[k] != flying[i]
    {
      OnlyAt(links, Head(), flying, 0, |flying|, i);
    }
  }

  /** timersub */
  function TimerSub(a: Timeval, b: Timeval): (r: Timeval)
    requires a.usec < 1_000_000 && b.usec < 1_000_000 && a.Later(b)
    ensures r.usec < 1_000_000 && r.Micros() == a.Micros() - b.Micros()
  {
    if a.usec < b.usec then Timeval(a.sec - b.sec - 1, a.usec + 1_000_000 - b.usec)
    else Timeval(a.sec - b.sec, a.usec - b.usec)
  }

  /** The time until the earliest timeout still to be handled. */
  ghost predicate IsLeft(info: seq<Info>, s: seq<Transfer>, now: Timeval, left: Timeval) {
    exists i ::
      && 0 <= i < |s| && IsEarliest(info, s, i)
      && left.Micros() == if Due(info, s[i]) > now.Micros() then Due(info, s[i]) - now.Micros() else 0
  }

  /** The i-th transfer is still to be handled, and none still to be handled is due before it. */
  predicate IsEarliest(info: seq<Info>, s: seq<Transfer>, i: nat) {
    && i < |s| && Unhandled(info, s[i])
    && forall j :: 0 <= j < |s| && Unhandled(info, s[j]) ==> Due(info, s[i]) <= Due(info, s[j])
  }

  lemma TimeLeft(info: seq<Info>, s: seq<Transfer>, i: nat, now: Timeval, left: Timeval)
    requires i < |s| && s[i] < |info| && IsEarliest(info, s, i)
    requires left.Micros() == if Due(info, s[i]) > now.Micros() then Due(info, s[i]) - now.Micros() else 0
    ensures IsLeft(info, s, now, left)
  {
  }

  lemma Earliest(info: seq<Info>, s: seq<Transfer>, at: nat)
    requires Sorted(info, s) && at < |s| && Unhandled(info, s[at])
    requires forall i :: 0 <= i < at ==> !Unhandled(info, s[i])
    ensures IsEarliest(info, s, at)
  {
  }

  /** `r` are the transfers of `s` and t. */
  ghost predicate Added(s: seq<Transfer>, t: Transfer, r: seq<Transfer>) {
    forall c :: c in r <==> c in s || c == t
  }

  /** A transfer that nobody waits for, or that comes no earlier than one that is waited for, leaves the timer right. */
  lemma TimerStays(info: seq<Info>, s: seq<Transfer>, t: Transfer, r: seq<Transfer>, timer: Option<Timeval>)
    requires Added(s, t, r) && IsNext(info, s, timer)
    requires Waits(info, t) ==> exists c :: c in s && Waits(info, c) && Due(info, c) <= Due(info, t)
    ensures IsNext(info, r, timer)
  {
  }

  /** A transfer that comes before all that are waited for needs the timer. */
  lemma TimerNeeded(info: seq<Info>, s: seq<Transfer>, t: Transfer, r: seq<Transfer>, timer: Option<Timeval>)
    requires Added(s, t, r) && IsNext(info, s, timer) && Waits(info, t)
    requires forall c :: c in s && Waits(info, c) ==> Due(info, c) > Due(info, t)
    ensures !IsNext(info, r, timer) && IsNext(info, r, Some(info[t].timeout))
  {
    assert t in r;
  }

  lemma LaterBehind(info: seq<Info>, s: seq<Transfer>, t: Transfer, at: nat)
    requires PlaceOf(info, s, t, at) && forall i :: 0 <= i < at ==> !Waits(info, s[i])
    ensures forall c :: c in s && Waits(info, c) ==> Due(info, c) > Due(info, t)
  {
    forall c | c in s && Waits(info, c)
      ensures Due(info, c) > Due(info, t)
    {
      var i :| 0 <= i < |s| && s[i] == c;
      assert Behind(info, s[i], t);
    }
  }

  /** After a transfer has been added, the timer is set for the next timeout exactly when the new timeout is infinite,
      comes first, or comes behind one that is still waited for: behind flagged transfers only, the timer is left as it was
      and the new timeout is missed. */
  lemma TimerTracksIff(info: seq<Info>, s: seq<Transfer>, t: Transfer, at: nat, timer: Option<Timeval>)
    requires Sorted(info, s) && t < |info| && !info[t].timedOut && PlaceOf(info, s, t, at) && IsNext(info, s, timer)
    ensures IsNext(info, Insert(s, at, t), if at == 0 && Finite(info, t) then Some(info[t].timeout) else timer)
            <==> !Finite(info, t) || at == 0 || exists i :: 0 <= i < at && Waits(info, s[i])
  {
    hide IsNext, Insert, Sorted;
    var r := Insert(s, at, t);
    InsertedMembers(s, at, t);
    if i :| 0 <= i < at && Waits(info, s[i]) {
      assert s[i] in s && !Behind(info, s[i], t);
      TimerStays(info, s, t, r, timer);
    } else if Finite(info, t) {
      LaterBehind(info, s, t, at);
      hide PlaceOf, Behind;
      TimerNeeded(info, s, t, r, timer);
    } else {
      TimerStays(info, s, t, r, timer);
    }
  }

  lemma InsertedMembers(s: seq<Transfer>, at: nat, t: Transfer)
    requires at <= |s|
    ensures Added(s, t, Insert(s, at, t))
  {
    assert s == s[..at] + s[at..];
  }

  lemma AllKnown(info: seq<Info>, s: seq<Transfer>)
    requires Sorted(info, s)
    ensures forall i :: 0 <= i < |s| ==> s[i] < |info|
  {
  }

  lemma Elsewhere(info: seq<Info>, info': seq<Info>, s: seq<Transfer>)
    requires Sorted(info, s) && |info'| == |info|
    requires forall t :: 0 <= t < |info| && t in s ==> info'[t] == info[t]
    ensures Sorted(info', s)
  {
  }

  /** What a submission stores: with a timeout, the time of day it ends, in whole microseconds; without one, whatever an
      earlier submission of the transfer has left there. */
  predicate IsTimeout(stored: Timeval, timeout: nat, sec: nat, nsec: nat, tv: Timeval) {
    && tv.usec < 1_000_000
    && if timeout == 0 then tv == stored else tv.Micros() == End(sec, nsec, timeout)
  }

  /** In microseconds, where a timeout of so many milliseconds ends that begins when the clock reads `sec` and `nsec`. */
  function End(sec: nat, nsec: nat, timeout: nat): nat {
    (1_000_000_000 * sec + nsec + 1_000_000 * timeout) / 1000
  }

  lemma SubmittedExpires(info: seq<Info>, t: Transfer, timeout: nat, sec: nat, nsec: nat, now: Timeval)
    requires t < |info| && timeout > 0 && now.usec < 1_000_000 && !info[t].timedOut
    requires info[t].timeout.usec < 1_000_000 && info[t].timeout.Micros() == End(sec, nsec, timeout)
    ensures Expired(info, t, now) <==> !info[t].osHandles && End(sec, nsec, timeout) <= now.Micros()
  {
    EndIsAhead(sec, nsec, timeout);
    hide End, Timeval.Micros;
    LaterIsMore(info[t].timeout, now);
  }

  lemma EndIsAhead(sec: nat, nsec: nat, timeout: nat)
    requires timeout > 0
    ensures End(sec, nsec, timeout) > 0
  {
  }

  /** The place in front is the only one when it is one. */
  lemma FinitePlace(info: seq<Info>, s: seq<Transfer>, t: Transfer, at: nat)
    requires t < |info| && PlaceOf(info, s, t, at)
    ensures at <= |s| && (at == 0 <==> PlaceOf(info, s, t, 0))
    ensures Finite(info, t) <==> info[t].timeout.IsSet()
  {
    if PlaceOf(info, s, t, 0) {
      OnlyOnePlace(info, s, t, 0, at);
    }
  }

  lemma SamePlace(info: seq<Info>, info': seq<Info>, s: seq<Transfer>, t: Transfer, at: nat)
    requires |info'| == |info| && forall u :: 0 <= u < |info| ==> info'[u].timeout == info[u].timeout
    ensures PlaceOf(info', s, t, at) <==> PlaceOf(info, s, t, at)
    ensures PlaceOf(info', s, t, 0) <==> PlaceOf(info, s, t, 0)
    ensures Finite(info', t) <==> Finite(info, t)
  {
    forall u, v
      ensures Behind(info', u, v) <==> Behind(info, u, v)
    {
    }
  }

  lemma TakenBack(s: seq<Transfer>, at: nat, t: Transfer)
    requires at <= |s|
    ensures var r := Insert(s, at, t); at < |r| && r[at] == t && r[..at] + r[at + 1..] == s
  {
    assert s[..at] + s[at..] == s;
  }

  /** calculate_timeout, on a clock that reads `sec` and `nsec`; the timeout is in milliseconds. */
  method CalculateTimeout(stored: Timeval, timeout: nat, sec: nat, nsec: nat) returns (tv: Timeval)
    requires stored.usec < 1_000_000 && nsec < 1_000_000_000
    ensures IsTimeout(stored, timeout, sec, nsec, tv)
  {
    if timeout == 0 {
      return stored;
    }
    var s, n := sec + timeout / 1000, nsec + (timeout % 1000) * 1_000_000;
    while n >= 1_000_000_000
      invariant n >= 0 && 1_000_000_000 * s + n == 1_000_000_000 * sec + nsec + 1_000_000 * timeout
    {
      n := n - 1_000_000_000;
      s := s + 1;
    }
    tv := Timeval(s, n / 1000);
  }

  lemma SameTimeouts(info: seq<Info>, info': seq<Info>, s: seq<Transfer>)
    requires Sorted(info, s) && |info'| == |info|
    requires forall t :: 0 <= t < |info| ==> info'[t].timeout == info[t].timeout
    ensures Sorted(info', s)
  {
    assert forall t :: Finite(info', t) <==> Finite(info, t);
    assert forall t :: 0 <= t < |info| ==> Due(info', t) == Due(info, t);
  }

  /** The scan has done its work up to `at` and nothing beyond. */
  ghost predicate Flagged(was: seq<Info>, info: seq<Info>, s: seq<Transfer>, at: nat, now: Timeval) {
    && |info| == |was| && at <= |s|
    && (forall i :: 0 <= i < |s| ==> s[i] < |was|)
    && (forall t :: 0 <= t < |was| && t !in s ==> info[t] == was[t])
    && (forall i :: at <= i < |s| ==> info[s[i]] == was[s[i]])
    && (forall i :: 0 <= i < at ==>
          info[s[i]] == if Expired(was, s[i], now) then was[s[i]].(timedOut := true) else was[s[i]])
  }

  lemma FlagNext(was: seq<Info>, info: seq<Info>, s: seq<Transfer>, at: nat, now: Timeval)
    requires Flagged(was, info, s, at, now) && at < |s| && Expired(info, s[at], now)
    requires forall k :: 0 <= k < |s| && k != at ==> s[k] != s[at]
    ensures Flagged(was, info[s[at] := info[s[at]].(timedOut := true)], s, at + 1, now)
  {
  }

  /** Behind an infinite timeout nothing can expire. */
  lemma RestInfinite(info: seq<Info>, s: seq<Transfer>, at: nat)
    requires Sorted(info, s) && at < |s| && !Finite(info, s[at])
    ensures forall i :: at <= i < |s| ==> !Finite(info, s[i])
  {
  }

  /** Behind a timeout still ahead nothing has expired. */
  lemma RestLater(info: seq<Info>, s: seq<Transfer>, at: nat, now: Timeval)
    requires Sorted(info, s) && at < |s| && Due(info, s[at]) > now.Micros()
    ensures forall i :: at <= i < |s| ==> !Expired(info, s[i], now)
  {
  }
}
