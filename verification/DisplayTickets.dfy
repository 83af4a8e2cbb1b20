/** The pool of display tickets: each ticket carries one URB and sits on the pool's list, in a sender's bundle,
    or with the host controller. Completions arrive at any time and put tickets back at the pool's tail;
    a ticket coming back is relinked without being unlinked from the bundle it was sold in. */
module DisplayTickets {
  import opened Bytes
  import opened LinkedList

  /** A ticket is known by the address of its list node. */
  type Ticket = Ptr

  /** On the pool's list, sold and not submitted, or with the host controller. */
  datatype Place = Pooled(at: nat) | Held | Flying

  /** The record of where the tickets are. `queue` logs the tickets in the order they joined the pool; the pool's
      list is what has not been sold yet, queue[sold..]. */
  datatype Ledger = Ledger(queue: seq<Ticket>, sold: nat, place: map<Ticket, Place>) {

    /** Every ticket is in exactly one place, a pooled one exactly once in the list. */
    predicate Balanced() {
      && sold <= |queue|
      && (forall i {:trigger queue[i]} :: sold <= i < |queue| ==> queue[i] in place && place[queue[i]] == Pooled(i))
      && (forall t {:trigger place[t]} :: t in place && place[t].Pooled? ==>
            sold <= place[t].at < |queue| && queue[place[t].at] == t)
    }

    function Count(): nat
      requires sold <= |queue|
    {
      |queue| - sold
    }

    function Sell(n: nat): Ledger {
      Ledger(queue, sold + n, map t | t in place :: if place[t].Pooled? && place[t].at < sold + n then Held else place[t])
    }

    function Submit(t: Ticket): Ledger {
      Ledger(queue, sold, place[t := Flying])
    }

    function Return(t: Ticket): Ledger {
      Ledger(queue + [t], sold, place[t := Pooled(|queue|)])
    }

    /** The pooled tickets are tickets, and no two positions hold the same one. */
    lemma PooledAreTickets(bound: nat)
      requires Balanced() && forall t :: t in place ==> t < bound
      ensures forall i {:trigger queue[i]} :: sold <= i < |queue| ==> queue[i] < bound
      ensures forall i, j :: sold <= i < j < |queue| ==> queue[i] != queue[j]
    {
    }

    lemma SellBalanced(n: nat)
      requires Balanced() && n <= Count()
      ensures Sell(n).Balanced() && Sell(n).place.Keys == place.Keys && |Sell(n).place| == |place|
      ensures Sell(n).queue == queue && Sell(n).sold == sold + n
      ensures forall t :: t in place ==>
                && (Sell(n).place[t] == Flying <==> place[t] == Flying)
                && (Sell(n).place[t].Pooled? ==> place[t].Pooled?)
    {
    }

    lemma ReturnIsPooled(t: Ticket)
      ensures t in Return(t).place && Return(t).place[t].Pooled?
    {
    }

    lemma NotQueued(t: Ticket)
      requires Balanced() && t in place && !place[t].Pooled?
      ensures forall i {:trigger queue[i]} :: sold <= i < |queue| ==> queue[i] != t
    {
    }

    lemma ReturnBalanced(t: Ticket)
      requires Balanced() && t in place && !place[t].Pooled?
      ensures Return(t).Balanced() && Return(t).place.Keys == place.Keys && |Return(t).place| == |place|
      ensures Return(t).queue == queue + [t] && Return(t).sold == sold
    {
    }

    lemma SubmitBalanced(t: Ticket)
      requires Balanced() && t in place && place[t] == Held
      ensures Submit(t).Balanced()
    {
    }

    function InPool(): set<Ticket> {
      set t | t in place && place[t].Pooled?
    }

    function Outside(p: Place): set<Ticket> {
      set t | t in place && place[t] == p
    }

    lemma SellOne()
      requires Balanced() && Count() > 0
      ensures InPool() == Sell(1).InPool() + {queue[sold]} && queue[sold] !in Sell(1).InPool()
    {
    }

    lemma {:induction false} PoolCount()
      requires Balanced()
      ensures |InPool()| == Count()
      decreases Count()
    {
      if Count() == 0 {
        assert InPool() == {};
      } else {
        var rest := Sell(1);
        SellBalanced(1);
        SellOne();
        hide Balanced, InPool, Sell;
        rest.PoolCount();
      }
    }

    /** pool + held + in flight = all, and the pool is full exactly when nothing is outstanding. */
    lemma Conservation()
      requires Balanced()
      ensures Count() + |Outside(Held)| + |Outside(Flying)| == |place|
      ensures Count() == |place| <==> Outside(Held) == {} && Outside(Flying) == {}
    {
      PoolCount();
      assert place.Keys == InPool() + Outside(Held) + Outside(Flying);
    }
  }

  /** A sale, a submission and a return: all that senders and completions do to the ledger. */
  datatype Event = Sold(n: nat) | Submitted(t: Ticket) | Returned(t: Ticket)

  /** `e` can happen, by the hands of others than the holder of the tickets `kept`. */
  predicate May(l: Ledger, e: Event, kept: set<Ticket>) {
    match e
    case Sold(n) => l.sold + n <= |l.queue|
    case Submitted(t) => t in l.place && l.place[t] == Held && t !in kept
    case Returned(t) => t in l.place && !l.place[t].Pooled? && t !in kept
  }

  function Happened(l: Ledger, e: Event): Ledger {
    match e
    case Sold(n) => l.Sell(n)
    case Submitted(t) => l.Submit(t)
    case Returned(t) => l.Return(t)
  }

  ghost predicate Happening(l: Ledger, events: seq<Event>, kept: set<Ticket>)
    decreases |events|
  {
    events != [] ==> May(l, events[0], kept) && Happening(Happened(l, events[0]), events[1..], kept)
  }

  function AfterAll(l: Ledger, events: seq<Event>): Ledger
    decreases |events|
  {
    if events == [] then l else AfterAll(Happened(l, events[0]), events[1..])
  }

  lemma StaysKept(l: Ledger, e: Event, kept: set<Ticket>)
    requires l.Balanced() && kept <= l.Outside(Held) && May(l, e, kept)
    ensures Happened(l, e).Balanced() && Happened(l, e).place.Keys == l.place.Keys
    ensures kept <= Happened(l, e).Outside(Held)
  {
    match e
    case Sold(n) => l.SellBalanced(n);
    case Submitted(t) => l.SubmitBalanced(t);
    case Returned(t) => l.ReturnBalanced(t);
    forall t | t in kept
      ensures t in Happened(l, e).Outside(Held)
    {
      assert t in l.Outside(Held);
    }
  }

  /** Tickets that nobody will submit or return stay out of the pool for good: whatever the others do, the pool never
      again holds all tickets, so no return is ever the one that finds all transfers finished. */
  lemma {:induction false} LostForGood(l: Ledger, events: seq<Event>, kept: set<Ticket>)
    requires l.Balanced() && kept <= l.Outside(Held) && Happening(l, events, kept)
    ensures var now := AfterAll(l, events);
            && now.Balanced() && now.place.Keys == l.place.Keys && kept <= now.Outside(Held)
            && now.Count() + |kept| <= |l.place|
            && (kept != {} ==> now.Count() < |l.place|)
    decreases |events|
  {
    if events == [] {
      l.Conservation();
      assert |kept| <= |l.Outside(Held)| by { Fewer(kept, l.Outside(Held)); }
    } else {
      StaysKept(l, events[0], kept);
      hide Ledger.Balanced, Ledger.Outside, May, Happened;
      LostForGood(Happened(l, events[0]), events[1..], kept);
      SameCount(l.place, Happened(l, events[0]).place);
    }
  }

  lemma SameCount<K, V>(a: map<K, V>, b: map<K, V>)
    requires a.Keys == b.Keys
    ensures |a| == |b|
  {
    assert |a| == |a.Keys| && |b| == |b.Keys|;
  }

  lemma Fewer<T>(a: set<T>, b: set<T>)
    requires a <= b
    ensures |a| <= |b|
  {
    assert |b| == |a| + |b - a| by { assert b == a + (b - a); }
  }

  /** What a sender relies on while tickets come back to the pool: its own tickets stay its own, with their forward
      links and their lengths; `except` is the one it gave up itself. */
  predicate HeldStays(was: Ledger, links0: Links, lengths0: seq<nat>, now: Ledger, links1: Links, lengths1: seq<nat>,
                      except: Ticket)
  {
    && now.place.Keys == was.place.Keys
    && |links1.next| == |links0.next| && |lengths1| == |lengths0|
    && forall t {:trigger now.place[t]} :: t in was.place && t != except ==>
         && (now.place[t] == Held <==> was.place[t] == Held)
         && (was.place[t] == Held && t < |links0.next| && t < |lengths0| ==>
               links1.next[t] == links0.next[t] && lengths1[t] == lengths0[t])
  }

  lemma HeldStaysTransitive(w0: Ledger, l0: Links, n0: seq<nat>, w1: Ledger, l1: Links, n1: seq<nat>,
                            w2: Ledger, l2: Links, n2: seq<nat>, e: Ticket, e1: Ticket)
    requires HeldStays(w0, l0, n0, w1, l1, n1, e) && HeldStays(w1, l1, n1, w2, l2, n2, e1)
    requires e1 == e || (e1 in w1.place && w1.place[e1] != Held && w2.place[e1] != Held)
    ensures HeldStays(w0, l0, n0, w2, l2, n2, e)
  {
  }

  function UpTo(n: nat): (r: seq<Ticket>)
    ensures |r| == n && forall i :: 0 <= i < n ==> r[i] == i
  {
    seq(n, i => i)
  }

  lemma FactorFits(transferSize: nat, packetSize: nat)
    requires 0 < packetSize <= transferSize
    ensures 0 < transferSize / packetSize && transferSize / packetSize * packetSize <= transferSize
  {
  }

  /** The allocation loop: each newborn ticket joins the pool's tail. */
  method LinkAll(n: nat) returns (links: Links)
    ensures |links.next| == |links.prev| == n + 2
    ensures Window(links, n, UpTo(n), 0, n)
  {
    links := Links(seq(n + 2, _ => 0), seq(n + 2, _ => 0));
    links := ListInit(links, n);
    assert UpTo(0) == [];
    for i := 0 to n
      invariant |links.next| == |links.prev| == n + 2
      invariant Window(links, n, UpTo(i), 0, i)
    {
      hide Window, ListAddTail;
      AppendAnywhere(links, i, n, UpTo(i), 0);
      links := ListAddTail(links, i, n);
      assert UpTo(i) + [i] == UpTo(i + 1);
    }
  }

  lemma {:induction false} CountBelow(m: map<Ticket, Place>, n: nat)
    requires forall t :: t in m <==> 0 <= t < n
    ensures |m| == n
  {
    if n > 0 {
      CountBelow(m - {n - 1}, n - 1);
      assert m.Keys == (m - {n - 1}).Keys + {n - 1};
    } else {
      assert m == map[];
    }
  }

  class Device {
    const urbCount: nat                // disp_urb_count
    const packetSize: nat              // disp_out_ep_max_size
    const factor: nat                  // packet_size_factor
    const buffers: seq<array<byte>>    // transfer_buffer of each ticket's URB
    var lengths: seq<nat>              // transfer_buffer_length of each ticket's URB
    var links: Links                   // the list nodes of the tickets and of the list heads
    var available: int                 // availiable_count
    var alive: bool
    var unsynced: bool                 // fbhandler_set_unsync_flag was called
    var flushScheduled: bool           // the completion work was scheduled
    var flying: set<Ticket>            // with the host controller
    ghost var ledger: Ledger
    ghost var wire: seq<seq<byte>>     // what the host controller accepted, in order
    ghost var refused: nat             // how often it did not

    /** Address of the pool's list head. */
    function Pool(): Ptr {
      urbCount
    }

    /** Address of the list head of the one bundle a sender can hold (senders run under one lock). */
    function Bundle(): Ptr {
      urbCount + 1
    }

    function UrbSize(): nat {
      factor * packetSize
    }

    ghost predicate Equipped() {
      && packetSize > 1 && factor > 0
      && |buffers| == urbCount
      && (forall t :: 0 <= t < urbCount ==> buffers[t].Length >= UrbSize())
      && (forall t, u :: 0 <= t < u < urbCount ==> buffers[t] != buffers[u])
    }

    ghost predicate Valid()
      reads this
    {
      && Equipped()
      && |lengths| == urbCount == |ledger.place|
      && (forall t :: t in ledger.place <==> 0 <= t < urbCount)
      && ledger.Balanced() && available == ledger.Count()
      && (forall t :: t in flying <==> t in ledger.place && ledger.place[t] == Flying)
      && (forall t :: t in ledger.place && ledger.place[t].Pooled? ==> lengths[t] == UrbSize())
      && Window(links, Pool(), ledger.queue, ledger.sold, |ledger.queue|)
      && |links.next| == |links.prev| == urbCount + 2
    }

    /** _on_alloc_disp_tickets_pool, with the transfer buffers that could be allocated. */
    constructor (buffers: seq<array<byte>>, transferSize: nat, packetSize: nat)
      requires 1 < packetSize <= transferSize
      requires forall t :: 0 <= t < |buffers| ==> buffers[t].Length == transferSize
      requires forall t, u :: 0 <= t < u < |buffers| ==> buffers[t] != buffers[u]
      ensures Valid() && alive && wire == [] && flying == {}
      ensures this.buffers == buffers && this.packetSize == packetSize && factor == transferSize / packetSize
      ensures ledger.Count() == urbCount == |buffers|
    {
      var n := |buffers|;
      urbCount, this.packetSize, factor := n, packetSize, transferSize / packetSize;
      this.buffers := buffers;
      available, alive, unsynced, flushScheduled, flying := n, true, false, false, {};
      lengths := seq(n, _ => transferSize / packetSize * packetSize);
      var linked := LinkAll(n);
      links := linked;
      ledger, wire, refused := Ledger(UpTo(n), 0, map t: nat | 0 <= t < n :: Pooled(t)), [], 0;
      new;
      CountBelow(ledger.place, n);
      hide Window;
      FactorFits(transferSize, packetSize);
    }

    /** What a valid device offers its senders. */
    lemma Facts()
      requires Valid()
      ensures |links.next| == |links.prev| == urbCount + 2 && |lengths| == urbCount == |buffers|
      ensures packetSize > 1 && factor > 0
      ensures forall t :: t in ledger.place <==> 0 <= t < urbCount
      ensures forall t :: 0 <= t < urbCount ==> buffers[t].Length >= UrbSize()
      ensures ledger.Balanced()
    {
    }

    lemma PoolFacts()
      requires Valid()
      ensures ledger.Balanced() && available == |ledger.queue| - ledger.sold >= 0
      ensures forall t :: t in ledger.place && ledger.place[t].Pooled? ==> t < |lengths| && lengths[t] == UrbSize()
    {
    }

    /** _sell_disp_tickets: all or nothing, from the front of the pool into the caller's bundle. */
    method Sell(required: nat) returns (sold: nat)
      requires Valid()
      modifies this`available, this`ledger, this`links
      ensures Valid()
      ensures sold == if alive && required <= old(available) then required else 0
      ensures ledger == if sold > 0 then old(ledger).Sell(sold) else old(ledger)
      ensures ledger.queue == old(ledger.queue) && ledger.sold == old(ledger.sold) + sold
      ensures sold > 0 ==> Window(links, Bundle(), ledger.queue, old(ledger.sold), ledger.sold)
    {
      hide Ledger.Balanced, Ledger.Sell, Window;
      sold := 0;
      if !alive || required == 0 || required > available {
        return;
      }
      available := available - required;
      sold := required;
      ledger.SellBalanced(required);
      MoveFront(Bundle(), required);
      ledger := ledger.Sell(required);
    }

    /** The selling loop. */
    method MoveFront(bundle: Ptr, count: nat)
      requires ledger.Balanced() && count <= ledger.Count() && (forall t :: t in ledger.place ==> t < urbCount)
      requires Window(links, Pool(), ledger.queue, ledger.sold, |ledger.queue|)
      requires links.Has(bundle) && bundle > Pool()
      modifies this`links
      ensures |links.next| == |links.prev| == old(|links.next|)
      ensures Window(links, Pool(), ledger.queue, ledger.sold + count, |ledger.queue|)
      ensures Window(links, bundle, ledger.queue, ledger.sold, ledger.sold + count)
    {
      hide Window, Ledger.Balanced, Apart, ListInit, ListAddTail, ListDelInit;
      ghost var q, lo := ledger.queue, ledger.sold;
      ledger.PooledAreTickets(urbCount);
      InitEmpty(links, bundle, q, lo, Pool(), q, lo, |q|);
      links := ListInit(links, bundle);
      var left: nat := count;
      while left > 0
        invariant left <= count && |links.next| == |links.prev| == old(|links.next|)
        invariant Window(links, Pool(), q, lo + count - left, |q|)
        invariant Window(links, bundle, q, lo, lo + count - left)
      {
        ghost var k := lo + count - left;
        SplitApart(q, lo, k, Pool(), bundle);
        TakeFirst(links, Pool(), q, k, |q|, bundle, q, lo, k);
        var node := links.next[Pool()];
        links := ListDelInit(links, node);
        PutLast(links, node, bundle, q, lo, k, Pool(), q, k + 1, |q|);
        links := ListAddTail(links, node, bundle);
        left := left - 1;
      }
    }

    /** The relinking in _return_disp_tickets: onto the pool's tail, out of wherever it was. */
    method Relink(ticket: Ticket)
      requires Window(links, Pool(), ledger.queue, ledger.sold, |ledger.queue|) && links.Has(ticket)
      requires ledger.Balanced() && ticket in ledger.place && !ledger.place[ticket].Pooled?
      requires forall t :: t in ledger.place ==> t < urbCount
      modifies this`links
      ensures |links.next| == |links.prev| == old(|links.next|)
      ensures Window(links, Pool(), ledger.queue + [ticket], ledger.sold, |ledger.queue| + 1)
      ensures forall t :: t in ledger.place && ledger.place[t] == Held && t != ticket ==>
                links.next[t] == old(links.next[t])
    {
      ledger.PooledAreTickets(urbCount);
      ledger.NotQueued(ticket);
      AppendAnywhere(links, ticket, Pool(), ledger.queue, ledger.sold);
      hide Window, ListAddTail;
      links := ListAddTail(links, ticket, Pool());
    }

    /** _return_disp_tickets: true when every ticket is back. */
    method Return(ticket: Ticket) returns (allFinished: bool)
      requires Valid() && ticket in ledger.place && !ledger.place[ticket].Pooled? && lengths[ticket] == UrbSize()
      modifies this`available, this`ledger, this`links, this`flying
      ensures Valid()
      ensures ledger == old(ledger).Return(ticket) && flying == old(flying) - {ticket}
      ensures allFinished <==> ledger.Outside(Held) == {} && ledger.Outside(Flying) == {}
      ensures StillHeld(old(ledger), old(links), old(lengths), ticket)
    {
      hide Window, Ledger.Balanced, Ledger.Outside;
      Relink(ticket);
      ledger.ReturnBalanced(ticket);
      ledger, flying, available := ledger.Return(ticket), flying - {ticket}, available + 1;
      ledger.Conservation();
      allFinished := available == urbCount;
    }

    ghost predicate StillHeld(was: Ledger, links0: Links, lengths0: seq<nat>, except: Ticket)
      reads this`ledger, this`links, this`lengths
    {
      HeldStays(was, links0, lengths0, ledger, links, lengths, except)
    }

    /** usb_submit_urb: the host controller takes the URB with what its buffer holds now, or refuses it. */
    method Submit(ticket: Ticket) returns (ok: bool)
      requires Valid() && ticket in ledger.place && ledger.place[ticket] == Held
      requires lengths[ticket] <= buffers[ticket].Length
      modifies this`ledger, this`flying, this`wire, this`refused
      ensures Valid() && refused == old(refused) + if ok then 0 else 1
      ensures ok ==> ledger == old(ledger).Submit(ticket) && wire == old(wire) + [buffers[ticket][..lengths[ticket]]]
      ensures !ok ==> ledger == old(ledger) && wire == old(wire)
    {
      ok := *;
      if ok {
        hide Window, Ledger.Balanced;
        ledger.SubmitBalanced(ticket);
        ledger, flying := ledger.Submit(ticket), flying + {ticket};
        wire := wire + [buffers[ticket][..lengths[ticket]]];
      } else {
        refused := refused + 1;
      }
    }

    /** _on_display_transfer_finished, also called for a URB whose submission failed. */
    method OnTransferFinished(ticket: Ticket, failed: bool)
      requires Valid() && ticket in ledger.place && !ledger.place[ticket].Pooled?
      modifies this`available, this`ledger, this`links, this`flying, this`lengths, this`unsynced, this`flushScheduled
      ensures Valid()
      ensures ledger == old(ledger).Return(ticket) && flying == old(flying) - {ticket}
      ensures StillHeld(old(ledger), old(links), old(lengths), ticket)
      ensures unsynced == (old(unsynced) || (failed && alive))
      ensures flushScheduled == (old(flushScheduled) ||
                (!failed && ledger.Outside(Held) == {} && ledger.Outside(Flying) == {}))
    {
      hide Window, Ledger.Balanced, Ledger.Return, Ledger.Outside;
      if failed && alive {
        unsynced := true;
      }
      lengths := lengths[ticket := UrbSize()];
      assert StillHeld(old(ledger), old(links), old(lengths), ticket);
      ghost var n1 := lengths;
      hide HeldStays;
      var allFinished := Return(ticket);
      HeldStaysTransitive(old(ledger), old(links), old(lengths), old(ledger), old(links), n1,
                          ledger, links, lengths, ticket, ticket);
      if allFinished && !failed {
        flushScheduled := true;
      }
    }

    lemma FlyingIsOut(ticket: Ticket)
      requires Valid() && ticket in flying
      ensures ticket in ledger.place && ledger.place[ticket] == Flying
    {
    }

    /** Any number of completions, in any order and with any status, as the host controller sees fit. */
    method Completions()
      requires Valid()
      modifies this`available, this`ledger, this`links, this`flying, this`lengths, this`unsynced, this`flushScheduled
      ensures Valid()
      ensures StillHeld(old(ledger), old(links), old(lengths), urbCount)
    {
      while flying != {}
        invariant Valid()
        invariant StillHeld(old(ledger), old(links), old(lengths), urbCount)
        decreases flying
      {
        hide Valid, HeldStays, Ledger.Return, Ledger.Outside;
        var more: bool, failed: bool := *, *;
        if !more {
          break;
        }
        var ticket :| ticket in flying;
        FlyingIsOut(ticket);
        ghost var l1, k1, n1 := ledger, links, lengths;
        OnTransferFinished(ticket, failed);
        l1.ReturnIsPooled(ticket);
        HeldStaysTransitive(old(ledger), old(links), old(lengths), l1, k1, n1, ledger, links, lengths, urbCount, ticket);
      }
    }

    /** The same, seen by somebody who only minds which tickets are held. */
    method OthersComplete()
      requires Valid()
      modifies this`available, this`ledger, this`links, this`flying, this`lengths, this`unsynced, this`flushScheduled
      ensures Valid() && ledger.Outside(Held) == old(ledger).Outside(Held)
    {
      hide Valid;
      Completions();
      Facts();
      assert old(ledger).place.Keys == ledger.place.Keys;
    }

    lemma LostTickets(kept: set<Ticket>)
      requires Valid() && kept <= ledger.Outside(Held)
      ensures available <= urbCount - |kept|
    {
      ledger.Conservation();
      Fewer(kept, ledger.Outside(Held));
    }
  }
}
