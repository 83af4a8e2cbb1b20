/** A sender's bundle of tickets: the window queue[cur..hi] of what it was sold is still its own, and the forward
    links from the current node lead through exactly those tickets to the bundle's head. Nothing is said of backward
    links: tickets already submitted may have been relinked into the pool. */
module TicketBundle {
  import opened LinkedList
  import opened DisplayTickets

  /** `was` is the ledger just before the sale; was.queue[was.sold..hi] was sold to this sender. */
  datatype Bundle = Bundle(was: Ledger, cur: nat, hi: nat) {

    predicate Mine(t: Ticket) {
      t in was.place && was.place[t].Pooled? && cur <= was.place[t].at < hi
    }

    /** Address of the node the sender stands on. */
    function Current(head: Ptr): Ptr
      requires hi <= |was.queue|
    {
      if cur < hi then was.queue[cur] else head
    }

    ghost predicate Intact(now: Ledger, links: Links, lengths: seq<nat>, head: Ptr, length: nat) {
      && was.Balanced() && was.sold <= cur <= hi <= |was.queue|
      && now.place.Keys == was.place.Keys
      && Path(links, was.queue, cur, hi, head)
      && (forall t {:trigger now.place[t]} :: t in was.place ==>
            (now.place[t] == Held <==> was.place[t] == Held || Mine(t)))
      && (forall i {:trigger was.queue[i]} :: cur <= i < hi ==>
            was.queue[i] < |lengths| && lengths[was.queue[i]] == length)
    }

    function Next(): Bundle {
      Bundle(was, cur + 1, hi)
    }

    lemma CurrentIsMine(now: Ledger, links: Links, lengths: seq<nat>, head: Ptr, length: nat)
      requires Intact(now, links, lengths, head, length) && cur < hi
      ensures var t := was.queue[cur];
              && Mine(t) && t in now.place && now.place[t] == Held && t < |lengths| && lengths[t] == length
              && links.Has(t) && links.next[t] == Next().Current(head) && t != head
      ensures forall t :: t in was.place ==> (Next().Mine(t) <==> Mine(t) && t != was.queue[cur])
    {
    }

    lemma OwnTicketStays(now: Ledger, links: Links, lengths: seq<nat>, head: Ptr, length: nat,
                         now': Ledger, links': Links, lengths': seq<nat>, except: Ticket, i: nat)
      requires Intact(now, links, lengths, head, length)
      requires HeldStays(now, links, lengths, now', links', lengths', except)
      requires |links.next| == |links.prev| && |links'.next| == |links'.prev|
      requires cur <= i < hi && was.queue[i] != except
      ensures links'.Has(was.queue[i]) && links'.next[was.queue[i]] == links.next[was.queue[i]]
      ensures was.queue[i] < |lengths'| && lengths'[was.queue[i]] == length
    {
      var t := was.queue[i];
      assert Mine(t) && now.place[t] == Held && t < |lengths|;
      assert now'.place[t] == Held;
    }

    /** While others' tickets complete and are relinked into the pool, the way ahead stays intact. */
    lemma UndisturbedByReturns(now: Ledger, links: Links, lengths: seq<nat>, head: Ptr, length: nat,
                               now': Ledger, links': Links, lengths': seq<nat>, except: Ticket)
      requires Intact(now, links, lengths, head, length)
      requires HeldStays(now, links, lengths, now', links', lengths', except)
      requires except !in was.place
      requires |links.next| == |links.prev| && |links'.next| == |links'.prev|
      ensures Intact(now', links', lengths', head, length)
    {
      forall i | cur <= i < hi
        ensures links'.Has(was.queue[i]) && links'.next[was.queue[i]] == links.next[was.queue[i]]
        ensures lengths'[was.queue[i]] == length
      {
        OwnTicketStays(now, links, lengths, head, length, now', links', lengths', except, i);
      }
    }

    /** A sale hands over an intact bundle. */
    lemma AfterSale(links: Links, lengths: seq<nat>, head: Ptr, length: nat)
      requires was.Balanced() && cur == was.sold <= hi <= |was.queue|
      requires Window(links, head, was.queue, cur, hi)
      requires forall t :: t in was.place && was.place[t].Pooled? ==> t < |lengths| && lengths[t] == length
      ensures Intact(was.Sell(hi - cur), links, lengths, head, length)
    {
    }

    /** `lengths` up to the current ticket's own. */
    predicate SameElsewhere(lengths: seq<nat>, lengths': seq<nat>)
      requires cur < |was.queue|
    {
      |lengths'| == |lengths| && forall t :: 0 <= t < |lengths| && t != was.queue[cur] ==> lengths'[t] == lengths[t]
    }

    /** Handing the current ticket to the host controller, whatever its length was set to. */
    lemma AfterSubmit(now: Ledger, links: Links, lengths: seq<nat>, head: Ptr, length: nat, lengths': seq<nat>)
      requires Intact(now, links, lengths, head, length) && cur < hi && SameElsewhere(lengths, lengths')
      ensures Next().Intact(now.Submit(was.queue[cur]), links, lengths', head, length)
    {
      CurrentIsMine(now, links, lengths, head, length);
    }

    /** The tickets known to the ledger do not change. */
    lemma PlacesOf(now: Ledger, links: Links, lengths: seq<nat>, head: Ptr, length: nat)
      requires Intact(now, links, lengths, head, length)
      ensures now.place.Keys == was.place.Keys
    {
    }

    /** Only the length of the ticket that is given up may have been another. */
    lemma StaysFrom(now: Ledger, links: Links, lengths: seq<nat>, lengths1: seq<nat>, now': Ledger, links': Links,
                    lengths': seq<nat>)
      requires cur < |was.queue| && SameElsewhere(lengths, lengths1)
      requires HeldStays(now, links, lengths1, now', links', lengths', was.queue[cur])
      ensures HeldStays(now, links, lengths, now', links', lengths', was.queue[cur])
    {
    }

    /** What a return does to the places of the others. */
    lemma OthersPlaces(now: Ledger, links: Links, lengths: seq<nat>, links': Links, lengths': seq<nat>, gone: Ticket)
      requires HeldStays(now, links, lengths, now.Return(gone), links', lengths', gone)
      ensures now.Return(gone).place.Keys == now.place.Keys && gone in now.place && now.Return(gone).place[gone] != Held
      ensures forall t {:trigger now.Return(gone).place[t]} :: t in now.place && t != gone ==>
                (now.Return(gone).place[t] == Held <==> now.place[t] == Held)
    {
      now.ReturnIsPooled(gone);
    }

    lemma TheWay(now: Ledger, links: Links, lengths: seq<nat>, head: Ptr, length: nat)
      requires Intact(now, links, lengths, head, length) && cur < hi
      ensures hi <= |was.queue| && Path(links, was.queue, cur, hi, head)
      ensures forall i {:trigger was.queue[i]} :: cur < i < hi ==>
                was.queue[i] != was.queue[cur] && links.Has(was.queue[i])
    {
    }

    lemma PathStays(links: Links, links': Links, head: Ptr)
      requires cur < hi <= |was.queue| && Path(links, was.queue, cur, hi, head)
      requires forall i {:trigger was.queue[i]} :: cur < i < hi ==>
                 links'.Has(was.queue[i]) && links'.next[was.queue[i]] == links.next[was.queue[i]]
      ensures Path(links', was.queue, cur + 1, hi, head)
    {
    }

    /** The tickets behind the current one stay linked. */
    lemma WayAhead(now: Ledger, links: Links, lengths: seq<nat>, head: Ptr, length: nat,
                   now': Ledger, links': Links, lengths': seq<nat>)
      requires Intact(now, links, lengths, head, length) && cur < hi
      requires HeldStays(now, links, lengths, now', links', lengths', was.queue[cur])
      requires |links.next| == |links.prev| && |links'.next| == |links'.prev|
      ensures hi <= |was.queue| && Path(links', was.queue, cur + 1, hi, head)
      ensures forall i {:trigger was.queue[i]} :: cur + 1 <= i < hi ==>
                was.queue[i] < |lengths'| && lengths'[was.queue[i]] == length
    {
      hide HeldStays, Intact, Path;
      TheWay(now, links, lengths, head, length);
      forall i | cur + 1 <= i < hi
        ensures links'.Has(was.queue[i]) && links'.next[was.queue[i]] == links.next[was.queue[i]]
        ensures was.queue[i] < |lengths'| && lengths'[was.queue[i]] == length
      {
        OwnTicketStays(now, links, lengths, head, length, now', links', lengths', was.queue[cur], i);
      }
      PathStays(links, links', head);
    }

    /** Putting the current ticket back into the pool. */
    lemma AfterReturn(now: Ledger, links: Links, lengths: seq<nat>, head: Ptr, length: nat,
                      lengths1: seq<nat>, links': Links, lengths': seq<nat>)
      requires Intact(now, links, lengths, head, length) && cur < hi && SameElsewhere(lengths, lengths1)
      requires HeldStays(now, links, lengths1, now.Return(was.queue[cur]), links', lengths', was.queue[cur])
      requires |links.next| == |links.prev| && |links'.next| == |links'.prev|
      ensures Next().Intact(now.Return(was.queue[cur]), links', lengths', head, length)
    {
      hide HeldStays, SameElsewhere, Ledger.Return, Ledger.Balanced, Path;
      var gone := was.queue[cur];
      CurrentIsMine(now, links, lengths, head, length);
      StaysFrom(now, links, lengths, lengths1, now.Return(gone), links', lengths');
      OthersPlaces(now, links, lengths, links', lengths', gone);
      WayAhead(now, links, lengths, head, length, now.Return(gone), links', lengths');
    }

    /** The tickets still ahead of the sender. */
    function Ahead(): set<Ticket>
      requires cur <= hi <= |was.queue|
    {
      set i | cur <= i < hi :: was.queue[i]
    }

    /** Beyond what was held before the sale, exactly the tickets ahead of the sender are held. */
    lemma Leftover(now: Ledger, links: Links, lengths: seq<nat>, head: Ptr, length: nat)
      requires Intact(now, links, lengths, head, length)
      ensures now.Outside(Held) == was.Outside(Held) + Ahead()
      ensures cur == hi ==> Ahead() == {}
    {
      forall t | t in was.place
        ensures now.place[t] == Held <==> t in was.Outside(Held) + Ahead()
      {
        if Mine(t) {
          assert was.queue[was.place[t].at] == t;
        }
      }
      forall t | t in Ahead()
        ensures t in now.place && now.place[t] == Held
      {
        var i :| cur <= i < hi && was.queue[i] == t;
        assert was.place[was.queue[i]] == Pooled(i);
      }
    }
  }
}
