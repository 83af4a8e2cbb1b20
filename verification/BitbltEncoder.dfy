/** The kernel's bitblt packet encoder: content octets go into the open URB packet by packet; a full URB is submitted
    and the next ticket of the bundle opened at once. */
module BitbltEncoder {
  import opened Bytes
  import opened LinkedList
  import opened DisplayTickets
  import opened TicketBundle
  import opened Packets
  import opened UrbStream
  import opened Reservation
  import opened DisplayDevice

  const DISPCMD_BITBLT: command := 2
  const DISPCMD_BITBLT_RLE: command := 5

  /** What follows the command octet in the bitblt header; coordinates are cut to 16 bits. */
  function HeaderContent(x: int, y: int, right: int, bottom: int): (r: seq<byte>)
    ensures |r| == HEADER_REST
    ensures WordAt(r, 0) == x % 0x1_0000 && WordAt(r, 2) == y % 0x1_0000 && r[8] == 0
    ensures WordAt(r, 4) == (right + 1 - x) % 0x1_0000 && WordAt(r, 6) == (bottom + 1 - y) % 0x1_0000
  {
    LittleEndian(x % 0x1_0000) + LittleEndian(y % 0x1_0000) +
    LittleEndian((right + 1 - x) % 0x1_0000) + LittleEndian((bottom + 1 - y) % 0x1_0000) + [OPERATION_COPY]
  }

  const OPERATION_COPY: byte := 0

  /** Done, a submission failed, or the encoder ran off its bundle (the BUG_ON). */
  datatype Status = Done | Failed | OffBundle

  lemma Within(submitted: seq<seq<byte>>, open: seq<byte>, c: Cursor, size: nat, factor: nat, first: byte, cmd: byte,
               content: seq<byte>, tickets: nat)
    requires Streaming(submitted, open, c, size, factor, first, cmd, content) && |submitted| < tickets
    ensures StripAll(submitted + [open], size) == content
    ensures Flatten(submitted + [open]) == [first] + Stream(cmd, size - 1, content)
    ensures |content| < Capacity(tickets, size, factor)
    ensures factor > 0 && FullUrbs(|content|, size, factor) == |submitted|
    ensures (submitted + [open])[0] != [] && (submitted + [open])[0][0] == first
  {
    hide StripAll, Stream, Flatten;
    StreamingReceived(submitted, open, c, size, factor, first, cmd, content);
    StreamingCapacity(submitted, open, c, size, factor, first, cmd, content);
    FlattenAppend(submitted, open);
    FullUrbsUnique(|content|, |submitted|, size, factor);
    var unit := factor * (size - 1);
    if |submitted| + 1 < tickets {
      MulGap(|submitted| + 1, tickets, unit);
    }
  }

  lemma Before(submitted: seq<seq<byte>>, last: seq<byte>, open: seq<byte>, stream: seq<byte>)
    requires Flatten(submitted + [last]) + open == stream
    ensures Flatten(submitted) <= Flatten(submitted + [last]) <= stream
  {
    FlattenAppend(submitted, last);
  }

  lemma Room(packetPos: nat, size: nat, factor: nat)
    requires size > 1 && packetPos < factor
    ensures packetPos * size + size <= factor * size
    ensures packetPos + 1 < factor ==> packetPos * size + size + 1 <= factor * size
    ensures packetPos + 1 == factor ==> packetPos * size + size == factor * size
    ensures (packetPos + 1) * size == packetPos * size + size
  {
    Distribute(packetPos, size);
    MulGap(packetPos, factor, size);
    MulGap(packetPos + 1, factor, size);
  }

  class EncodingContext {
    const dev: Device
    const rleMode: bool
    var currentNode: Ptr
    var ticket: Ticket
    var urbBuffer: nat    // offset of the open packet in the ticket's transfer buffer
    var encodedPos: nat
    var packetPos: nat
    ghost var bundle: Bundle
    ghost var wire0: seq<seq<byte>>   // what had been accepted before this image
    ghost var submitted: seq<seq<byte>>
    ghost var first: byte
    ghost var content: seq<byte>

    function Cmd(): command {
      if rleMode then DISPCMD_BITBLT_RLE else DISPCMD_BITBLT
    }

    /** The unsubmitted rest of the bundle is intact and the sender stands at its start. */
    ghost predicate Owning()
      reads this`bundle, this`currentNode, this`submitted, this`wire0, dev
    {
      && dev.Valid()
      && bundle.Intact(dev.ledger, dev.links, dev.lengths, dev.Bundle(), dev.UrbSize())
      && currentNode == bundle.Current(dev.Bundle())
      && dev.wire == wire0 + submitted
    }

    /** Number of tickets sold to this sender. */
    ghost function Tickets(): nat
      reads this`bundle
    {
      if bundle.hi < bundle.was.sold then 0 else bundle.hi - bundle.was.sold
    }

    /** The content has filled the tickets' packets to the last octet, and all of them are handed over. */
    ghost predicate Full()
      reads this`content, this`bundle, this`submitted
    {
      && bundle.cur == bundle.hi && |submitted| == Tickets()
      && dev.packetSize > 1 && |content| == Capacity(Tickets(), dev.packetSize, dev.factor)
    }

    /** The content has filled one URB more than was handed over. */
    ghost predicate Unsent()
      reads this`content, this`submitted
    {
      dev.packetSize > 1 && |content| == Capacity(|submitted| + 1, dev.packetSize, dev.factor)
    }

    /** The URBs handed over are the beginning of the stream of the content. */
    ghost predicate Behind()
      reads this`submitted, this`first, this`content
    {
      dev.packetSize > 1 && Flatten(submitted) <= [first] + Stream(Cmd(), dev.packetSize - 1, content)
    }

    ghost predicate Encoding()
      reads this, dev, dev.buffers
    {
      && Owning()
      && bundle.cur < bundle.hi && ticket == currentNode < |dev.buffers|
      && |submitted| == bundle.cur - bundle.was.sold
      && urbBuffer == packetPos * dev.packetSize
      && urbBuffer + encodedPos <= dev.buffers[ticket].Length
      && Streaming(submitted, dev.buffers[ticket][..urbBuffer + encodedPos], Cursor(packetPos, encodedPos),
                   dev.packetSize, dev.factor, first, Cmd(), content)
    }

    lemma StillOwning()
      requires Encoding()
      ensures Owning() && Behind()
    {
    }

    constructor (dev: Device, rleMode: bool)
      ensures this.dev == dev && this.rleMode == rleMode
    {
      this.dev, this.rleMode := dev, rleMode;
      currentNode, ticket, urbBuffer, encodedPos, packetPos := 0, 0, 0, 0, 0;
      bundle, wire0, submitted, first, content := Bundle(Ledger([], 0, map[]), 0, 0), [], [], 0, [];
    }

    /** Tickets that will be asked for an image of `imageSize` octets. */
    function Wanted(imageSize: nat): nat
      requires dev.packetSize > 1 && dev.factor > 0
    {
      Required(WorstContent(imageSize, rleMode), dev.packetSize, dev.factor)
    }

    /** The ticket arithmetic of _bitblt_encoder_init. */
    method CountTickets(imageSize: nat) returns (required: nat)
      requires dev.packetSize > 1 && dev.factor > 0
      ensures required == Wanted(imageSize) > 0
    {
      var payload := 9 + imageSize;
      if rleMode {
        payload := payload + (imageSize / 2 + 0x7f) / 0x80;
      }
      var effective := dev.packetSize - 1;
      var packetCount := (payload + effective - 1) / effective;
      required := (packetCount + dev.factor - 1) / dev.factor;
      RequiredSome(payload, dev.packetSize, dev.factor);
    }

    /** _bitblt_encoder_init: false when the pool cannot spare the tickets now, or never could. */
    method Init(imageSize: nat) returns (ok: bool)
      requires dev.Valid()
      modifies this, dev`available, dev`ledger, dev`links
      ensures dev.Valid() && dev.wire == old(dev.wire)
      ensures ok <==> dev.alive && Wanted(imageSize) <= MAX_TICKETS && Wanted(imageSize) <= old(dev.available)
      ensures !ok ==> dev.ledger == old(dev.ledger)
      ensures ok ==> Owning() && submitted == [] && wire0 == dev.wire && bundle.was == old(dev.ledger)
      ensures ok ==> bundle.cur == bundle.was.sold && Tickets() == Wanted(imageSize) > 0
      ensures ok ==> ticket == currentNode && urbBuffer == packetPos == 0
    {
      hide Required, WorstContent;
      dev.Facts();
      var required := CountTickets(imageSize);
      if required > MAX_TICKETS {
        return false;
      }
      ok := OpenBundle(required);
    }

    /** The purchase, and the sender's move to the first ticket bought. */
    method OpenBundle(required: nat) returns (ok: bool)
      requires dev.Valid() && required > 0
      modifies this, dev`available, dev`ledger, dev`links
      ensures dev.Valid()
      ensures ok <==> dev.alive && required <= old(dev.available)
      ensures !ok ==> dev.ledger == old(dev.ledger)
      ensures ok ==> Owning() && submitted == [] && wire0 == dev.wire && bundle.was == old(dev.ledger)
      ensures ok ==> bundle.cur == bundle.was.sold && Tickets() == required
      ensures ok ==> ticket == currentNode && urbBuffer == packetPos == 0
    {
      hide Device.Valid, Window, Bundle.Intact, Ledger.Balanced, Ledger.Sell, Ledger.Count;
      ghost var was := dev.ledger;
      dev.PoolFacts();
      var sold := dev.Sell(required);
      if sold == 0 {
        return false;
      }
      packetPos, urbBuffer, encodedPos := 0, 0, 0;
      bundle, submitted, wire0 := Bundle(was, was.sold, was.sold + required), [], dev.wire;
      dev.PoolFacts();
      WindowFirst(dev.links, dev.Bundle(), was.queue, was.sold, was.sold + required);
      bundle.AfterSale(dev.links, dev.lengths, dev.Bundle(), dev.UrbSize());
      currentNode := dev.links.next[dev.Bundle()];
      ticket := currentNode;
      ok := true;
    }

    /** _bitblt_encode_command_header */
    method CommandHeader(x: int, y: int, right: int, bottom: int, clearDirty: bool)
      requires Owning() && submitted == [] && bundle.cur == bundle.was.sold < bundle.hi
      requires ticket == currentNode && urbBuffer == packetPos == 0 && dev.packetSize > 1 + HEADER_REST
      modifies this`encodedPos, this`first, this`content, dev.buffers
      ensures Encoding() && first == StartOctet(Cmd(), clearDirty) && content == HeaderContent(x, y, right, bottom)
    {
      hide Owning, Streaming, Bundle.Intact, Device.Valid, StartOctet, HeaderContent;
      CurrentTicket();
      dev.Facts();
      MulGap(0, dev.factor, dev.packetSize);
      var header := [StartOctet(Cmd(), clearDirty)] + HeaderContent(x, y, right, bottom);
      encodedPos := 0;
      assert dev.buffers[ticket][..0] == [];
      CopyIn(header);
      assert [] + header == header;
      first, content := StartOctet(Cmd(), clearDirty), HeaderContent(x, y, right, bottom);
      StreamingStart(header, dev.packetSize, dev.factor, first, Cmd(), content);
    }

    /** _bitblt_encoder_flush: the open URB goes out with what it holds, and the unused tickets go back; if the
        submission fails the unused tickets are not returned. */
    method Flush() returns (ok: bool)
      requires Encoding()
      modifies this`currentNode, this`bundle, this`submitted, dev
      ensures Owning() && bundle.was == old(bundle.was) && bundle.hi == old(bundle.hi)
      ensures dev.refused == old(dev.refused) + if ok then 0 else 1
      ensures ok ==> bundle.cur == bundle.hi
      ensures !ok ==> bundle.cur == old(bundle.cur) + 1
      ensures submitted == old(submitted) + if ok then [old(dev.buffers[ticket][..urbBuffer + encodedPos])] else []
    {
      hide Device.Valid, Bundle.Intact, Streaming;
      PacketRoom();
      var transferSize := packetPos * dev.packetSize + encodedPos;
      Interrupt();
      CurrentTicket();
      dev.Facts();
      ghost var n0 := dev.lengths;
      SetLength(transferSize);
      currentNode := dev.links.next[currentNode];
      ok := SubmitPassed(n0);
      if !ok {
        return;
      }
      Cleanup();
    }

    /** transfer_buffer_length of the sender's own ticket. */
    method SetLength(length: nat)
      requires Owning() && bundle.cur < bundle.hi && ticket == currentNode
      modifies dev`lengths
      ensures dev.Valid() && dev.lengths == old(dev.lengths)[ticket := length]
    {
      CurrentTicket();
      dev.lengths := dev.lengths[ticket := length];
    }

    /** What the open URB completes, once it goes out too. */
    lemma Received() returns (urbs: seq<seq<byte>>)
      requires Encoding()
      ensures ticket < |dev.buffers| && urbBuffer + encodedPos <= dev.buffers[ticket].Length
      ensures urbs == submitted + [dev.buffers[ticket][..urbBuffer + encodedPos]]
      ensures StripAll(urbs, dev.packetSize) == content
      ensures Flatten(urbs) == [first] + Stream(Cmd(), dev.packetSize - 1, content)
      ensures |content| < Capacity(Tickets(), dev.packetSize, dev.factor)
      ensures dev.factor > 0 && FullUrbs(|content|, dev.packetSize, dev.factor) == |submitted|
      ensures urbs[0] != [] && urbs[0][0] == first
      ensures bundle.cur == bundle.was.sold + |submitted|
    {
      EndOfBundle();
      var open := dev.buffers[ticket][..urbBuffer + encodedPos];
      urbs := submitted + [open];
      Within(submitted, open, Cursor(packetPos, encodedPos), dev.packetSize, dev.factor, first, Cmd(), content, Tickets());
    }

    /** The tickets still held are those the sender has not passed. */
    lemma Unreturned()
      requires Owning()
      ensures dev.Valid() && dev.wire == wire0 + submitted
      ensures bundle.cur <= bundle.hi <= |bundle.was.queue|
      ensures dev.ledger.Outside(Held) == bundle.was.Outside(Held) + bundle.Ahead()
      ensures bundle.cur == bundle.hi ==> bundle.Ahead() == {}
    {
      bundle.Leftover(dev.ledger, dev.links, dev.lengths, dev.Bundle(), dev.UrbSize());
    }

    /** memcpy into the open packet. */
    method CopyIn(piece: seq<byte>)
      requires ticket < |dev.buffers| && urbBuffer + encodedPos + |piece| <= dev.buffers[ticket].Length
      modifies this`encodedPos, dev.buffers[ticket]
      ensures encodedPos == old(encodedPos) + |piece|
      ensures dev.buffers[ticket][..urbBuffer + encodedPos] == old(dev.buffers[ticket][..urbBuffer + encodedPos]) + piece
    {
      var buffer, at := dev.buffers[ticket], urbBuffer + encodedPos;
      forall k | 0 <= k < |piece| {
        buffer[at + k] := piece[k];
      }
      encodedPos := encodedPos + |piece|;
    }

    lemma CurrentTicket()
      requires Owning() && bundle.cur < bundle.hi
      ensures currentNode in dev.ledger.place && dev.ledger.place[currentNode] == Held
      ensures currentNode < |dev.lengths| == |dev.buffers| && dev.lengths[currentNode] == dev.UrbSize()
      ensures dev.buffers[currentNode].Length >= dev.UrbSize()
      ensures dev.links.Has(currentNode) && dev.links.next[currentNode] == bundle.Next().Current(dev.Bundle())
      ensures currentNode != dev.Bundle() && dev.Valid()
    {
      hide Device.Valid, Bundle.Intact;
      dev.Facts();
      bundle.CurrentIsMine(dev.ledger, dev.links, dev.lengths, dev.Bundle(), dev.UrbSize());
    }

    /** The sender stands on the bundle's head exactly when its tickets are used up. */
    lemma EndOfBundle()
      requires Owning()
      ensures bundle.cur <= bundle.hi <= |bundle.was.queue|
      ensures currentNode == dev.Bundle() <==> bundle.cur == bundle.hi
      ensures bundle.cur < bundle.hi ==> currentNode < |dev.buffers|
    {
      if bundle.cur < bundle.hi {
        CurrentTicket();
      }
    }

    /** Others' completions at any moment. */
    method Interrupt()
      requires Owning()
      modifies dev
      ensures Owning() && dev.refused == old(dev.refused)
    {
      hide Device.Valid, Bundle.Intact, HeldStays;
      ghost var l0, k0, n0 := dev.ledger, dev.links, dev.lengths;
      dev.Facts();
      bundle.PlacesOf(l0, k0, n0, dev.Bundle(), dev.UrbSize());
      dev.Completions();
      dev.Facts();
      bundle.UndisturbedByReturns(l0, k0, n0, dev.Bundle(), dev.UrbSize(), dev.ledger, dev.links, dev.lengths,
          dev.urbCount);
    }

    /** usb_submit_urb of the ticket the sender has just stepped past; a refused URB goes back to the pool at once.
        `n0` are the transfer lengths before the ticket's own was set. */
    method SubmitPassed(ghost n0: seq<nat>) returns (ok: bool)
      requires dev.Valid() && dev.wire == wire0 + submitted && bundle.cur < bundle.hi
      requires bundle.Intact(dev.ledger, dev.links, n0, dev.Bundle(), dev.UrbSize())
      requires ticket == bundle.Current(dev.Bundle()) && currentNode == bundle.Next().Current(dev.Bundle())
      requires bundle.SameElsewhere(n0, dev.lengths)
      requires ticket < |dev.buffers| && dev.lengths[ticket] <= dev.buffers[ticket].Length
      modifies this`bundle, this`submitted, dev
      ensures Owning() && bundle == old(bundle).Next() && dev.refused == old(dev.refused) + if ok then 0 else 1
      ensures submitted == old(submitted) + if ok then [dev.buffers[ticket][..old(dev.lengths[ticket])]] else []
    {
      hide Device.Valid, Bundle.Intact, HeldStays, Bundle.SameElsewhere;
      dev.Facts();
      ghost var b, l0, k0, n1 := bundle, dev.ledger, dev.links, dev.lengths;
      b.CurrentIsMine(l0, k0, n0, dev.Bundle(), dev.UrbSize());
      bundle := b.Next();
      ok := dev.Submit(ticket);
      if ok {
        submitted := submitted + [dev.buffers[ticket][..n1[ticket]]];
        b.AfterSubmit(l0, k0, n0, dev.Bundle(), dev.UrbSize(), n1);
      } else {
        var failed: bool := *;
        dev.OnTransferFinished(ticket, failed);
        dev.Facts();
        b.AfterReturn(l0, k0, n0, dev.Bundle(), dev.UrbSize(), n1, dev.links, dev.lengths);
      }
    }

    /** The submission of a full URB and the switch to the next ticket. */
    method NextUrb() returns (status: Status)
      requires Owning() && bundle.cur < bundle.hi && ticket == currentNode < |dev.buffers|
      modifies this`currentNode, this`ticket, this`urbBuffer, this`packetPos, this`bundle, this`submitted, dev
      ensures Owning() && bundle == old(bundle).Next()
      ensures dev.refused == old(dev.refused) + if status == Failed then 1 else 0
      ensures status == Failed ==> submitted == old(submitted)
      ensures status != Failed ==> submitted == old(submitted) + [dev.buffers[old(ticket)][..dev.UrbSize()]]
      ensures status == OffBundle <==> status != Failed && bundle.cur == bundle.hi
      ensures status == Done ==> ticket == currentNode < |dev.buffers| && urbBuffer == packetPos == 0
    {
      hide Device.Valid, Bundle.Intact;
      Interrupt();
      CurrentTicket();
      currentNode := dev.links.next[currentNode];
      var ok := SubmitPassed(dev.lengths);
      if !ok {
        return Failed;
      }
      packetPos := 0;
      EndOfBundle();
      if currentNode == dev.Bundle() {
        return OffBundle;
      }
      ticket, urbBuffer := currentNode, 0;
      status := Done;
    }

    /** Room in the transfer buffer for the open packet and for the command octet of the next one in the same URB. */
    lemma PacketRoom()
      requires Encoding()
      ensures Owning() && bundle.cur < bundle.hi && ticket == currentNode < |dev.buffers| && packetPos < dev.factor
      ensures |submitted| == bundle.cur - bundle.was.sold
      ensures Streaming(submitted, dev.buffers[ticket][..urbBuffer + encodedPos], Cursor(packetPos, encodedPos),
                        dev.packetSize, dev.factor, first, Cmd(), content)
      ensures urbBuffer + dev.packetSize <= dev.UrbSize() <= dev.buffers[ticket].Length
      ensures packetPos + 1 < dev.factor ==> urbBuffer + dev.packetSize + 1 <= dev.UrbSize()
      ensures packetPos + 1 == dev.factor ==> urbBuffer + dev.packetSize == dev.UrbSize()
      ensures (packetPos + 1) * dev.packetSize == urbBuffer + dev.packetSize
      ensures encodedPos < dev.packetSize
    {
      CurrentTicket();
      Room(packetPos, dev.packetSize, dev.factor);
    }

    /** The octets of a piece that leaves room in the open packet. */
    method PutPiece(piece: seq<byte>)
      requires Encoding() && |piece| < dev.packetSize - encodedPos
      modifies this`encodedPos, this`content, dev.buffers[ticket]
      ensures Encoding() && content == old(content) + piece
    {
      hide Owning, Streaming;
      PacketRoom();
      StreamingFill(submitted, dev.buffers[ticket][..urbBuffer + encodedPos], Cursor(packetPos, encodedPos),
                    dev.packetSize, dev.factor, first, Cmd(), content, piece);
      content := content + piece;
      CopyIn(piece);
    }

    /** The command octet of the next packet. */
    method OpenPacket()
      requires Owning() && bundle.cur < bundle.hi && ticket == currentNode < |dev.buffers|
      requires |submitted| == bundle.cur - bundle.was.sold
      requires urbBuffer == packetPos * dev.packetSize && urbBuffer < dev.buffers[ticket].Length
      requires Streaming(submitted, dev.buffers[ticket][..urbBuffer] + [Cmd()], Cursor(packetPos, 1),
                         dev.packetSize, dev.factor, first, Cmd(), content)
      modifies this`encodedPos, dev.buffers[ticket]
      ensures Encoding()
    {
      hide Owning, Streaming;
      dev.buffers[ticket][urbBuffer] := Cmd();
      encodedPos := 1;
      assert dev.buffers[ticket][..urbBuffer + 1] == dev.buffers[ticket][..urbBuffer] + [Cmd()];
    }

    lemma FilledBehind(filled: seq<seq<byte>>)
      requires ticket < |dev.buffers| && dev.UrbSize() <= dev.buffers[ticket].Length
      requires filled == submitted + [dev.buffers[ticket][..dev.UrbSize()]]
      requires Streaming(filled, [Cmd()], Cursor(0, 1), dev.packetSize, dev.factor, first, Cmd(), content)
      ensures Behind() && Flatten(filled) <= [first] + Stream(Cmd(), dev.packetSize - 1, content)
    {
      Before(submitted, dev.buffers[ticket][..dev.UrbSize()], [Cmd()],
             [first] + Stream(Cmd(), dev.packetSize - 1, content));
    }

    /** A full URB goes out; falling off the bundle means that all packets are full. */
    method TurnOver() returns (status: Status)
      requires Owning() && bundle.cur < bundle.hi && ticket == currentNode < |dev.buffers|
      requires dev.UrbSize() <= dev.buffers[ticket].Length && |submitted| == bundle.cur - bundle.was.sold
      requires Streaming(submitted + [dev.buffers[ticket][..dev.UrbSize()]], [Cmd()], Cursor(0, 1),
                         dev.packetSize, dev.factor, first, Cmd(), content)
      modifies this`currentNode, this`ticket, this`urbBuffer, this`packetPos, this`bundle, this`submitted, dev
      ensures Owning() && Behind() && bundle == old(bundle).Next()
      ensures dev.refused == old(dev.refused) + if status == Failed then 1 else 0
      ensures status == Failed ==> Unsent()
      ensures status == OffBundle ==> Full()
      ensures status == Done ==>
                && bundle.cur < bundle.hi && ticket == currentNode < |dev.buffers| && urbBuffer == packetPos == 0
                && |submitted| == bundle.cur - bundle.was.sold && 0 < dev.buffers[ticket].Length
                && Streaming(submitted, [Cmd()], Cursor(0, 1), dev.packetSize, dev.factor, first, Cmd(), content)
    {
      hide Device.Valid, Bundle.Intact, Streaming;
      CurrentTicket();
      ghost var filled := submitted + [dev.buffers[ticket][..dev.UrbSize()]];
      FilledBehind(filled);
      StreamingCapacity(filled, [Cmd()], Cursor(0, 1), dev.packetSize, dev.factor, first, Cmd(), content);
      status := NextUrb();
      if status == Done {
        EndOfBundle();
        CurrentTicket();
        dev.Facts();
        MulGap(0, dev.factor, dev.packetSize);
      }
    }

    /** The octets of a piece that fills the open packet. */
    method ClosePacket(piece: seq<byte>)
      requires Encoding() && |piece| == dev.packetSize - encodedPos
      modifies this`urbBuffer, this`encodedPos, this`packetPos, this`content, dev.buffers
      ensures Owning() && bundle.cur < bundle.hi && ticket == currentNode < |dev.buffers|
      ensures |submitted| == bundle.cur - bundle.was.sold && content == old(content) + piece
      ensures packetPos == old(packetPos) + 1 <= dev.factor && urbBuffer == packetPos * dev.packetSize <= dev.UrbSize()
      ensures dev.UrbSize() <= dev.buffers[ticket].Length
      ensures packetPos < dev.factor ==>
                && urbBuffer < dev.UrbSize()
                && Streaming(submitted, dev.buffers[ticket][..urbBuffer] + [Cmd()], Cursor(packetPos, 1),
                             dev.packetSize, dev.factor, first, Cmd(), content)
      ensures packetPos == dev.factor ==>
                Streaming(submitted + [dev.buffers[ticket][..dev.UrbSize()]], [Cmd()], Cursor(0, 1),
                          dev.packetSize, dev.factor, first, Cmd(), content)
    {
      hide Encoding, Owning, Streaming, Bundle.Intact, Device.Valid;
      PacketRoom();
      ghost var open := dev.buffers[ticket][..urbBuffer + encodedPos];
      StreamingFull(submitted, open, Cursor(packetPos, encodedPos), dev.packetSize, dev.factor, first, Cmd(),
          content, piece);
      content := content + piece;
      CopyIn(piece);
      urbBuffer := urbBuffer + dev.packetSize;
      packetPos := packetPos + 1;
      assert dev.buffers[ticket][..urbBuffer] == open + piece;
    }

    /** The octets of a piece that fills the open packet, and the opening of the next. */
    method FillPacket(piece: seq<byte>) returns (status: Status)
      requires Encoding() && |piece| == dev.packetSize - encodedPos
      modifies this`currentNode, this`ticket, this`urbBuffer, this`encodedPos, this`packetPos
      modifies this`bundle, this`submitted, this`content, dev, dev.buffers
      ensures status == Done ==> Encoding()
      ensures Owning() && Behind() && content == old(content) + piece
      ensures bundle.was == old(bundle.was) && bundle.hi == old(bundle.hi)
      ensures status == OffBundle ==> Full()
      ensures dev.refused == old(dev.refused) + if status == Failed then 1 else 0
      ensures status == Failed ==> Unsent()
    {
      hide Owning, Behind, Unsent, Streaming, Bundle.Intact, Device.Valid, Full;
      ClosePacket(piece);
      status := Done;
      if packetPos >= dev.factor {
        status := TurnOver();
        if status != Done {
          return;
        }
        assert dev.buffers[ticket][..urbBuffer] + [Cmd()] == [Cmd()];
      }
      OpenPacket();
      StillOwning();
    }

    /** _bitblt_encode_n_transfer_data */
    method TransferData(data: seq<byte>) returns (status: Status)
      requires Encoding()
      modifies this`currentNode, this`ticket, this`urbBuffer, this`encodedPos, this`packetPos
      modifies this`bundle, this`submitted, this`content, dev, dev.buffers
      ensures status == Done ==> Encoding() && content == old(content) + data
      ensures Owning() && Behind() && content <= old(content) + data
      ensures bundle.was == old(bundle.was) && bundle.hi == old(bundle.hi)
      ensures status == OffBundle ==> Full()
      ensures dev.refused == old(dev.refused) + if status == Failed then 1 else 0
      ensures status == Failed ==> Unsent()
    {
      hide Owning, Behind, Encoding, Unsent, Full, Streaming, Bundle.Intact;
      status := Done;
      var done := 0;
      while done < |data|
        invariant 0 <= done <= |data| && status == Done
        invariant Encoding() && content == old(content) + data[..done] && dev.refused == old(dev.refused)
        invariant bundle.was == old(bundle.was) && bundle.hi == old(bundle.hi)
      {
        PacketRoom();
        var available := dev.packetSize - encodedPos;
        var size := if |data| - done > available then available else |data| - done;
        ghost var content0 := content;
        var piece := data[done..done + size];
        assert data[..done + size] == data[..done] + piece;
        assert content0 + piece == old(content) + data[..done + size];
        done := done + size;
        if size == available {
          status := FillPacket(piece);
          if status != Done {
            return;
          }
        } else {
          PutPiece(piece);
        }
      }
      assert data[..done] == data;
      StillOwning();
    }

    /** _bitblt_encoder_cleanup: the unused tickets go back to the pool. */
    method Cleanup()
      requires Owning()
      modifies this`currentNode, this`bundle, dev
      ensures Owning() && bundle.cur == bundle.hi && dev.refused == old(dev.refused)
      ensures bundle.was == old(bundle.was) && bundle.hi == old(bundle.hi)
    {
      EndOfBundle();
      while currentNode != dev.Bundle()
        invariant Owning() && bundle.cur <= bundle.hi && dev.refused == old(dev.refused)
        invariant bundle.was == old(bundle.was) && bundle.hi == old(bundle.hi)
        decreases bundle.hi - bundle.cur
      {
        ReturnCurrent();
      }
      EndOfBundle();
    }

    method ReturnCurrent()
      requires Owning() && currentNode != dev.Bundle()
      modifies this`currentNode, this`bundle, dev
      ensures Owning() && bundle == old(bundle).Next() && bundle.cur <= bundle.hi && dev.refused == old(dev.refused)
    {
      hide Device.Valid, Bundle.Intact, HeldStays;
      EndOfBundle();
      Interrupt();
      CurrentTicket();
      dev.Facts();
      var unused := currentNode;
      ghost var b, l0, k0, n0 := bundle, dev.ledger, dev.links, dev.lengths;
      currentNode := dev.links.next[currentNode];
      bundle := bundle.Next();
      var _ := dev.Return(unused);
      dev.Facts();
      assert b.SameElsewhere(n0, n0);
      b.AfterReturn(l0, k0, n0, dev.Bundle(), dev.UrbSize(), n0, dev.links, dev.lengths);
    }
  }
}
