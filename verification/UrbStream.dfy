/** The kernel's packetizer on values: full URBs already handed over, and the URB being filled. */
module UrbStream {
  import opened Bytes
  import opened Packets

  /** Where the encoder stands: `packetPos` whole packets and `encodedPos` octets of the next in the open URB. */
  datatype Cursor = Cursor(packetPos: nat, encodedPos: nat)

  function Offset(c: Cursor, size: nat): nat {
    c.packetPos * size + c.encodedPos
  }

  /** The octets handed over and those in the open URB are the stream of `content`. */
  ghost predicate Streaming(submitted: seq<seq<byte>>, open: seq<byte>, c: Cursor, size: nat, factor: nat,
                            first: byte, cmd: byte, content: seq<byte>)
  {
    && size > 1 && c.packetPos < factor && 1 <= c.encodedPos < size
    && c.encodedPos - 1 == |content| % (size - 1)
    && |open| == Offset(c, size)
    && (forall i :: 0 <= i < |submitted| ==> |submitted[i]| == factor * size)
    && Flatten(submitted) + open == [first] + Stream(cmd, size - 1, content)
  }

  lemma StreamingStart(open: seq<byte>, size: nat, factor: nat, first: byte, cmd: byte, content: seq<byte>)
    requires size > 1 && factor > 0 && |content| < size - 1 && open == [first] + content
    ensures Streaming([], open, Cursor(0, 1 + |content|), size, factor, first, cmd, content)
  {
    DivStep(|content|, size - 1);
  }

  /** A piece that leaves room in the packet. */
  lemma StreamingFill(submitted: seq<seq<byte>>, open: seq<byte>, c: Cursor, size: nat, factor: nat,
                      first: byte, cmd: byte, content: seq<byte>, piece: seq<byte>)
    requires Streaming(submitted, open, c, size, factor, first, cmd, content)
    requires |piece| < size - c.encodedPos
    ensures Streaming(submitted, open + piece, Cursor(c.packetPos, c.encodedPos + |piece|), size, factor, first, cmd,
                      content + piece)
  {
    ModAdd(|content|, size - 1, |piece|);
    StreamAppend(cmd, size - 1, content, piece);
    assert Flatten(submitted) + (open + piece) == (Flatten(submitted) + open) + piece;
  }

  /** A piece that fills the packet: the next one is opened with its command octet, in this URB or the next. */
  lemma StreamingFull(submitted: seq<seq<byte>>, open: seq<byte>, c: Cursor, size: nat, factor: nat,
                      first: byte, cmd: byte, content: seq<byte>, piece: seq<byte>)
    requires Streaming(submitted, open, c, size, factor, first, cmd, content)
    requires |piece| == size - c.encodedPos
    ensures |open + piece| == (c.packetPos + 1) * size
    ensures c.packetPos + 1 < factor ==>
              Streaming(submitted, open + piece + [cmd], Cursor(c.packetPos + 1, 1), size, factor, first, cmd,
                                                                content + piece)
    ensures c.packetPos + 1 == factor ==>
              Streaming(submitted + [open + piece], [cmd], Cursor(0, 1), size, factor, first, cmd, content + piece)
  {
    ModAdd(|content|, size - 1, |piece|);
    StreamAppend(cmd, size - 1, content, piece);
    Distribute(c.packetPos, size);
    FlattenAppend(submitted, open + piece);
    assert Flatten(submitted) + (open + piece + [cmd]) == (Flatten(submitted) + open) + piece + [cmd];
    assert (Flatten(submitted) + (open + piece)) + [cmd] == (Flatten(submitted) + open) + piece + [cmd];
  }

  /** What the device gets out of the URBs once the open one is handed over too. */
  lemma StreamingReceived(submitted: seq<seq<byte>>, open: seq<byte>, c: Cursor, size: nat, factor: nat,
                          first: byte, cmd: byte, content: seq<byte>)
    requires Streaming(submitted, open, c, size, factor, first, cmd, content)
    ensures StripAll(submitted + [open], size) == content
    ensures (submitted + [open])[0][0] == first
  {
    hide Stream, Strip, StripAll, Flatten;
    StripAllIsStrip(submitted, open, size, factor);
    StripStream(first, cmd, size - 1, content);
    FirstOctet(submitted, open, factor * size);
  }

  lemma {:induction false} FirstOctet(submitted: seq<seq<byte>>, open: seq<byte>, length: nat)
    requires open != [] && (forall i :: 0 <= i < |submitted| ==> |submitted[i]| == length)
    requires length > 0
    ensures Flatten(submitted) + open != [] && (submitted + [open])[0] != []
    ensures (submitted + [open])[0][0] == (Flatten(submitted) + open)[0]
  {
    if submitted != [] {
      var init, last := submitted[..|submitted| - 1], submitted[|submitted| - 1];
      FirstOctet(init, last, length);
      assert init + [last] == submitted;
      assert Flatten(submitted) == Flatten(init) + last;
    }
  }

  /** Content sent against URBs used: with an URB open, the content is short of what the URBs up to and including
      it could carry; a content that fills them exactly would need one more. */
  lemma StreamingCapacity(submitted: seq<seq<byte>>, open: seq<byte>, c: Cursor, size: nat, factor: nat,
                          first: byte, cmd: byte, content: seq<byte>)
    requires Streaming(submitted, open, c, size, factor, first, cmd, content)
    ensures |content| < (|submitted| + 1) * (factor * (size - 1))
    ensures |content| >= |submitted| * (factor * (size - 1))
    ensures c == Cursor(0, 1) ==> |content| == |submitted| * (factor * (size - 1))
  {
    var room, n := size - 1, |content|;
    FlattenLength(submitted, factor * size);
    StreamLength(cmd, room, content);
    var packets := |submitted| * factor + c.packetPos;
    assert |submitted| * (factor * size) == (|submitted| * factor) * size by { MulAssoc(|submitted|, factor, size); }
    DistributeSum(|submitted| * factor, c.packetPos, size);
    assert n + n / room == packets * size + c.encodedPos - 1;
    CountPackets(n, room, packets, c.encodedPos - 1);
    MulAssoc(|submitted|, factor, room);
    MulAssoc(|submitted| + 1, factor, room);
    Distribute(|submitted|, factor);
    MulGap(packets, (|submitted| + 1) * factor, room);
    MulGap(|submitted| * factor, packets, room);
  }

  lemma DistributeSum(a: nat, b: nat, m: nat)
    ensures (a + b) * m == a * m + b * m
  {
  }

  /** n octets in packets of `room`, plus one octet per full packet, determine the number of full packets. */
  lemma CountPackets(n: nat, room: nat, packets: nat, rest: nat)
    requires room > 0 && n + n / room == packets * (room + 1) + rest && rest == n % room
    ensures n == packets * room + rest
  {
    var q := n / room;
    assert n == q * room + rest;
    assert q * (room + 1) == q * room + q;
    MulGap(q, packets, room + 1);
    MulGap(packets, q, room + 1);
  }
}
