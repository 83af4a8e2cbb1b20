/** A device that reads bitblt commands, written from the protocol's layout alone: what it makes of the transfers it gets. */
module DisplayDevice {
  import opened Bytes
  import opened Packets
  import opened RleFormat

  /** A bitblt command: a rectangle of the screen, what to do there, and the pixels row by row. */
  datatype Blit = Blit(clearDirty: bool, x: word, y: word, width: word, height: word, operation: byte, pixels: seq<word>)

  function WordAt(bs: seq<byte>, at: nat): word
    requires at + 1 < |bs|
  {
    FromLittleEndian(bs[at], bs[at + 1])
  }

  /** The pixels behind the header. */
  function Painted(payload: seq<byte>, rleMode: bool): Option<seq<word>> {
    if rleMode then Decode(payload) else if |payload| % 2 == 0 then Some(BytesToWords(payload)) else None
  }

  /** The first octet holds the command in its low six bits, then a flag to clear the dirty state and one for the start of a
      command; x, y, width, height and the operation come next, and then the pixels. */
  function Understood(first: byte, content: seq<byte>): Option<Blit> {
    var cmd := first % 0x40;
    if first < 0x80 || (cmd != 2 && cmd != 5) || |content| < 9 then None
    else
      match Painted(content[9..], cmd == 5)
      case None => None
      case Some(pixels) =>
        Some(Blit(first / 0x40 % 2 == 1, WordAt(content, 0), WordAt(content, 2), WordAt(content, 4), WordAt(content, 6),
                  content[8], pixels))
  }

  /** Out of transfers whose packets each open with a command octet. */
  function Sees(transfers: seq<seq<byte>>, size: nat): Option<Blit>
    requires size > 1
  {
    if transfers == [] || transfers[0] == [] then None
    else Understood(transfers[0][0], StripAll(transfers, size))
  }

  /** The pixel that the command brings to (column, row) of the screen, if any. */
  function Shown(b: Blit, column: int, row: int): Option<word> {
    var at := (row - b.y) * b.width + (column - b.x);
    if b.x <= column < b.x + b.width && b.y <= row < b.y + b.height && 0 <= at < |b.pixels| then Some(b.pixels[at])
    else None
  }

  /** With as many pixels as the rectangle has places, each place of the rectangle gets its own, and no other place any. */
  lemma ShownExactly(b: Blit, column: int, row: int)
    requires |b.pixels| == b.width * b.height
    ensures if b.x <= column < b.x + b.width && b.y <= row < b.y + b.height then
              0 <= (row - b.y) * b.width + (column - b.x) < |b.pixels|
              && Shown(b, column, row) == Some(b.pixels[(row - b.y) * b.width + (column - b.x)])
            else Shown(b, column, row) == None
  {
    if b.x <= column < b.x + b.width && b.y <= row < b.y + b.height {
      MulGap(row - b.y, b.height, b.width);
      Commute(b.width, b.height);
    }
  }

  lemma Commute(a: nat, b: nat)
    ensures a * b == b * a
  {
  }

  /** What the two octets of a word say. */
  lemma WordRead(w: word, bs: seq<byte>, at: nat)
    requires at + 1 < |bs| && bs[at] == LittleEndian(w)[0] && bs[at + 1] == LittleEndian(w)[1]
    ensures WordAt(bs, at) == w
  {
  }

  /** A header laid out as the protocol says is understood as what was put into it. */
  lemma Reads(cmd: command, clearDirty: bool, x: word, y: word, width: word, height: word, operation: byte,
              header: seq<byte>, payload: seq<byte>, pixels: seq<word>)
    requires cmd == 2 || cmd == 5
    requires header == LittleEndian(x) + LittleEndian(y) + LittleEndian(width) + LittleEndian(height) + [operation]
    requires Painted(payload, cmd == 5) == Some(pixels)
    ensures Understood(StartOctet(cmd, clearDirty), header + payload)
         == Some(Blit(clearDirty, x, y, width, height, operation, pixels))
  {
    hide Painted, LittleEndian;
    var bs := header + payload;
    assert bs[9..] == payload;
    WordRead(x, bs, 0);
    WordRead(y, bs, 2);
    WordRead(width, bs, 4);
    WordRead(height, bs, 6);
  }

  /** Every packet of a command opens with the command's octet, the first with its flags. */
  lemma {:induction false} PacketHeads(first: byte, cmd: byte, room: nat, content: seq<byte>, i: nat)
    requires room > 0 && i <= |content| / room
    ensures i * (room + 1) < |[first] + Stream(cmd, room, content)|
    ensures ([first] + Stream(cmd, room, content))[i * (room + 1)] == if i == 0 then first else cmd
    decreases |content|
  {
    DivStep(|content|, room);
    if i > 0 {
      var rest := content[room..];
      PacketHeads(cmd, cmd, room, rest, i - 1);
      Distribute(i - 1, room + 1);
      assert [first] + Stream(cmd, room, content) == ([first] + content[..room]) + ([cmd] + Stream(cmd, room, rest));
    }
  }
}
