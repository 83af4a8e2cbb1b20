/** rpusbdisp_usb_try_send_image: a rectangle of the framebuffer goes out as a bitblt command in URBs. */
module ImageSender {
  import opened Bytes
  import opened Packets
  import opened SdkTransfer
  import opened RleFormat
  import opened RleEncoders
  import opened LinkedList
  import opened DisplayTickets
  import opened TicketBundle
  import opened UrbStream
  import opened Reservation
  import opened BitbltEncoder
  import opened RleStream
  import opened DisplayDevice

  /** The rectangle of `h` rows of `w` pixels at (x, y), row by row. */
  function Rect(framebuffer: seq<word>, lineWidth: nat, x: nat, y: nat, w: nat, h: nat): (r: seq<word>)
    requires x + w <= lineWidth && (y + h) * lineWidth <= |framebuffer|
    ensures |r| == w * h
  {
    if h == 0 then []
    else
      RowFits(|framebuffer|, lineWidth, x, y, w, h);
      var at := (y + h - 1) * lineWidth + x;
      Rect(framebuffer, lineWidth, x, y, w, h - 1) + framebuffer[at..at + w]
  }

  lemma RowFits(size: nat, lineWidth: nat, x: nat, y: nat, w: nat, h: nat)
    requires h > 0 && x + w <= lineWidth && (y + h) * lineWidth <= size
    ensures (y + (h - 1)) * lineWidth == (y + h - 1) * lineWidth == (y + h) * lineWidth - lineWidth
    ensures 0 <= (y + h - 1) * lineWidth + x && (y + h - 1) * lineWidth + x + w <= size
    ensures w * (h - 1) + w == w * h
  {
    Distribute(y + h - 1, lineWidth);
    Distribute(h - 1, w);
  }

  /** Pixel (column, row) of the rectangle is where the framebuffer has it. */
  lemma InRect(size: nat, lineWidth: nat, x: nat, y: nat, w: nat, h: nat, column: nat, row: nat)
    requires x + w <= lineWidth && (y + h) * lineWidth <= size && column < w && row < h
    ensures row * w + column < w * h
    ensures 0 <= (y + row) * lineWidth + (x + column) < size
    ensures row < h - 1 ==> row * w + column < w * (h - 1)
    ensures row == h - 1 ==> row * w == w * (h - 1)
  {
    Below(row, h, w, column);
    Below(y + row, y + h, lineWidth, x + column);
    if row < h - 1 {
      Below(row, h - 1, w, column);
    }
  }

  lemma Below(a: nat, b: nat, m: nat, rest: nat)
    requires a < b && rest < m
    ensures 0 <= a * m + rest < b * m
  {
    MulGap(a, b, m);
  }

  lemma {:induction false} RectAt(framebuffer: seq<word>, lineWidth: nat, x: nat, y: nat, w: nat, h: nat,
                                  column: nat, row: nat)
    requires x + w <= lineWidth && (y + h) * lineWidth <= |framebuffer| && column < w && row < h
    ensures row * w + column < w * h
    ensures 0 <= (y + row) * lineWidth + (x + column) < |framebuffer|
    ensures Rect(framebuffer, lineWidth, x, y, w, h)[row * w + column] == framebuffer[(y + row) * lineWidth + (x + column)]
  {
    hide Rect;
    RowFits(|framebuffer|, lineWidth, x, y, w, h);
    InRect(|framebuffer|, lineWidth, x, y, w, h, column, row);
    LastRow(framebuffer, lineWidth, x, y, w, h);
    if row < h - 1 {
      RectAt(framebuffer, lineWidth, x, y, w, h - 1, column, row);
    }
  }

  lemma LastRow(framebuffer: seq<word>, lineWidth: nat, x: nat, y: nat, w: nat, h: nat)
    requires h > 0 && x + w <= lineWidth && (y + h) * lineWidth <= |framebuffer|
    ensures (y + (h - 1)) * lineWidth <= |framebuffer|
    ensures var at := (y + h - 1) * lineWidth + x;
            && 0 <= at <= at + w <= |framebuffer|
            && Rect(framebuffer, lineWidth, x, y, w, h)
               == Rect(framebuffer, lineWidth, x, y, w, h - 1) + framebuffer[at..at + w]
  {
    RowFits(|framebuffer|, lineWidth, x, y, w, h);
  }

  /** What follows the command header. */
  function Payload(pixels: seq<word>, rleMode: bool): seq<byte> {
    if rleMode then Compress(Kernel, pixels) else WordsToBytes(pixels)
  }

  lemma PaintedPayload(pixels: seq<word>, rleMode: bool)
    ensures Painted(Payload(pixels, rleMode), rleMode) == Some(pixels)
  {
    DecodeCompress(Kernel, pixels);
    WordsRoundTrip(pixels);
  }

  function PayloadBound(n: nat, rleMode: bool): nat {
    if rleMode then WorstCase(n) else 2 * n
  }

  lemma PayloadBounds(pixels: seq<word>, n: nat, rleMode: bool)
    requires |pixels| <= n
    ensures |Payload(pixels, rleMode)| <= PayloadBound(n, rleMode)
    ensures PayloadBound(|pixels|, rleMode) <= PayloadBound(n, rleMode)
    ensures HEADER_REST + PayloadBound(n, rleMode) == WorstContent(2 * n, rleMode)
  {
    CompressBound(Kernel, pixels);
    WorstCaseMonotone(|pixels|, n);
  }

  /** The payload's octets that go out while `pixels` are taken in. */
  function SoFar(pixels: seq<word>, rleMode: bool): seq<byte> {
    if rleMode then Closed(Kernel, pixels) else WordsToBytes(pixels)
  }

  /** What is out after a part of the pixels is the beginning of what is out after more of them, and of the payload. */
  lemma SoFarGrows(pixels: seq<word>, more: seq<word>, rleMode: bool)
    requires pixels <= more
    ensures SoFar(pixels, rleMode) <= SoFar(more, rleMode) <= Payload(more, rleMode)
  {
    if rleMode {
      ClosedPrefix(Kernel, more, |pixels|);
      assert more[..|pixels|] == pixels;
    }
  }

  /** The content has got no further than `pixels`. */
  ghost predicate Reached(content: seq<byte>, head: seq<byte>, pixels: seq<word>, rleMode: bool) {
    content <= head + SoFar(pixels, rleMode)
  }

  lemma ReachedMore(content: seq<byte>, head: seq<byte>, pixels: seq<word>, more: seq<word>, rleMode: bool)
    requires Reached(content, head, pixels, rleMode) && pixels <= more
    ensures Reached(content, head, more, rleMode) && content <= head + Payload(more, rleMode)
  {
    SoFarGrows(pixels, more, rleMode);
  }

  /** Both encoder contexts have taken in `pixels` behind the content `head`. */
  ghost predicate Loaded(out: EncodingContext, rle: RleContext, head: seq<byte>, pixels: seq<word>)
    reads out, rle, rle.sectionData, out.dev, out.dev.buffers
  {
    && rle.out == out
    && if out.rleMode then rle.Coding() && rle.pixels == pixels && rle.head == head
       else out.Encoding() && out.content == head + WordsToBytes(pixels)
  }

  /** One turn of the inner loop. */
  method SendPixel(out: EncodingContext, rle: RleContext, pixel: word, ghost head: seq<byte>, ghost pixels: seq<word>)
    returns (status: Status)
    requires Loaded(out, rle, head, pixels)
    modifies rle`isCommonSection, rle`sectionSize, rle`pixels, rle.sectionData
    modifies out`currentNode, out`ticket, out`urbBuffer, out`encodedPos, out`packetPos
    modifies out`bundle, out`submitted, out`content, out.dev, out.dev.buffers
    ensures status == Done ==> Loaded(out, rle, head, pixels + [pixel])
    ensures out.Owning() && out.Behind() && Reached(out.content, head, pixels + [pixel], out.rleMode)
    ensures out.bundle.was == old(out.bundle.was) && out.bundle.hi == old(out.bundle.hi)
    ensures status == OffBundle ==> out.Full()
    ensures out.dev.refused == old(out.dev.refused) + if status == Failed then 1 else 0
    ensures status == Failed ==> out.Unsent()
  {
    hide Device.Valid, Bundle.Intact, Streaming, EncodingContext.Encoding, EncodingContext.Owning, EncodingContext.Full,
         EncodingContext.Unsent, RleContext.Coding;
    if out.rleMode {
      status := rle.CompressPixel(pixel);
    } else {
      WordsToBytesAppend(pixels, pixel);
      assert (head + WordsToBytes(pixels)) + LittleEndian(pixel) == head + WordsToBytes(pixels + [pixel]);
      status := out.TransferData(LittleEndian(pixel));
    }
  }

  /** The inner loop: one row, the pointer left just behind it. */
  method SendRow(out: EncodingContext, rle: RleContext, framebuffer: seq<word>, start: nat, w: nat,
                 ghost head: seq<byte>, ghost pixels: seq<word>)
    returns (status: Status, at: nat)
    requires start + w <= |framebuffer| && Loaded(out, rle, head, pixels)
    modifies rle`isCommonSection, rle`sectionSize, rle`pixels, rle.sectionData
    modifies out`currentNode, out`ticket, out`urbBuffer, out`encodedPos, out`packetPos
    modifies out`bundle, out`submitted, out`content, out.dev, out.dev.buffers
    ensures status == Done ==> at == start + w && Loaded(out, rle, head, pixels + framebuffer[start..start + w])
    ensures out.Owning() && out.Behind()
    ensures status != Done ==> Reached(out.content, head, pixels + framebuffer[start..start + w], out.rleMode)
    ensures out.bundle.was == old(out.bundle.was) && out.bundle.hi == old(out.bundle.hi)
    ensures status == OffBundle ==> out.Full()
    ensures out.dev.refused == old(out.dev.refused) + if status == Failed then 1 else 0
    ensures status == Failed ==> out.Unsent()
  {
    hide Device.Valid, Bundle.Intact, Streaming, EncodingContext.Encoding, EncodingContext.Owning, EncodingContext.Full,
         EncodingContext.Unsent, EncodingContext.Behind, RleContext.Coding, Loaded, Rect, Reached, Payload;
    StillLoaded(out, rle, head, pixels);
    status, at := Done, start;
    assert pixels + framebuffer[start..start] == pixels;
    while at < start + w
      invariant start <= at <= start + w && status == Done && out.Owning() && out.Behind()
      invariant out.dev.refused == old(out.dev.refused)
      invariant Loaded(out, rle, head, pixels + framebuffer[start..at])
      invariant out.bundle.was == old(out.bundle.was) && out.bundle.hi == old(out.bundle.hi)
    {
      status := SendPixel(out, rle, framebuffer[at], head, pixels + framebuffer[start..at]);
      assert pixels + framebuffer[start..at] + [framebuffer[at]] == pixels + framebuffer[start..at + 1];
      if status != Done {
        assert framebuffer[start..at + 1] <= framebuffer[start..start + w];
        ReachedMore(out.content, head, pixels + framebuffer[start..at + 1], pixels + framebuffer[start..start + w],
                    out.rleMode);
        return;
      }
      at := at + 1;
    }
  }

  lemma StillLoaded(out: EncodingContext, rle: RleContext, head: seq<byte>, pixels: seq<word>)
    requires Loaded(out, rle, head, pixels)
    ensures out.Encoding() && out.Owning() && out.Behind()
  {
  }

  /** The outer loop over the rows of the rectangle. */
  method SendRows(out: EncodingContext, rle: RleContext, framebuffer: seq<word>, x: nat, y: nat, w: nat, h: nat,
                  lineWidth: nat, ghost head: seq<byte>, ghost image: seq<word>)
    returns (status: Status)
    requires x + w <= lineWidth && (y + h) * lineWidth <= |framebuffer|
    requires image == Rect(framebuffer, lineWidth, x, y, w, h)
    requires Loaded(out, rle, head, [])
    modifies rle`isCommonSection, rle`sectionSize, rle`pixels, rle.sectionData
    modifies out`currentNode, out`ticket, out`urbBuffer, out`encodedPos, out`packetPos
    modifies out`bundle, out`submitted, out`content, out.dev, out.dev.buffers
    ensures status == Done ==> Loaded(out, rle, head, image)
    ensures out.Owning() && out.Behind()
    ensures status != Done ==> Reached(out.content, head, image, out.rleMode)
    ensures out.bundle.was == old(out.bundle.was) && out.bundle.hi == old(out.bundle.hi)
    ensures status == OffBundle ==> out.Full()
    ensures out.dev.refused == old(out.dev.refused) + if status == Failed then 1 else 0
    ensures status == Failed ==> out.Unsent()
  {
    hide Device.Valid, Bundle.Intact, Streaming, EncodingContext.Encoding, EncodingContext.Owning, EncodingContext.Full,
         EncodingContext.Unsent, EncodingContext.Behind, RleContext.Coding, Loaded, Rect, Reached, Payload;
    StillLoaded(out, rle, head, []);
    status := Done;
    var at := y * lineWidth + x;
    var row := 0;
    ghost var done := [];
    AtFirstRow(framebuffer, lineWidth, x, y, w, h, at);
    hide AtRow;
    while row < h
      invariant 0 <= row <= h && at >= 0 && status == Done && out.Owning() && out.Behind()
      invariant out.dev.refused == old(out.dev.refused)
      invariant AtRow(framebuffer, lineWidth, x, y, w, row, at, done) && Loaded(out, rle, head, done)
      invariant out.bundle.was == old(out.bundle.was) && out.bundle.hi == old(out.bundle.hi)
    {
      NextRow(framebuffer, lineWidth, x, y, w, h, row, at, done);
      ghost var next := done + framebuffer[at..at + w];
      status, at := SendRow(out, rle, framebuffer, at, w, head, done);
      done := next;
      if status != Done {
        ReachedMore(out.content, head, done, image, out.rleMode);
        return;
      }
      at := at + (lineWidth - w);
      row := row + 1;
    }
    AtLastRow(framebuffer, lineWidth, x, y, w, h, at, done);
  }

  /** Where the pointer stands when `row` rows have gone out, and their pixels. */
  ghost predicate AtRow(framebuffer: seq<word>, lineWidth: nat, x: nat, y: nat, w: nat, row: nat, at: nat,
                        done: seq<word>)
  {
    && x + w <= lineWidth && (y + row) * lineWidth <= |framebuffer|
    && at == (y + row) * lineWidth + x && done == Rect(framebuffer, lineWidth, x, y, w, row)
  }

  lemma AtFirstRow(framebuffer: seq<word>, lineWidth: nat, x: nat, y: nat, w: nat, h: nat, at: int)
    requires x + w <= lineWidth && (y + h) * lineWidth <= |framebuffer| && at == y * lineWidth + x
    ensures at >= 0 && AtRow(framebuffer, lineWidth, x, y, w, 0, at, [])
  {
    MulGap(y, y + h, lineWidth);
  }

  lemma AtLastRow(framebuffer: seq<word>, lineWidth: nat, x: nat, y: nat, w: nat, h: nat, at: nat, done: seq<word>)
    requires AtRow(framebuffer, lineWidth, x, y, w, h, at, done)
    ensures x + w <= lineWidth && (y + h) * lineWidth <= |framebuffer|
    ensures done == Rect(framebuffer, lineWidth, x, y, w, h)
  {
  }

  lemma NextRow(framebuffer: seq<word>, lineWidth: nat, x: nat, y: nat, w: nat, h: nat, row: nat, at: nat,
                done: seq<word>)
    requires x + w <= lineWidth && (y + h) * lineWidth <= |framebuffer| && row < h
    requires AtRow(framebuffer, lineWidth, x, y, w, row, at, done)
    ensures at + w <= |framebuffer|
    ensures AtRow(framebuffer, lineWidth, x, y, w, row + 1, at + lineWidth, done + framebuffer[at..at + w])
    ensures done + framebuffer[at..at + w] <= Rect(framebuffer, lineWidth, x, y, w, h)
  {
    Distribute(y + row, lineWidth);
    MulGap(y + row, y + h, lineWidth);
    RectGrows(framebuffer, lineWidth, x, y, w, h, row + 1);
  }

  lemma {:induction false} RectGrows(framebuffer: seq<word>, lineWidth: nat, x: nat, y: nat, w: nat, h: nat, row: nat)
    requires x + w <= lineWidth && (y + h) * lineWidth <= |framebuffer| && row <= h
    ensures (y + row) * lineWidth <= |framebuffer|
    ensures Rect(framebuffer, lineWidth, x, y, w, row) <= Rect(framebuffer, lineWidth, x, y, w, h)
  {
    if row < h {
      Distribute(y + h - 1, lineWidth);
      RectGrows(framebuffer, lineWidth, x, y, w, h - 1, row);
    }
  }

  /** All pixels, and in RLE mode the section still pending. */
  method SendContent(out: EncodingContext, rle: RleContext, framebuffer: seq<word>, x: nat, y: nat, w: nat, h: nat,
                     lineWidth: nat, ghost head: seq<byte>, ghost image: seq<word>)
    returns (status: Status)
    requires x + w <= lineWidth && (y + h) * lineWidth <= |framebuffer|
    requires image == Rect(framebuffer, lineWidth, x, y, w, h)
    requires Loaded(out, rle, head, [])
    modifies rle`isCommonSection, rle`sectionSize, rle`pixels, rle.sectionData
    modifies out`currentNode, out`ticket, out`urbBuffer, out`encodedPos, out`packetPos
    modifies out`bundle, out`submitted, out`content, out.dev, out.dev.buffers
    ensures status == Done ==> out.Encoding() && out.content == head + Payload(image, out.rleMode)
    ensures out.Owning() && out.Behind() && out.content <= head + Payload(image, out.rleMode)
    ensures out.bundle.was == old(out.bundle.was) && out.bundle.hi == old(out.bundle.hi)
    ensures status == OffBundle ==> out.Full()
    ensures out.dev.refused == old(out.dev.refused) + if status == Failed then 1 else 0
    ensures status == Failed ==> out.Unsent()
  {
    hide Device.Valid, Bundle.Intact, Streaming, EncodingContext.Encoding, EncodingContext.Owning, EncodingContext.Full,
         EncodingContext.Unsent, EncodingContext.Behind, RleContext.Coding, Loaded, Rect, Reached, Payload;
    status := SendRows(out, rle, framebuffer, x, y, w, h, lineWidth, head, image);
    if status == Done {
      StillLoaded(out, rle, head, image);
      if out.rleMode {
        status := LastSection(out, rle, head, image);
      } else {
        RawContent(out, rle, head, image);
      }
    } else {
      ReachedMore(out.content, head, image, image, out.rleMode);
    }
  }

  lemma RawContent(out: EncodingContext, rle: RleContext, head: seq<byte>, image: seq<word>)
    requires Loaded(out, rle, head, image) && !out.rleMode
    ensures out.Encoding() && out.content == head + Payload(image, false)
  {
  }

  method LastSection(out: EncodingContext, rle: RleContext, ghost head: seq<byte>, ghost image: seq<word>)
    returns (status: Status)
    requires Loaded(out, rle, head, image) && out.rleMode
    modifies rle`isCommonSection, rle`sectionSize
    modifies out`currentNode, out`ticket, out`urbBuffer, out`encodedPos, out`packetPos
    modifies out`bundle, out`submitted, out`content, out.dev, out.dev.buffers
    ensures status == Done ==> out.Encoding() && out.content == head + Payload(image, true)
    ensures out.Owning() && out.Behind() && out.content <= head + Payload(image, true)
    ensures out.bundle.was == old(out.bundle.was) && out.bundle.hi == old(out.bundle.hi)
    ensures status == OffBundle ==> out.Full()
    ensures out.dev.refused == old(out.dev.refused) + if status == Failed then 1 else 0
    ensures status == Failed ==> out.Unsent()
  {
    hide Device.Valid, Bundle.Intact, Streaming, EncodingContext.Encoding, EncodingContext.Owning, EncodingContext.Full,
         EncodingContext.Unsent, EncodingContext.Behind, Emitted, Scan, Compress, Flushed;
    EmittedAll(out.content, head, image);
    status := rle.FlushSection();
  }

  datatype Outcome = Empty | NoTickets | Aborted | FlushFailed | Sent | Halted

  /** What the device gets out of the URBs: the command, and after its header the very pixels of the image; and octet for
      octet what the user-mode SDK would transfer for that command. */
  ghost predicate Delivered(urbs: seq<seq<byte>>, size: nat, cmd: command, clearDirty: bool, header: seq<byte>,
                            image: seq<word>)
  {
    && size > 1 && |header| == HEADER_REST
    && header <= StripAll(urbs, size)
    && Painted(StripAll(urbs, size)[HEADER_REST..], cmd == DISPCMD_BITBLT_RLE) == Some(image)
    && Flatten(urbs) == Transfer([cmd] + header + Payload(image, cmd == DISPCMD_BITBLT_RLE), size, clearDirty)
    && urbs != [] && urbs[0] != [] && urbs[0][0] == StartOctet(cmd, clearDirty)
  }

  /** The command for a rectangle, its numbers cut to 16 bits. */
  function BlitOf(x: int, y: int, right: int, bottom: int, clearDirty: bool, image: seq<word>): Blit {
    Blit(clearDirty, x % 0x1_0000, y % 0x1_0000, (right + 1 - x) % 0x1_0000, (bottom + 1 - y) % 0x1_0000, 0, image)
  }

  /** What is delivered is understood by a device that goes by the protocol. */
  lemma DeviceUnderstands(urbs: seq<seq<byte>>, size: nat, cmd: command, clearDirty: bool, x: int, y: int, right: int,
                          bottom: int, image: seq<word>)
    requires cmd == DISPCMD_BITBLT || cmd == DISPCMD_BITBLT_RLE
    requires Delivered(urbs, size, cmd, clearDirty, HeaderContent(x, y, right, bottom), image)
    ensures Sees(urbs, size) == Some(BlitOf(x, y, right, bottom, clearDirty, image))
  {
    hide StripAll, Painted, LittleEndian, StartOctet, Understood, Payload, Transfer, Flatten;
    var content := StripAll(urbs, size);
    var header, payload := HeaderContent(x, y, right, bottom), content[HEADER_REST..];
    assert content == header + payload;
    Reads(cmd, clearDirty, x % 0x1_0000, y % 0x1_0000, (right + 1 - x) % 0x1_0000, (bottom + 1 - y) % 0x1_0000, 0,
          header, payload, image);
  }

  /** On a screen whose coordinates fit 16 bits, the device shows the framebuffer's own pixel at every place of the rectangle
      and touches no other. */
  lemma DeviceShows(framebuffer: seq<word>, lineWidth: nat, x: nat, y: nat, right: int, bottom: int, clearDirty: bool,
                    column: int, row: int)
    requires x <= right + 1 <= lineWidth && y <= bottom + 1 && (bottom + 1) * lineWidth <= |framebuffer|
    requires right < 0xffff && bottom < 0xffff
    ensures var b := BlitOf(x, y, right, bottom, clearDirty, Image(framebuffer, lineWidth, x, y, right, bottom));
            if x <= column <= right && y <= row <= bottom then
              0 <= row * lineWidth + column < |framebuffer|
              && Shown(b, column, row) == Some(framebuffer[row * lineWidth + column])
            else Shown(b, column, row) == None
  {
    var w, h := right + 1 - x, bottom + 1 - y;
    var b := BlitOf(x, y, right, bottom, clearDirty, Image(framebuffer, lineWidth, x, y, right, bottom));
    hide Rect, Shown, BlitOf;
    Uncut(x, y, right, bottom, clearDirty, Image(framebuffer, lineWidth, x, y, right, bottom));
    ShownExactly(b, column, row);
    if x <= column <= right && y <= row <= bottom {
      RectAt(framebuffer, lineWidth, x, y, w, h, column - x, row - y);
      assert y + (row - y) == row && x + (column - x) == column;
    }
  }

  lemma Uncut(x: nat, y: nat, right: int, bottom: int, clearDirty: bool, image: seq<word>)
    requires x <= right + 1 < 0x1_0000 && y <= bottom + 1 < 0x1_0000
    ensures BlitOf(x, y, right, bottom, clearDirty, image)
         == Blit(clearDirty, x, y, right + 1 - x, bottom + 1 - y, 0, image)
  {
  }

  /** The URBs are the beginning of what the user-mode SDK would transfer for that command: the device sees its header and
      pixels of this rectangle, cut off anywhere, and nothing else. */
  ghost predicate Begun(urbs: seq<seq<byte>>, size: nat, cmd: command, clearDirty: bool, header: seq<byte>,
                        image: seq<word>)
  {
    size > 1 && Flatten(urbs) <= Transfer([cmd] + header + Payload(image, cmd == DISPCMD_BITBLT_RLE), size, clearDirty)
  }

  lemma BehindIsBegun(urbs: seq<seq<byte>>, size: nat, cmd: command, clearDirty: bool, header: seq<byte>,
                      image: seq<word>, content: seq<byte>)
    requires size > 1 && content <= header + Payload(image, cmd == DISPCMD_BITBLT_RLE)
    requires Flatten(urbs) <= [StartOctet(cmd, clearDirty)] + Stream(cmd, size - 1, content)
    ensures Begun(urbs, size, cmd, clearDirty, header, image)
  {
    hide Stream, Flatten, Payload;
    var whole := header + Payload(image, cmd == DISPCMD_BITBLT_RLE);
    StreamBegun(cmd, size - 1, content, whole);
    assert ([cmd] + header + Payload(image, cmd == DISPCMD_BITBLT_RLE))[1..] == whole;
  }

  lemma ReceivedIsDelivered(urbs: seq<seq<byte>>, size: nat, cmd: command, clearDirty: bool, header: seq<byte>,
                            image: seq<word>)
    requires size > 1 && |header| == HEADER_REST
    requires var rleMode := cmd == DISPCMD_BITBLT_RLE;
             && StripAll(urbs, size) == header + Payload(image, rleMode)
             && Flatten(urbs) == [StartOctet(cmd, clearDirty)] + Stream(cmd, size - 1, header + Payload(image, rleMode))
    requires urbs != [] && urbs[0] != [] && urbs[0][0] == StartOctet(cmd, clearDirty)
    ensures Delivered(urbs, size, cmd, clearDirty, header, image)
  {
    hide Stream, StripAll, Flatten, Payload, Painted;
    var payload := Payload(image, cmd == DISPCMD_BITBLT_RLE);
    PaintedPayload(image, cmd == DISPCMD_BITBLT_RLE);
    assert (header + payload)[HEADER_REST..] == payload;
    assert ([cmd] + header + payload)[1..] == header + payload;
  }

  /** The reserved packets always hold the command; they leave room for the last command octet, without which it cannot
      be sent, unless the worst case is an exact fill and the image compresses to the worst case. */
  lemma FitsUnlessExact(pixels: seq<word>, rleMode: bool, size: nat, factor: nat)
    requires size > 1 && factor > 0
    ensures var content := HEADER_REST + |Payload(pixels, rleMode)|;
            var worst := WorstContent(2 * |pixels|, rleMode);
            var capacity := Capacity(Required(worst, size, factor), size, factor);
            && content <= capacity
            && (content < capacity <==> worst % (factor * (size - 1)) != 0 || content < worst)
  {
    hide Capacity, Required, Payload;
    PayloadBounds(pixels, |pixels|, rleMode);
    RequiredIsLeast(WorstContent(2 * |pixels|, rleMode), size, factor);
    ExactFillIff(WorstContent(2 * |pixels|, rleMode), size, factor);
  }

  /** Content octets of the command that sends these pixels. */
  function CommandLength(pixels: seq<word>, rleMode: bool): nat {
    HEADER_REST + |Payload(pixels, rleMode)|
  }

  function Alternating(n: nat): (r: seq<word>)
    ensures |r| == n && NoPairs(r)
  {
    seq(n, i => if i % 2 == 0 then 0 else 1)
  }

  lemma HighSpeedNumbers(n: nat)
    requires n == 320 * 202
    ensures Required(WorstContent(2 * n, true), 512, Factor(512)) == 2
    ensures HEADER_REST + WorstCase(n) == Capacity(2, 512, Factor(512))
  {
    assert Factor(512) == 127 && WorstContent(2 * n, true) == 129794;
    hide Factor, WorstContent;
    assert CeilDiv(129794, 511) == 254 && CeilDiv(254, 127) == 2;
  }

  /** Inputs that fill their packets exactly: on high-speed packets of 512 octets, in RLE mode, the 320x202 pixels of which
      no two neighbours are equal. Their command cannot be sent. */
  lemma HighSpeedExactFill(image: seq<word>)
    requires |image| == 320 * 202 && NoPairs(image)
    ensures Required(WorstContent(2 * |image|, true), 512, Factor(512)) == 2
    ensures CommandLength(image, true) == Capacity(2, 512, Factor(512))
  {
    hide Required, WorstContent, Factor, Capacity, WorstCase, Compress, NoPairs;
    NoPairsReachBound(Kernel, image);
    HighSpeedNumbers(|image|);
  }

  /** One of them. */
  lemma HighSpeedExample()
    ensures var image := Alternating(320 * 202);
            && Required(WorstContent(2 * |image|, true), 512, Factor(512)) == 2
            && CommandLength(image, true) == Capacity(2, 512, Factor(512))
  {
    HighSpeedExactFill(Alternating(320 * 202));
  }

  /** On packets of 1024 octets no raw image of 179x180 pixels can be sent. */
  lemma SuperSpeedExactFill(image: seq<word>)
    requires |image| == 179 * 180
    ensures Required(WorstContent(2 * |image|, false), 1024, Factor(1024)) == 1
    ensures CommandLength(image, false) == Capacity(1, 1024, Factor(1024))
  {
  }

  const RLE_FWVERSION := 0x0104

  function CommandFor(firmware: nat): command {
    if firmware >= RLE_FWVERSION then DISPCMD_BITBLT_RLE else DISPCMD_BITBLT
  }

  /** Tickets reserved for a command of `pixels` pixels. */
  function Reserved(dev: Device, pixels: nat, rleMode: bool): nat
    requires dev.packetSize > 1 && dev.factor > 0
  {
    Required(WorstContent(2 * pixels, rleMode), dev.packetSize, dev.factor)
  }

  /** The sender can fall off its bundle only when the command fills the reserved packets to the last octet. */
  lemma HaltedIsExact(pixels: seq<word>, tickets: nat, rleMode: bool, size: nat, factor: nat)
    requires size > 1 && factor > 0 && tickets == Required(WorstContent(2 * |pixels|, rleMode), size, factor)
    requires Capacity(tickets, size, factor) <= HEADER_REST + |Payload(pixels, rleMode)|
    ensures HEADER_REST + |Payload(pixels, rleMode)| == Capacity(tickets, size, factor)
    ensures WorstContent(2 * |pixels|, rleMode) % (factor * (size - 1)) == 0
  {
    hide Capacity, Required, Payload;
    FitsUnlessExact(pixels, rleMode, size, factor);
  }

  /** The pixels of the rectangle between the corners. */
  function Image(framebuffer: seq<word>, lineWidth: nat, x: nat, y: nat, right: int, bottom: int): seq<word>
    requires x <= right + 1 <= lineWidth && y <= bottom + 1 && (bottom + 1) * lineWidth <= |framebuffer|
  {
    Rect(framebuffer, lineWidth, x, y, right + 1 - x, bottom + 1 - y)
  }

  function Area(x: nat, y: nat, right: int, bottom: int): nat
    requires x <= right + 1 && y <= bottom + 1
  {
    (right + 1 - x) * (bottom + 1 - y)
  }

  /** How many URBs go out on each way: all that the command fills and the last one too; all but the last one, if that is
      refused; fewer than it fills, if one of these is; and all that were reserved, before the BUG_ON. */
  predicate Counted(outcome: Outcome, urbs: nat, length: nat, tickets: nat, size: nat, factor: nat)
    requires size > 1 && factor > 0
  {
    match outcome
    case Sent => urbs == FullUrbs(length, size, factor) + 1
    case FlushFailed => urbs == FullUrbs(length, size, factor)
    case Aborted => urbs < FullUrbs(length, size, factor)
    case Halted => urbs == tickets
    case Empty => urbs == 0
    case NoTickets => urbs == 0
  }

  /** A submission was refused on the way. */
  predicate Failing(outcome: Outcome) {
    outcome == Aborted || outcome == FlushFailed
  }

  lemma AbortedEarly(content: nat, urbs: nat, length: nat, size: nat, factor: nat)
    requires size > 1 && factor > 0 && content == Capacity(urbs + 1, size, factor) && content <= length
    ensures urbs < FullUrbs(length, size, factor)
  {
    FullUrbsAtLeast(length, urbs + 1, size, factor);
  }

  /** rpusbdisp_usb_try_send_image. `firmware` is the device's version; `urbs` are the URBs it accepted, in order,
      and `kept` the tickets that are lost to the pool. Halted is the BUG_ON. */
  method TrySendImage(dev: Device, framebuffer: seq<word>, x: nat, y: nat, right: int, bottom: int, lineWidth: nat,
                      clearDirty: bool, firmware: nat)
    returns (outcome: Outcome, ghost urbs: seq<seq<byte>>, ghost kept: set<Ticket>)
    requires dev.Valid() && dev.packetSize > 1 + HEADER_REST
    requires x <= right + 1 <= lineWidth && y <= bottom + 1 && (bottom + 1) * lineWidth <= |framebuffer|
    modifies dev, dev.buffers
    ensures dev.Valid() && dev.wire == old(dev.wire) + urbs
    ensures dev.ledger.Outside(Held) == old(dev.ledger).Outside(Held) + kept
    ensures outcome != FlushFailed ==> kept == {}
    ensures outcome == Empty <==> Area(x, y, right, bottom) == 0
    ensures outcome == NoTickets <==>
              && outcome != Empty
              && var reserved := Reserved(dev, Area(x, y, right, bottom), firmware >= RLE_FWVERSION);
                 !old(dev.alive) || reserved > MAX_TICKETS || reserved > old(dev.available)
    ensures outcome == FlushFailed ==>
              var ledger0, reserved := old(dev.ledger), Reserved(dev, Area(x, y, right, bottom), firmware >= RLE_FWVERSION);
              && ledger0.sold + reserved <= |ledger0.queue|
              && kept == set i | ledger0.sold + |urbs| + 1 <= i < ledger0.sold + reserved :: ledger0.queue[i]
    ensures outcome == Empty || outcome == NoTickets ==> urbs == []
    ensures outcome != Empty && outcome != NoTickets ==>
              Begun(urbs, dev.packetSize, CommandFor(firmware), clearDirty, HeaderContent(x, y, right, bottom),
                    Image(framebuffer, lineWidth, x, y, right, bottom))
    ensures outcome == Halted ==>
              && CommandLength(Image(framebuffer, lineWidth, x, y, right, bottom), firmware >= RLE_FWVERSION)
                 == Capacity(Reserved(dev, Area(x, y, right, bottom), firmware >= RLE_FWVERSION), dev.packetSize, dev.factor)
              && WorstContent(2 * Area(x, y, right, bottom),
                                       firmware >= RLE_FWVERSION) % (dev.factor * (dev.packetSize - 1)) == 0
    ensures outcome == Sent ==>
              Delivered(urbs, dev.packetSize, CommandFor(firmware), clearDirty, HeaderContent(x, y, right, bottom),
                        Image(framebuffer, lineWidth, x, y, right, bottom))
    ensures outcome == Sent ==>
              Sees(urbs, dev.packetSize) == Some(BlitOf(x, y, right, bottom, clearDirty,
                                                        Image(framebuffer, lineWidth, x, y, right, bottom)))
    ensures outcome == Sent ==>
              CommandLength(Image(framebuffer, lineWidth, x, y, right, bottom), firmware >= RLE_FWVERSION)
              < Capacity(Reserved(dev, Area(x, y, right, bottom), firmware >= RLE_FWVERSION), dev.packetSize, dev.factor)
    ensures dev.refused == old(dev.refused) + if Failing(outcome) then 1 else 0
    ensures Counted(outcome, |urbs|,
                    CommandLength(Image(framebuffer, lineWidth, x, y, right, bottom), firmware >= RLE_FWVERSION),
                    Reserved(dev, Area(x, y, right, bottom), firmware >= RLE_FWVERSION), dev.packetSize, dev.factor)
    ensures outcome != Empty && outcome != NoTickets && dev.refused == old(dev.refused) ==>
              var length := CommandLength(Image(framebuffer, lineWidth, x, y, right, bottom), firmware >= RLE_FWVERSION);
              var capacity := Capacity(Reserved(dev, Area(x, y, right, bottom), firmware >= RLE_FWVERSION),
                                       dev.packetSize, dev.factor);
              && (outcome == Sent <==> length < capacity) && (outcome == Halted <==> length == capacity)
  {
    hide Device.Valid, Bundle.Intact, EncodingContext.Owning, Rect, Payload, Delivered, Begun, Required, WorstContent, Capacity,
         Ledger.Outside, FullUrbs, Sees, BlitOf;
    dev.Facts();
    var w: nat, h: nat := right - x + 1, bottom - y + 1;
    var imageSize := w * h * 2;
    assert imageSize == 2 * (w * h) == 2 * Area(x, y, right, bottom);
    if imageSize == 0 {
      return Empty, [], {};
    }
    var rleMode := firmware >= RLE_FWVERSION;
    var out := new EncodingContext(dev, rleMode);
    var ok := out.Init(imageSize);
    if !ok {
      return NoTickets, [], {};
    }
    ghost var image, tickets := Rect(framebuffer, lineWidth, x, y, w, h), out.Tickets();
    assert tickets == Required(WorstContent(2 * (w * h), rleMode), dev.packetSize, dev.factor);
    outcome := Transmit(out, framebuffer, x, y, w, h, right, bottom, lineWidth, clearDirty, image);
    out.Unreturned();
    urbs, kept := out.submitted, out.bundle.Ahead();
    if outcome == Sent {
      DeviceUnderstands(urbs, dev.packetSize, out.Cmd(), clearDirty, x, y, right, bottom, image);
    }
    if outcome == Halted {
      HaltedIsExact(image, tickets, rleMode, dev.packetSize, dev.factor);
    }
  }

  /** An update to be sent, as a caller of rpusbdisp_usb_try_send_image has it. */
  datatype Update = Update(framebuffer: seq<word>, x: nat, y: nat, right: int, bottom: int, lineWidth: nat,
                           clearDirty: bool)
  {
    predicate Legal() {
      x <= right + 1 <= lineWidth && y <= bottom + 1 && (bottom + 1) * lineWidth <= |framebuffer|
    }
  }

  /** Any number of later sends and completions: tickets lost by a failed flush stay lost, and so much smaller is the pool
      for good. */
  method LaterUpdates(dev: Device, updates: seq<Update>, firmware: nat, ghost kept: set<Ticket>)
    requires dev.Valid() && dev.packetSize > 1 + HEADER_REST && kept <= dev.ledger.Outside(Held)
    requires forall i :: 0 <= i < |updates| ==> updates[i].Legal()
    modifies dev, dev.buffers
    ensures dev.Valid() && kept <= dev.ledger.Outside(Held) && dev.available <= dev.urbCount - |kept|
  {
    hide Device.Valid, Ledger.Outside, Image, Begun, Delivered, Capacity, CommandLength, Reserved;
    for i := 0 to |updates|
      invariant dev.Valid() && kept <= dev.ledger.Outside(Held)
    {
      var u := updates[i];
      var outcome, _, _ := TrySendImage(dev, u.framebuffer, u.x, u.y, u.right, u.bottom, u.lineWidth, u.clearDirty,
                                        firmware);
      dev.OthersComplete();
    }
    dev.LostTickets(kept);
  }

  lemma FreshlyLoaded(out: EncodingContext, rle: RleContext, head: seq<byte>)
    requires rle.out == out && rle.Sized() && rle.Apart() && rle.Pending() == Literal([])
    requires rle.pixels == [] && rle.head == head && out.Encoding() && out.content == head
    ensures Loaded(out, rle, head, [])
  {
    EmittedNothing(head);
    assert head + WordsToBytes([]) == head;
  }

  lemma HasRoom(out: EncodingContext)
    requires out.Owning()
    ensures out.dev.factor > 0
  {
    out.dev.Facts();
  }

  /** The sending proper, with the tickets in hand. */
  method Transmit(out: EncodingContext, framebuffer: seq<word>, x: nat, y: nat, w: nat, h: nat, right: int, bottom: int,
                  lineWidth: nat, clearDirty: bool, ghost image: seq<word>)
    returns (outcome: Outcome)
    requires out.dev.packetSize > 1 + HEADER_REST && x + w <= lineWidth && (y + h) * lineWidth <= |framebuffer|
    requires image == Rect(framebuffer, lineWidth, x, y, w, h)
    requires out.Owning() && out.submitted == [] && out.bundle.cur == out.bundle.was.sold < out.bundle.hi
    requires out.ticket == out.currentNode && out.urbBuffer == out.packetPos == 0
    modifies out, out.dev, out.dev.buffers
    ensures out.Owning() && out.wire0 == old(out.wire0)
    ensures out.bundle.was == old(out.bundle.was) && out.bundle.hi == old(out.bundle.hi)
    ensures outcome == Aborted || outcome == FlushFailed || outcome == Sent || outcome == Halted
    ensures outcome != FlushFailed ==> out.bundle.cur == out.bundle.hi
    ensures outcome == FlushFailed ==> out.bundle.cur == out.bundle.was.sold + |out.submitted| + 1
    ensures outcome == Sent ==>
              Delivered(out.submitted, out.dev.packetSize, out.Cmd(), clearDirty, HeaderContent(x, y, right, bottom), image)
    ensures outcome == Sent ==>
              CommandLength(image, out.rleMode) < Capacity(out.Tickets(), out.dev.packetSize, out.dev.factor)
    ensures outcome == Halted ==>
              Capacity(out.Tickets(), out.dev.packetSize, out.dev.factor) <= CommandLength(image, out.rleMode)
    ensures Begun(out.submitted, out.dev.packetSize, out.Cmd(), clearDirty, HeaderContent(x, y, right, bottom), image)
    ensures out.dev.refused == old(out.dev.refused) + if Failing(outcome) then 1 else 0
    ensures out.dev.factor > 0
            && Counted(outcome, |out.submitted|, CommandLength(image, out.rleMode), out.Tickets(), out.dev.packetSize,
                       out.dev.factor)
  {
    hide Device.Valid, Bundle.Intact, Streaming, EncodingContext.Encoding, EncodingContext.Owning,
         EncodingContext.Behind, EncodingContext.Full, EncodingContext.Unsent, RleContext.Coding, Rect, Payload, Capacity,
         CommandLength, Counted, Delivered, Begun, StartOctet;
    HasRoom(out);
    out.CommandHeader(x, y, right, bottom, clearDirty);
    ghost var head := HeaderContent(x, y, right, bottom);
    var rle := new RleContext(out, head);
    FreshlyLoaded(out, rle, head);
    var status := SendContent(out, rle, framebuffer, x, y, w, h, lineWidth, head, image);
    outcome := Conclude(out, status, clearDirty, head, image);
  }

  /** The end of the sending, however the encoding went. */
  method Conclude(out: EncodingContext, status: Status, clearDirty: bool, ghost head: seq<byte>, ghost image: seq<word>)
    returns (outcome: Outcome)
    requires out.Owning() && out.Behind() && |head| == HEADER_REST && out.first == StartOctet(out.Cmd(), clearDirty)
    requires out.content <= head + Payload(image, out.rleMode)
    requires status == Done ==> out.Encoding() && out.content == head + Payload(image, out.rleMode)
    requires (status == OffBundle ==> out.Full()) && (status == Failed ==> out.Unsent())
    modifies out`currentNode, out`bundle, out`submitted, out.dev
    ensures out.Owning() && out.bundle.was == old(out.bundle.was) && out.bundle.hi == old(out.bundle.hi)
    ensures outcome == Aborted || outcome == FlushFailed || outcome == Sent || outcome == Halted
    ensures outcome != FlushFailed ==> out.bundle.cur == out.bundle.hi
    ensures outcome == FlushFailed ==> out.bundle.cur == out.bundle.was.sold + |out.submitted| + 1
    ensures outcome == Sent ==> Delivered(out.submitted, out.dev.packetSize, out.Cmd(), clearDirty, head, image)
    ensures outcome == Sent ==>
              CommandLength(image, out.rleMode) < Capacity(out.Tickets(), out.dev.packetSize, out.dev.factor)
    ensures outcome == Halted ==>
              Capacity(out.Tickets(), out.dev.packetSize, out.dev.factor) <= CommandLength(image, out.rleMode)
    ensures Begun(out.submitted, out.dev.packetSize, out.Cmd(), clearDirty, head, image)
    ensures out.dev.refused == old(out.dev.refused) + if outcome == FlushFailed then 1 else 0
    ensures outcome == Aborted <==> status == Failed
    ensures out.dev.factor > 0
            && Counted(outcome, |out.submitted|, CommandLength(image, out.rleMode), out.Tickets(), out.dev.packetSize,
                       out.dev.factor)
  {
    hide Device.Valid, Bundle.Intact, Streaming, EncodingContext.Encoding, EncodingContext.Owning, Payload, Capacity,
         Delivered, Begun, Compress, Stream, StripAll, Flatten, FullUrbs, StartOctet;
    HasRoom(out);
    BehindIsBegun(out.submitted, out.dev.packetSize, out.Cmd(), clearDirty, head, image, out.content);
    if status == OffBundle {
      return Halted;
    }
    if status == Failed {
      AbortedEarly(|out.content|, |out.submitted|, CommandLength(image, out.rleMode), out.dev.packetSize, out.dev.factor);
      out.Cleanup();
      return Aborted;
    }
    ghost var urbs := out.Received();
    ReceivedIsDelivered(urbs, out.dev.packetSize, out.Cmd(), clearDirty, head, image);
    BehindIsBegun(urbs, out.dev.packetSize, out.Cmd(), clearDirty, head, image, out.content);
    assert out.submitted + [] == out.submitted;
    var ok := out.Flush();
    if !ok {
      return FlushFailed;
    }
    outcome := Sent;
  }
}
