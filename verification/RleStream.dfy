/** The kernel's streaming run-length encoder: one pending section in a 128-pixel buffer, flushed octet by octet into
    the packet encoder. */
module RleStream {
  import opened Bytes
  import opened RleFormat
  import opened RleEncoders
  import opened DisplayTickets
  import opened TicketBundle
  import opened UrbStream
  import opened BitbltEncoder

  /** What a section occupies on the wire; an empty one is never sent. */
  function Flushed(s: Section): seq<byte>
    requires s == Literal([]) || Fits(s)
  {
    if s == Literal([]) then [] else Encode(s)
  }

  lemma FlushedNothing()
    ensures Flushed(Literal([])) == []
  {
  }

  lemma FlushedCost(s: Section)
    requires Fits(s)
    ensures Flushed(s) == Encode(s) && |Flushed(s)| == Cost(s)
  {
  }

  lemma OctetsOf(s: Section)
    requires Fits(s)
    ensures Flushed(s) == [Header(s)] + if s.Run? then WordsToBytes([s.value]) else WordsToBytes(s.values)
  {
    if s.Run? {
      assert WordsToBytes([s.value]) == LittleEndian(s.value);
    }
  }

  /** The content once the sections closed so far are out, behind the command header. */
  ghost predicate Emitted(content: seq<byte>, head: seq<byte>, pixels: seq<word>) {
    content == head + Closed(Kernel, pixels)
  }

  lemma EmittedNothing(head: seq<byte>)
    ensures Emitted(head, head, [])
  {
  }

  /** A pixel that closes no section sends nothing. */
  lemma EmittedQuiet(content: seq<byte>, head: seq<byte>, pixels: seq<word>, p: word)
    requires Emitted(content, head, pixels) && Scan(Kernel, pixels + [p]).closed == Scan(Kernel, pixels).closed
    ensures Emitted(content, head, pixels + [p])
  {
  }

  /** A pixel that closes a section sends it. */
  lemma EmittedStep(content: seq<byte>, head: seq<byte>, pixels: seq<word>, p: word, s: Section)
    requires Emitted(content, head, pixels) && Fits(s)
    requires Scan(Kernel, pixels + [p]).closed == Scan(Kernel, pixels).closed + [s]
    ensures Emitted(content + Encode(s), head, pixels + [p])
  {
    hide Scan, Step, Encode, EncodeAll, Fits;
    OpenFits(pixels);
    var closed := Scan(Kernel, pixels).closed;
    EncodeAllAppend(closed, s);
    Regroup(head, EncodeAll(closed), Encode(s));
  }

  /** What is out while one more pixel is taken in. */
  ghost predicate OnTheWay(content: seq<byte>, head: seq<byte>, pixels: seq<word>) {
    content <= head + Closed(Kernel, pixels)
  }

  lemma OnTheWayNext(content: seq<byte>, head: seq<byte>, pixels: seq<word>, p: word)
    requires Emitted(content, head, pixels)
    ensures OnTheWay(content, head, pixels + [p])
  {
    ClosedPrefix(Kernel, pixels + [p], |pixels|);
    assert (pixels + [p])[..|pixels|] == pixels;
  }

  lemma OnTheWayTo(content: seq<byte>, whole: seq<byte>, head: seq<byte>, pixels: seq<word>)
    requires Emitted(whole, head, pixels) && content <= whole
    ensures OnTheWay(content, head, pixels)
  {
  }

  lemma OpenFits(pixels: seq<word>)
    ensures var st := Scan(Kernel, pixels); AllFit(st.closed) && (st.open == Literal([]) || Fits(st.open))
  {
    ScanConsistent(Kernel, pixels);
  }

  lemma CompressIs(pixels: seq<word>)
    ensures var st := Scan(Kernel, pixels);
            && AllFit(st.closed) && (st.open != Literal([]) ==> AllFit(st.closed + [st.open]))
            && Compress(Kernel, pixels) ==
               if st.open == Literal([]) then EncodeAll(st.closed) else EncodeAll(st.closed + [st.open])
  {
    hide Scan, Encode, EncodeAll;
    OpenFits(pixels);
  }

  /** After the last flush the content is the compressed image. */
  lemma EmittedAll(content: seq<byte>, head: seq<byte>, pixels: seq<word>)
    requires Emitted(content, head, pixels)
    ensures OnTheWay(content, head, pixels)
    ensures var open := Scan(Kernel, pixels).open;
            && (open == Literal([]) || Fits(open))
            && content + Flushed(open) == head + Compress(Kernel, pixels)
  {
    hide Scan, Encode, EncodeAll, Fits, Compress, Flushed;
    OpenFits(pixels);
    CompressIs(pixels);
    var closed, open := Scan(Kernel, pixels).closed, Scan(Kernel, pixels).open;
    if open == Literal([]) {
      FlushedNothing();
      assert content + [] == content;
    } else {
      FlushedCost(open);
      EncodeAllAppend(closed, open);
      Regroup(head, EncodeAll(closed), Encode(open));
    }
  }

  lemma Regroup(a: seq<byte>, b: seq<byte>, c: seq<byte>)
    ensures (a + b) + c == a + (b + c)
  {
  }

  class RleContext {
    const out: EncodingContext
    const sectionData: array<word>
    var isCommonSection: bool
    var sectionSize: nat
    ghost var head: seq<byte>       // the content before the image
    ghost var pixels: seq<word>     // the pixels consumed

    /** _rle_compress_init */
    constructor (out: EncodingContext, ghost head: seq<byte>)
      ensures this.out == out && this.head == head && fresh(sectionData)
      ensures Sized() && Pending() == Literal([]) && pixels == []
    {
      this.out, isCommonSection, sectionSize := out, false, 0;
      sectionData := new word[SECTION_MAX];
      this.head, pixels := head, [];
    }

    ghost predicate Sized()
      reads this
    {
      sectionData.Length == SECTION_MAX && sectionSize <= SECTION_MAX && (isCommonSection ==> sectionSize > 0)
    }

    ghost function Pending(): (s: Section)
      requires Sized()
      reads this, sectionData
      ensures s == Literal([]) <==> sectionSize == 0
      ensures sectionSize > 0 ==> Fits(s)
    {
      if isCommonSection then Run(sectionSize, sectionData[0]) else Literal(sectionData[..sectionSize])
    }

    /** The section buffer is none of the transfer buffers. */
    ghost predicate Apart() {
      forall i :: 0 <= i < |out.dev.buffers| ==> (out.dev.buffers[i] as object) != sectionData
    }

    ghost predicate Coding()
      reads this, sectionData, out, out.dev, out.dev.buffers
    {
      && Sized() && Apart() && out.Encoding()
      && Pending() == Scan(Kernel, pixels).open
      && Emitted(out.content, head, pixels)
    }

    /** The pending section's header octet and pixels. */
    method SectionOctets() returns (sectionHeader: byte, data: seq<byte>)
      requires Sized() && sectionSize > 0
      ensures [sectionHeader] + data == Flushed(Pending())
    {
      hide Flushed, Encode, WordsToBytes;
      OctetsOf(Pending());
      sectionHeader := (sectionSize - 1) % 0x80;
      if isCommonSection {
        sectionHeader := sectionHeader + COMMON_BIT;
      }
      var count := if isCommonSection then 1 else sectionSize;
      assert sectionData[..1] == [sectionData[0]];
      data := WordsToBytes(sectionData[..count]);
    }

    /** _rle_flush_section */
    method FlushSection() returns (status: Status)
      requires Sized() && out.Encoding()
      modifies this`isCommonSection, this`sectionSize
      modifies out`currentNode, out`ticket, out`urbBuffer, out`encodedPos, out`packetPos
      modifies out`bundle, out`submitted, out`content, out.dev, out.dev.buffers
      ensures status == Done ==> out.Encoding() && out.content == old(out.content) + old(Flushed(Pending()))
      ensures status == Done ==> !isCommonSection && sectionSize == 0
      ensures out.Owning() && out.Behind() && out.content <= old(out.content) + old(Flushed(Pending()))
      ensures out.bundle.was == old(out.bundle.was) && out.bundle.hi == old(out.bundle.hi)
      ensures status == OffBundle ==> out.Full()
      ensures out.dev.refused == old(out.dev.refused) + if status == Failed then 1 else 0
      ensures status == Failed ==> out.Unsent()
    {
      hide Flushed, Device.Valid, Bundle.Intact, Streaming, EncodingContext.Encoding, EncodingContext.Owning,
          EncodingContext.Full,
           EncodingContext.Unsent, EncodingContext.Behind;
      out.StillOwning();
      FlushedNothing();
      if sectionSize == 0 {
        return Done;
      }
      var sectionHeader, data := SectionOctets();
      status := out.TransferData([sectionHeader]);
      if status != Done {
        return;
      }
      status := out.TransferData(data);
      if status != Done {
        return;
      }
      isCommonSection, sectionSize := false, 0;
    }

    /** The flush of the section that `pixel` closes. */
    method FlushFor(pixel: word) returns (status: Status)
      requires Sized() && sectionSize > 0 && out.Encoding() && Emitted(out.content, head, pixels)
      requires Scan(Kernel, pixels + [pixel]).closed == Scan(Kernel, pixels).closed + [Pending()]
      modifies this`isCommonSection, this`sectionSize
      modifies out`currentNode, out`ticket, out`urbBuffer, out`encodedPos, out`packetPos
      modifies out`bundle, out`submitted, out`content, out.dev, out.dev.buffers
      ensures status == Done ==> out.Encoding() && Emitted(out.content, head, pixels + [pixel])
      ensures status == Done ==> !isCommonSection && sectionSize == 0
      ensures out.Owning() && out.Behind() && OnTheWay(out.content, head, pixels + [pixel])
      ensures out.bundle.was == old(out.bundle.was) && out.bundle.hi == old(out.bundle.hi)
      ensures status == OffBundle ==> out.Full()
      ensures out.dev.refused == old(out.dev.refused) + if status == Failed then 1 else 0
      ensures status == Failed ==> out.Unsent()
    {
      hide Device.Valid, Bundle.Intact, Streaming, EncodingContext.Encoding, EncodingContext.Owning, EncodingContext.Full,
           EncodingContext.Unsent, Scan, Emitted, Encode, Closed, EncodingContext.Behind;
      ghost var closing, content0 := Pending(), out.content;
      EmittedStep(content0, head, pixels, pixel, closing);
      FlushedCost(closing);
      status := FlushSection();
      OnTheWayTo(out.content, content0 + Encode(closing), head, pixels + [pixel]);
    }

    /** _rle_compress_n_encode */
    method CompressPixel(pixel: word) returns (status: Status)
      requires Coding()
      modifies this`isCommonSection, this`sectionSize, this`pixels, sectionData
      modifies out`currentNode, out`ticket, out`urbBuffer, out`encodedPos, out`packetPos
      modifies out`bundle, out`submitted, out`content, out.dev, out.dev.buffers
      ensures status == Done ==> Coding() && pixels == old(pixels) + [pixel]
      ensures out.Owning() && out.Behind() && OnTheWay(out.content, head, old(pixels) + [pixel])
      ensures out.bundle.was == old(out.bundle.was) && out.bundle.hi == old(out.bundle.hi)
      ensures status == OffBundle ==> out.Full()
      ensures out.dev.refused == old(out.dev.refused) + if status == Failed then 1 else 0
      ensures status == Failed ==> out.Unsent()
    {
      if isCommonSection {
        status := AfterRun(pixel);
      } else if sectionSize > 0 && pixel == sectionData[sectionSize - 1] {
        status := FormRun(pixel);
      } else {
        status := AfterLiteral(pixel);
      }
    }

    /** A pixel after a run: the run grows, or is flushed because of another pixel or because it is full. */
    method AfterRun(pixel: word) returns (status: Status)
      requires Coding() && isCommonSection
      modifies this`isCommonSection, this`sectionSize, this`pixels, sectionData
      modifies out`currentNode, out`ticket, out`urbBuffer, out`encodedPos, out`packetPos
      modifies out`bundle, out`submitted, out`content, out.dev, out.dev.buffers
      ensures status == Done ==> Coding() && pixels == old(pixels) + [pixel]
      ensures out.Owning() && out.Behind() && OnTheWay(out.content, head, old(pixels) + [pixel])
      ensures out.bundle.was == old(out.bundle.was) && out.bundle.hi == old(out.bundle.hi)
      ensures status == OffBundle ==> out.Full()
      ensures out.dev.refused == old(out.dev.refused) + if status == Failed then 1 else 0
      ensures status == Failed ==> out.Unsent()
    {
      hide Device.Valid, Bundle.Intact, Streaming, EncodingContext.Encoding, EncodingContext.Owning, EncodingContext.Full,
           EncodingContext.Unsent, Scan, Emitted, OnTheWay, Closed, EncodingContext.Behind;
      ScanAppend(Kernel, pixels, pixel);
      OnTheWayNext(out.content, head, pixels, pixel);
      out.StillOwning();
      if pixel != sectionData[0] || sectionSize == SIZE_BIT + 1 {
        status := FlushFor(pixel);
        if status != Done {
          return;
        }
        sectionSize := 1;
        Store(0, pixel);
      } else {
        EmittedQuiet(out.content, head, pixels, pixel);
        sectionSize := sectionSize + 1;
      }
      pixels := pixels + [pixel];
      status := Done;
    }

    /** A pixel equal to the last of a literal section: that one is taken back to form a run of two. */
    method FormRun(pixel: word) returns (status: Status)
      requires Coding() && !isCommonSection && sectionSize > 0 && pixel == sectionData[sectionSize - 1]
      modifies this`isCommonSection, this`sectionSize, this`pixels, sectionData
      modifies out`currentNode, out`ticket, out`urbBuffer, out`encodedPos, out`packetPos
      modifies out`bundle, out`submitted, out`content, out.dev, out.dev.buffers
      ensures status == Done ==> Coding() && pixels == old(pixels) + [pixel]
      ensures out.Owning() && out.Behind() && OnTheWay(out.content, head, old(pixels) + [pixel])
      ensures out.bundle.was == old(out.bundle.was) && out.bundle.hi == old(out.bundle.hi)
      ensures status == OffBundle ==> out.Full()
      ensures out.dev.refused == old(out.dev.refused) + if status == Failed then 1 else 0
      ensures status == Failed ==> out.Unsent()
    {
      hide Device.Valid, Bundle.Intact, Streaming, EncodingContext.Encoding, EncodingContext.Owning, EncodingContext.Full,
           EncodingContext.Unsent, Scan, Emitted, OnTheWay, Closed, EncodingContext.Behind;
      ScanAppend(Kernel, pixels, pixel);
      OnTheWayNext(out.content, head, pixels, pixel);
      out.StillOwning();
      ghost var values := sectionData[..sectionSize];
      sectionSize := sectionSize - 1;
      assert values[..sectionSize] == sectionData[..sectionSize];
      if sectionSize > 0 {
        status := FlushFor(pixel);
        if status != Done {
          return;
        }
      } else {
        EmittedQuiet(out.content, head, pixels, pixel);
      }
      sectionSize := 2;
      Store(0, pixel);
      isCommonSection := true;
      pixels := pixels + [pixel];
      status := Done;
    }

    /** Any other pixel joins the literal section, or opens a new one when the section is full. */
    method AfterLiteral(pixel: word) returns (status: Status)
      requires Coding() && !isCommonSection && (sectionSize > 0 ==> pixel != sectionData[sectionSize - 1])
      modifies this`isCommonSection, this`sectionSize, this`pixels, sectionData
      modifies out`currentNode, out`ticket, out`urbBuffer, out`encodedPos, out`packetPos
      modifies out`bundle, out`submitted, out`content, out.dev, out.dev.buffers
      ensures status == Done ==> Coding() && pixels == old(pixels) + [pixel]
      ensures out.Owning() && out.Behind() && OnTheWay(out.content, head, old(pixels) + [pixel])
      ensures out.bundle.was == old(out.bundle.was) && out.bundle.hi == old(out.bundle.hi)
      ensures status == OffBundle ==> out.Full()
      ensures out.dev.refused == old(out.dev.refused) + if status == Failed then 1 else 0
      ensures status == Failed ==> out.Unsent()
    {
      hide Device.Valid, Bundle.Intact, Streaming, EncodingContext.Encoding, EncodingContext.Owning, EncodingContext.Full,
           EncodingContext.Unsent, Scan, Emitted, OnTheWay, Closed, EncodingContext.Behind;
      ScanAppend(Kernel, pixels, pixel);
      OnTheWayNext(out.content, head, pixels, pixel);
      out.StillOwning();
      if sectionSize == SIZE_BIT + 1 {
        status := FlushFor(pixel);
        if status != Done {
          return;
        }
      } else {
        EmittedQuiet(out.content, head, pixels, pixel);
      }
      Store(sectionSize, pixel);
      sectionSize := sectionSize + 1;
      pixels := pixels + [pixel];
      status := Done;
    }

    method Store(at: nat, pixel: word)
      requires Apart() && out.Encoding() && at < sectionData.Length
      modifies sectionData
      ensures out.Encoding() && sectionData[..at + 1] == old(sectionData[..at]) + [pixel]
    {
      hide EncodingContext.Encoding;
      sectionData[at] := pixel;
    }
  }
}
