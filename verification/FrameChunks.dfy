/** The Windows display driver's frames on their way to the USB transport driver: conversion to RGB565, cutting into chunks,
    sending with retries, and the receiver's checks and statistics. */
module FrameChunks {
  import opened Bytes
  import opened Packets

  const CHUNK_HEADER := 32                            // sizeof(RPUSB_CHUNK_HEADER): eight 32-bit words
  const CHUNK_SIZE := 16 * 1024
  const CHUNK_DATA := CHUNK_SIZE - CHUNK_HEADER
  const MAX_FRAME_SIZE := 800 * 480 * 2
  const MAX_CHUNKS := (MAX_FRAME_SIZE + CHUNK_SIZE - 1) / CHUNK_SIZE

  datatype Frame = Frame(id: nat, width: nat, height: nat, payload: seq<byte>) {
    predicate Good() {
      width > 0 && height > 0 && |payload| == 2 * (width * height)
    }
  }

  /** RPUSB_CHUNK_HEADER and what follows it. */
  datatype Chunk = Chunk(frameId: nat, index: nat, total: nat, bytes: nat, width: nat, height: nat, totalBytes: nat,
                         data: seq<byte>)

  function TotalChunks(n: nat): nat {
    (n + CHUNK_DATA - 1) / CHUNK_DATA
  }

  /** Where chunk i ends in the payload. */
  function EndOf(n: nat, i: nat): nat
    requires i < TotalChunks(n)
  {
    if n - i * CHUNK_DATA < CHUNK_DATA then n else (i + 1) * CHUNK_DATA
  }

  lemma ChunkBounds(n: nat, i: nat)
    requires i < TotalChunks(n)
    ensures i * CHUNK_DATA < EndOf(n, i) <= n && EndOf(n, i) - i * CHUNK_DATA <= CHUNK_DATA
    ensures i + 1 == TotalChunks(n) <==> EndOf(n, i) == n
    ensures i + 1 < TotalChunks(n) ==> EndOf(n, i) == (i + 1) * CHUNK_DATA
  {
  }

  function ChunkOf(f: Frame, i: nat): Chunk
    requires i < TotalChunks(|f.payload|)
  {
    ChunkBounds(|f.payload|, i);
    var data := f.payload[i * CHUNK_DATA..EndOf(|f.payload|, i)];
    Chunk(f.id, i, TotalChunks(|f.payload|), |data|, f.width, f.height, |f.payload|, data)
  }

  /** The receiver's parameter checks. */
  predicate Accepts(c: Chunk) {
    !(c.bytes == 0 || c.total == 0 || c.index >= c.total)
  }

  lemma ChunkAccepted(f: Frame, i: nat)
    requires i < TotalChunks(|f.payload|)
    ensures var c := ChunkOf(f, i);
            && c.totalBytes == |f.payload|
            && Accepts(c) && c.bytes == |c.data| && CHUNK_HEADER + c.bytes <= CHUNK_SIZE
            && (IsLast(c) <==> i + 1 == TotalChunks(|f.payload|))
  {
    ChunkBounds(|f.payload|, i);
  }

  /** The number of chunks is within the protocol's limit for every payload of at most 47 times what a chunk carries, which
      takes in every frame of the largest size. */
  lemma ChunkLimitIff(n: nat)
    ensures TotalChunks(n) <= MAX_CHUNKS <==> n <= 768544
    ensures MAX_CHUNKS == 47 && MAX_FRAME_SIZE <= 768544
  {
  }

  predicate IsLast(c: Chunk) {
    c.index == c.total - 1
  }

  /** The first k chunks of a frame. */
  function ChunkList(f: Frame, k: nat): (r: seq<Chunk>)
    requires k <= TotalChunks(|f.payload|)
    ensures |r| == k
  {
    if k == 0 then [] else ChunkList(f, k - 1) + [ChunkOf(f, k - 1)]
  }

  /** What a run of accepted chunks carries. */
  function Joined(cs: seq<Chunk>): seq<byte> {
    if cs == [] then [] else Joined(cs[..|cs| - 1]) + cs[|cs| - 1].data
  }

  /** How much of a payload of n octets its first k chunks hold. */
  function Sent(n: nat, k: nat): (r: nat)
    requires k <= TotalChunks(n)
    ensures r <= n && (k == TotalChunks(n) ==> r == n) && (k < TotalChunks(n) ==> r == k * CHUNK_DATA)
  {
    if k == 0 then 0 else ChunkBounds(n, k - 1); EndOf(n, k - 1)
  }

  /** The chunks of a frame in order are its payload. */
  lemma {:induction false} ChunksJoin(f: Frame, k: nat)
    requires k <= TotalChunks(|f.payload|)
    ensures Joined(ChunkList(f, k)) == f.payload[..Sent(|f.payload|, k)]
  {
    if k > 0 {
      hide TotalChunks, EndOf, Joined, Sent, ChunkOf;
      ChunksJoin(f, k - 1);
      SentMore(f, k);
      JoinedMore(ChunkList(f, k - 1), ChunkOf(f, k - 1));
    } else {
      NothingJoined(f);
    }
  }

  lemma SentMore(f: Frame, k: nat)
    requires 0 < k <= TotalChunks(|f.payload|)
    ensures f.payload[..Sent(|f.payload|, k)] == f.payload[..Sent(|f.payload|, k - 1)] + ChunkOf(f, k - 1).data
  {
    hide TotalChunks;
    ChunkBounds(|f.payload|, k - 1);
  }

  lemma NothingJoined(f: Frame)
    ensures Joined(ChunkList(f, 0)) == f.payload[..Sent(|f.payload|, 0)]
  {
  }

  lemma JoinedMore(cs: seq<Chunk>, c: Chunk)
    ensures Joined(cs + [c]) == Joined(cs) + c.data
  {
    assert (cs + [c])[..|cs|] == cs;
  }

  // ---------------------------------------------------------------- putting a frame together again

  /** The labels of the chunks of a frame. */
  lemma {:induction false} ChunkLabels(f: Frame, k: nat, j: nat)
    requires j < k <= TotalChunks(|f.payload|)
    ensures var c := ChunkList(f, k)[j];
            && c.index == j && c.total == TotalChunks(|f.payload|) && c.totalBytes == |f.payload|
            && c.frameId == f.id && c.width == f.width && c.height == f.height && c == ChunkOf(f, j)
  {
    if j < k - 1 {
      ChunkLabels(f, k - 1, j);
    }
  }

  /** A chunk's data goes where its index says. */
  function Placed(buffer: seq<byte>, c: Chunk): (r: seq<byte>)
    ensures |r| == |buffer|
  {
    var at := c.index * CHUNK_DATA;
    if at + |c.data| <= |buffer| then buffer[..at] + c.data + buffer[at + |c.data|..] else buffer
  }

  function PlaceAll(buffer: seq<byte>, cs: seq<Chunk>): (r: seq<byte>)
    ensures |r| == |buffer|
  {
    if cs == [] then buffer else Placed(PlaceAll(buffer, cs[..|cs| - 1]), cs[|cs| - 1])
  }

  predicate Came(cs: seq<Chunk>, i: nat) {
    exists k :: 0 <= k < |cs| && cs[k].index == i
  }

  /** All the indices that the first chunk announces have come. */
  predicate AllHere(cs: seq<Chunk>)
    requires cs != []
  {
    forall i :: 0 <= i < cs[0].total ==> Came(cs, i)
  }

  /** What a receiver makes of chunks from their headers and data alone, in whatever order and however often they come. */
  function Rebuilt(cs: seq<Chunk>): Option<Frame> {
    if cs == [] || !AllHere(cs) then None
    else Some(Frame(cs[0].frameId, cs[0].width, cs[0].height, PlaceAll(seq(cs[0].totalBytes, _ => 0), cs)))
  }

  /** Every one is a chunk of the frame. */
  ghost predicate ChunksOf(f: Frame, cs: seq<Chunk>) {
    forall k :: 0 <= k < |cs| ==> cs[k].index < TotalChunks(|f.payload|) && cs[k] == ChunkOf(f, cs[k].index)
  }

  /** What chunk i has brought is in its place. */
  ghost predicate HasChunk(f: Frame, buffer: seq<byte>, i: nat)
    requires i < TotalChunks(|f.payload|) && |buffer| == |f.payload|
  {
    ChunkBounds(|f.payload|, i);
    forall p :: i * CHUNK_DATA <= p < EndOf(|f.payload|, i) ==> buffer[p] == f.payload[p]
  }

  lemma PlacedKeeps(f: Frame, buffer: seq<byte>, i: nat, j: nat)
    requires i < TotalChunks(|f.payload|) && j < TotalChunks(|f.payload|) && |buffer| == |f.payload|
    ensures HasChunk(f, Placed(buffer, ChunkOf(f, i)), i)
    ensures HasChunk(f, buffer, j) ==> HasChunk(f, Placed(buffer, ChunkOf(f, i)), j)
  {
    hide TotalChunks, EndOf;
    ChunkBounds(|f.payload|, i);
    ChunkBounds(|f.payload|, j);
  }

  lemma {:induction false} PlacedAll(f: Frame, buffer: seq<byte>, cs: seq<Chunk>, k: nat)
    requires ChunksOf(f, cs) && |buffer| == |f.payload| && k < |cs|
    ensures HasChunk(f, PlaceAll(buffer, cs), cs[k].index)
  {
    hide TotalChunks, ChunkOf, HasChunk, Placed;
    var n := |cs| - 1;
    var before := PlaceAll(buffer, cs[..n]);
    if k < n {
      PlacedAll(f, buffer, cs[..n], k);
    }
    PlacedKeeps(f, before, cs[n].index, cs[k].index);
  }

  /** Each octet belongs to a chunk. */
  lemma Covered(f: Frame, buffer: seq<byte>, p: nat)
    requires |buffer| == |f.payload| && p < |buffer|
    requires forall i :: 0 <= i < TotalChunks(|f.payload|) ==> HasChunk(f, buffer, i)
    ensures buffer[p] == f.payload[p]
  {
    var i := p / CHUNK_DATA;
    assert i < TotalChunks(|f.payload|);
    ChunkBounds(|f.payload|, i);
    assert HasChunk(f, buffer, i);
  }

  /** A receiver that gets chunks of a frame, and at least one, has the frame if and only if it has got every chunk. */
  lemma RebuiltIff(f: Frame, cs: seq<Chunk>)
    requires f.payload != [] && ChunksOf(f, cs)
    ensures Rebuilt(cs) == Some(f) <==> forall i :: 0 <= i < TotalChunks(|f.payload|) ==> ChunkOf(f, i) in cs
    ensures Rebuilt(cs) != Some(f) ==> Rebuilt(cs) == None
  {
    if cs != [] && AllHere(cs) {
      HeaderOf(f, cs[0].index);
      var buffer := seq(|f.payload|, _ => 0);
      forall i | 0 <= i < TotalChunks(|f.payload|)
        ensures ChunkOf(f, i) in cs && HasChunk(f, PlaceAll(buffer, cs), i)
      {
        assert Came(cs, i);
        var k :| 0 <= k < |cs| && cs[k].index == i;
        PlacedAll(f, buffer, cs, k);
      }
      forall p | 0 <= p < |f.payload|
        ensures PlaceAll(buffer, cs)[p] == f.payload[p]
      {
        Covered(f, PlaceAll(buffer, cs), p);
      }
      assert PlaceAll(buffer, cs) == f.payload;
    } else {
      NotAllHere(f, cs);
    }
  }

  lemma HeaderOf(f: Frame, i: nat)
    requires i < TotalChunks(|f.payload|)
    ensures var c := ChunkOf(f, i);
            && c.frameId == f.id && c.width == f.width && c.height == f.height && c.index == i
            && c.total == TotalChunks(|f.payload|) && c.totalBytes == |f.payload|
  {
  }

  lemma NotAllHere(f: Frame, cs: seq<Chunk>)
    requires f.payload != [] && ChunksOf(f, cs) && (cs == [] || !AllHere(cs))
    ensures exists i :: 0 <= i < TotalChunks(|f.payload|) && ChunkOf(f, i) !in cs
  {
    if cs == [] {
      assert ChunkOf(f, 0) !in cs;
    } else {
      HeaderOf(f, cs[0].index);
      var i :| 0 <= i < cs[0].total && !Came(cs, i);
      HeaderOf(f, i);
      assert ChunkOf(f, i) !in cs;
    }
  }

  // ---------------------------------------------------------------- counting

  function FramesIn(cs: seq<Chunk>): nat {
    if cs == [] then 0 else FramesIn(cs[..|cs| - 1]) + if IsLast(cs[|cs| - 1]) then 1 else 0
  }

  function BytesIn(cs: seq<Chunk>): nat {
    if cs == [] then 0 else BytesIn(cs[..|cs| - 1]) + if IsLast(cs[|cs| - 1]) then cs[|cs| - 1].totalBytes else 0
  }

  lemma CountMore(cs: seq<Chunk>, c: Chunk)
    ensures FramesIn(cs + [c]) == FramesIn(cs) + if IsLast(c) then 1 else 0
    ensures BytesIn(cs + [c]) == BytesIn(cs) + if IsLast(c) then c.totalBytes else 0
  {
    assert (cs + [c])[..|cs|] == cs;
  }

  lemma {:induction false} Uncounted(f: Frame, k: nat)
    requires k <= TotalChunks(|f.payload|)
    ensures var counts := k == TotalChunks(|f.payload|) && k > 0;
            && FramesIn(ChunkList(f, k)) == (if counts then 1 else 0)
            && BytesIn(ChunkList(f, k)) == if counts then |f.payload| else 0
  {
    hide TotalChunks, EndOf, ChunkOf, IsLast, FramesIn, BytesIn;
    NothingCounted();
    if k > 0 {
      Uncounted(f, k - 1);
      ChunkAccepted(f, k - 1);
      CountMore(ChunkList(f, k - 1), ChunkOf(f, k - 1));
    }
  }

  lemma NothingCounted()
    ensures FramesIn([]) == 0 && BytesIn([]) == 0
  {
  }

  lemma PayloadsMore(fs: seq<Frame>, f: Frame)
    ensures Payloads(fs + [f]) == Payloads(fs) + |f.payload|
  {
    assert (fs + [f])[..|fs|] == fs;
  }

  function Payloads(fs: seq<Frame>): nat {
    if fs == [] then 0 else Payloads(fs[..|fs| - 1]) + |fs[|fs| - 1].payload|
  }

  // ---------------------------------------------------------------- receiver

  class Transport {
    var framesSubmitted: nat
    var bytesTransferred: nat
    ghost var accepted: seq<Chunk>

    constructor ()
      ensures Valid() && accepted == []
    {
      framesSubmitted, bytesTransferred, accepted := 0, 0, [];
    }

    ghost predicate Valid()
      reads this
    {
      framesSubmitted == FramesIn(accepted) && bytesTransferred == BytesIn(accepted)
    }

    /** IOCTL_RPUSB_PUSH_FRAME_CHUNK; `written` is the bulk pipe's result. */
    method PushFrameChunk(c: Chunk, written: bool) returns (ok: bool)
      requires Valid()
      modifies this
      ensures Valid()
      ensures ok <==> Accepts(c) && written
      ensures accepted == if ok then old(accepted) + [c] else old(accepted)
    {
      if c.bytes == 0 || c.total == 0 || c.index >= c.total {
        return false;
      }
      if !written {
        return false;
      }
      CountMore(accepted, c);
      if c.index == c.total - 1 {
        framesSubmitted := framesSubmitted + 1;
        bytesTransferred := bytesTransferred + c.totalBytes;
      }
      accepted := accepted + [c];
      return true;
    }
  }

  // ---------------------------------------------------------------- conversion

  /** The top five, six and five bits of red, green and blue. */
  function Rgb565(b: byte, g: byte, r: byte): word {
    (r / 8) * 0x800 + (g / 4) * 0x20 + b / 8
  }

  /** Nothing else of the colour is kept, and nothing of it mixed up. */
  lemma Rgb565Fields(b: byte, g: byte, r: byte)
    ensures var w := Rgb565(b, g, r); w / 0x800 == r / 8 && w / 0x20 % 0x40 == g / 4 && w % 0x20 == b / 8
  {
    var red, green, blue := r / 8, g / 4, b / 8;
    DivModUnique(Rgb565(b, g, r), 0x800, red, green * 0x20 + blue);
    DivModUnique(Rgb565(b, g, r), 0x20, red * 0x40 + green, blue);
    DivModUnique(red * 0x40 + green, 0x40, red, green);
  }

  /** Pixel (x, row) of a surface whose rows are `pitch` octets apart, in BGRA order. */
  function PixelAt(bits: seq<byte>, pitch: nat, x: nat, row: nat): word
    requires row * pitch + 4 * x + 4 <= |bits|
  {
    var at := row * pitch + 4 * x;
    Rgb565(bits[at], bits[at + 1], bits[at + 2])
  }

  /** The surface holds all rows. */
  predicate Mapped(bits: seq<byte>, pitch: nat, width: nat, height: nat) {
    4 * width <= pitch && height * pitch <= |bits|
  }

  lemma RowMapped(bits: seq<byte>, pitch: nat, width: nat, height: nat, row: nat)
    requires Mapped(bits, pitch, width, height) && row < height
    ensures row * pitch + 4 * width <= |bits|
    ensures row * width + width <= width * height && (row + 1) * width == row * width + width
  {
    MulGap(row, height, pitch);
    MulGap(row, height, width);
    Distribute(row, width);
  }

  /** ConvertBgraToRgb565 for one row. */
  method ConvertRow(bits: seq<byte>, src: nat, width: nat, dst: array<word>, at: nat)
    requires src + 4 * width <= |bits| && at + width <= dst.Length
    modifies dst
    ensures forall x :: 0 <= x < width ==>
              dst[at + x] == Rgb565(bits[src + 4 * x], bits[src + 4 * x + 1], bits[src + 4 * x + 2])
    ensures forall k :: 0 <= k < dst.Length && !(at <= k < at + width) ==> dst[k] == old(dst[k])
  {
    for x := 0 to width
      invariant forall y :: 0 <= y < x ==>
                  dst[at + y] == Rgb565(bits[src + 4 * y], bits[src + 4 * y + 1], bits[src + 4 * y + 2])
      invariant forall k :: 0 <= k < dst.Length && !(at <= k < at + x) ==> dst[k] == old(dst[k])
    {
      var pixel := src + 4 * x;
      dst[at + x] := Rgb565(bits[pixel], bits[pixel + 1], bits[pixel + 2]);
    }
  }

  /** The pixels of row `row` are where they belong. */
  ghost predicate RowDone(pixels: seq<word>, bits: seq<byte>, pitch: nat, width: nat, row: nat)
    requires row * pitch + 4 * width <= |bits| && row * width + width <= |pixels|
  {
    forall x :: 0 <= x < width ==> pixels[row * width + x] == PixelAt(bits, pitch, x, row)
  }

  ghost predicate RowsDone(pixels: seq<word>, bits: seq<byte>, pitch: nat, width: nat, height: nat, rows: nat)
    requires Mapped(bits, pitch, width, height) && rows <= height && |pixels| == width * height
  {
    forall row :: 0 <= row < rows ==>
      (RowMapped(bits, pitch, width, height, row); RowDone(pixels, bits, pitch, width, row))
  }

  method ConvertFrame(bits: seq<byte>, pitch: nat, width: nat, height: nat) returns (pixels: array<word>)
    requires Mapped(bits, pitch, width, height)
    ensures pixels.Length == width * height && RowsDone(pixels[..], bits, pitch, width, height, height)
  {
    pixels := new word[width * height];
    var row := 0;
    while row < height
      invariant 0 <= row <= height && RowsDone(pixels[..], bits, pitch, width, height, row)
    {
      RowMapped(bits, pitch, width, height, row);
      ghost var before := pixels[..];
      ConvertRow(bits, row * pitch, width, pixels, row * width);
      RowAdded(before, pixels[..], bits, pitch, width, height, row);
      row := row + 1;
    }
  }

  /** A row that was done stays done when another below it is written. */
  lemma RowKept(before: seq<word>, after: seq<word>, bits: seq<byte>, pitch: nat, width: nat, r: nat, row: nat)
    requires r < row && |before| == |after| && r * pitch + 4 * width <= |bits| && row * width <= |after|
    requires r * width + width <= |before| && RowDone(before, bits, pitch, width, r)
    requires forall k :: 0 <= k < row * width ==> after[k] == before[k]
    ensures RowDone(after, bits, pitch, width, r)
  {
    MulGap(r, row, width);
  }

  lemma RowAdded(before: seq<word>, after: seq<word>, bits: seq<byte>, pitch: nat, width: nat, height: nat, row: nat)
    requires Mapped(bits, pitch, width, height) && row < height && |before| == |after| == width * height
    requires row * pitch + 4 * width <= |bits| && row * width + width <= |after|
    requires RowsDone(before, bits, pitch, width, height, row) && RowDone(after, bits, pitch, width, row)
    requires forall k :: 0 <= k < |after| && !(row * width <= k < row * width + width) ==> after[k] == before[k]
    ensures RowsDone(after, bits, pitch, width, height, row + 1)
  {
    forall r | 0 <= r < row + 1
      ensures (RowMapped(bits, pitch, width, height, r); RowDone(after, bits, pitch, width, r))
    {
      RowMapped(bits, pitch, width, height, r);
      hide RowDone;
      if r < row {
        RowKept(before, after, bits, pitch, width, r, row);
      }
    }
  }

  // ---------------------------------------------------------------- sender

  const MAX_RETRIES := 3
  const INITIAL_RETRY_DELAY := 100
  const MAX_RETRY_DELAY := 2000

  /** The waits between attempts, in milliseconds. */
  function Backoff(n: nat): (r: seq<nat>)
    ensures |r| == n
  {
    if n == 0 then [] else Backoff(n - 1) + [DelayBefore(n)]
  }

  function DelayBefore(n: nat): nat
    requires n > 0
  {
    if n == 1 then INITIAL_RETRY_DELAY
    else if DelayBefore(n - 1) * 2 < MAX_RETRY_DELAY then DelayBefore(n - 1) * 2 else MAX_RETRY_DELAY
  }

  /** How a request fares: the sender hears that it was written, or it does not arrive, or the pipe refuses it, or it is
      written and the sender hears of a failure. */
  datatype Fate = Heard | NotArrived | NotWritten | Unheard

  /** What the world does at one tick: whether the transport can be opened, and how a request fares. */
  datatype Answer = Answer(opens: bool, fate: Fate)

  class Pipeline {
    const transport: Transport
    const world: nat -> Answer
    var clock: nat                     // ticks with every look at the transport
    var targetOpen: bool
    var frameCounter: nat
    ghost var delivered: seq<Frame>    // frames all of whose chunks were reported as sent
    ghost var unheard: seq<Chunk>      // chunks accepted though the sender was told otherwise
    ghost var waits: seq<nat>          // delays of the last send

    constructor (transport: Transport, world: nat -> Answer)
      requires transport.Valid() && transport.accepted == []
      ensures this.transport == transport && this.world == world && Valid() && delivered == []
    {
      this.transport, this.world := transport, world;
      clock, targetOpen, frameCounter := 0, false, 0;
      delivered, unheard, waits := [], [], [];
    }

    /** The sender always sees the transport's own results. */
    ghost predicate Honest() {
      forall n :: world(n).fate != Unheard
    }

    /** A try at tick n reaches the transport, is written, and the sender hears of it. */
    predicate Works(n: nat, open: bool) {
      (open || world(n).opens) && world(n).fate == Heard
    }

    /** The i-th try of a send that begins at a tick: after a failed one the target is closed. */
    predicate TryWorks(start: nat, open: bool, i: nat) {
      Works(start + i, i == 0 && open)
    }

    /** The statistics are those of the delivered frames, and of the last chunks accepted unheard. */
    ghost predicate Valid()
      reads this`unheard, this`delivered, transport
    {
      && transport.Valid() && (Honest() ==> unheard == [])
      && transport.framesSubmitted == |delivered| + FramesIn(unheard)
      && transport.bytesTransferred == Payloads(delivered) + BytesIn(unheard)
    }

    /** The account when `extra` chunks of the current frame are in. */
    ghost predicate Counting(extra: seq<Chunk>)
      reads this`unheard, this`delivered, transport
    {
      && transport.Valid() && (Honest() ==> unheard == [])
      && FramesIn(transport.accepted) == |delivered| + FramesIn(unheard) + FramesIn(extra)
      && BytesIn(transport.accepted) == Payloads(delivered) + BytesIn(unheard) + BytesIn(extra)
    }

    lemma Outset(f: Frame)
      requires Valid() && f.Good()
      ensures Counting(ChunkList(f, 0)) && ChunkList(f, 0) == [] && TotalChunks(|f.payload|) > 0
    {
    }

    lemma NextChunk(f: Frame, k: nat)
      requires k < TotalChunks(|f.payload|)
      ensures Accepts(ChunkOf(f, k)) && ChunkList(f, k + 1) == ChunkList(f, k) + [ChunkOf(f, k)]
    {
      ChunkAccepted(f, k);
    }

    /** Only the last chunk of a frame counts. */
    lemma Incomplete(f: Frame, k: nat)
      requires k < TotalChunks(|f.payload|) && Counting(ChunkList(f, k))
      ensures Valid()
    {
      Uncounted(f, k);
    }

    /** All chunks of a frame are in. */
    ghost method Deliver(f: Frame)
      requires Counting(ChunkList(f, TotalChunks(|f.payload|))) && f.payload != []
      modifies this`delivered
      ensures Valid() && delivered == old(delivered) + [f]
    {
      Uncounted(f, TotalChunks(|f.payload|));
      PayloadsMore(delivered, f);
      hide FramesIn, BytesIn, Payloads, ChunkList;
      delivered := delivered + [f];
    }

    /** EnsureTransportTarget: a target that is not open is opened, if that works at this moment. */
    method EnsureTransportTarget() returns (ok: bool)
      modifies this`targetOpen, this`clock
      ensures ok == targetOpen == (old(targetOpen) || world(old(clock)).opens) && clock == old(clock) + 1
    {
      if !targetOpen {
        targetOpen := world(clock).opens;
      }
      clock := clock + 1;
      ok := targetOpen;
    }

    /** One attempt: the request may fail on its way, at the receiver, or on the way back. */
    method Attempt(c: Chunk, fate: Fate, ghost extra: seq<Chunk>) returns (ok: bool)
      requires Counting(extra) && Accepts(c) && (fate == Unheard ==> !Honest())
      modifies this`unheard, transport
      ensures ok <==> fate == Heard
      ensures ok ==> Counting(extra + [c])
      ensures !ok ==> Counting(extra)
      ensures transport.accepted == old(transport.accepted) + if fate == Heard || fate == Unheard then [c] else []
    {
      hide FramesIn, BytesIn, Payloads;
      if fate == NotArrived {
        return false;
      }
      CountMore(transport.accepted, c);
      CountMore(extra, c);
      CountMore(unheard, c);
      ok := transport.PushFrameChunk(c, fate != NotWritten);
      if fate == Unheard {
        unheard := unheard + [c];
        ok := false;
      }
    }

    /** Nothing but this chunk has been accepted since, and it has been if `sent`; by an honest transport just once. */
    ghost predicate Only(before: seq<Chunk>, now: seq<Chunk>, c: Chunk, sent: bool) {
      && before <= now && (sent ==> |now| > |before|)
      && (Honest() ==> |now| == |before| + if sent then 1 else 0)
      && forall i :: |before| <= i < |now| ==> now[i] == c
    }

    lemma OnlyNone(before: seq<Chunk>, c: Chunk)
      ensures Only(before, before, c, false)
    {
    }

    lemma OnlyMore(before: seq<Chunk>, mid: seq<Chunk>, c: Chunk, fate: Fate)
      requires Only(before, mid, c, false) && (fate == Unheard ==> !Honest())
      ensures Only(before, mid + if fate == Heard || fate == Unheard then [c] else [], c, fate == Heard)
    {
    }

    /** SendIoctlWithRetry: at most four attempts, with waits that double; it succeeds with the first that works. */
    method SendIoctlWithRetry(c: Chunk, ghost extra: seq<Chunk>) returns (ok: bool)
      requires Counting(extra) && Accepts(c)
      modifies this`targetOpen, this`clock, this`unheard, this`waits, transport
      ensures if ok then Counting(extra + [c]) else Counting(extra)
      ensures Only(old(transport.accepted), transport.accepted, c, ok)
      ensures |waits| <= MAX_RETRIES && waits == Backoff(|waits|) && clock == old(clock) + |waits| + 1
      ensures forall i :: 0 <= i < |waits| ==> !TryWorks(old(clock), old(targetOpen), i)
      ensures ok <==> TryWorks(old(clock), old(targetOpen), |waits|)
      ensures !ok ==> |waits| == MAX_RETRIES && GaveUp()
    {
      hide Counting, Accepts, Only, GaveUp;
      OnlyNone(transport.accepted, c);
      var retryDelay := INITIAL_RETRY_DELAY;
      waits := [];
      var retry := 0;
      while retry <= MAX_RETRIES
        invariant 0 <= retry <= MAX_RETRIES + 1 && clock == old(clock) + retry
        invariant Counting(extra) && Only(old(transport.accepted), transport.accepted, c, false)
        invariant |waits| == if retry <= MAX_RETRIES then retry else MAX_RETRIES
        invariant waits == Backoff(|waits|) && retryDelay == DelayBefore(|waits| + 1)
        invariant targetOpen == (retry == 0 && old(targetOpen))
        invariant forall i :: 0 <= i < retry ==> !TryWorks(old(clock), old(targetOpen), i)
      {
        var fate := world(clock).fate;
        var open := EnsureTransportTarget();
        if open {
          OnlyMore(old(transport.accepted), transport.accepted, c, fate);
          ok := Attempt(c, fate, extra);
          if ok {
            return;
          }
          targetOpen := false;
        } else if retry == MAX_RETRIES {
          FailedTries(old(clock), old(targetOpen));
          return false;
        }
        if retry < MAX_RETRIES {
          waits := waits + [retryDelay];
          retryDelay := if retryDelay * 2 < MAX_RETRY_DELAY then retryDelay * 2 else MAX_RETRY_DELAY;
        }
        retry := retry + 1;
      }
      FailedTries(old(clock), old(targetOpen));
      return false;
    }

    /** What has been accepted since are chunks of the frame, the first k among them; for an honest transport those and no
        others, each once and in order. */
    ghost predicate Arrived(before: seq<Chunk>, f: Frame, k: nat)
      requires k <= TotalChunks(|f.payload|)
      reads transport
    {
      && before <= transport.accepted && ChunksOf(f, transport.accepted[|before|..])
      && (forall j :: 0 <= j < k ==> ChunkOf(f, j) in transport.accepted[|before|..])
      && (Honest() ==> transport.accepted == before + ChunkList(f, k))
    }

    /** Four tries in a row have come to nothing. */
    ghost predicate GaveUp()
      reads this`clock
    {
      clock > MAX_RETRIES && forall n :: clock - 1 - MAX_RETRIES <= n < clock ==> !Works(n, false)
    }

    lemma FailedTries(before: nat, open: bool)
      requires clock == before + MAX_RETRIES + 1
      requires forall i :: 0 <= i <= MAX_RETRIES ==> !TryWorks(before, open, i)
      ensures GaveUp()
    {
      forall n | before <= n < clock
        ensures !Works(n, false)
      {
        assert !TryWorks(before, open, n - before);
      }
    }

    lemma StillIn(added: seq<Chunk>, grown: seq<Chunk>, c: Chunk)
      requires added <= grown && c in added
      ensures c in grown
    {
      var i :| 0 <= i < |added| && added[i] == c;
      assert grown[i] == c;
    }

    lemma GrownChunks(f: Frame, k: nat, added: seq<Chunk>, grown: seq<Chunk>)
      requires k < TotalChunks(|f.payload|) && added <= grown && ChunksOf(f, added)
      requires forall i :: |added| <= i < |grown| ==> grown[i] == ChunkOf(f, k)
      ensures ChunksOf(f, grown)
    {
      HeaderOf(f, k);
      hide TotalChunks, ChunkOf;
      forall i | 0 <= i < |grown|
        ensures grown[i].index < TotalChunks(|f.payload|) && grown[i] == ChunkOf(f, grown[i].index)
      {
        if i < |added| {
          assert grown[i] == added[i];
        }
      }
    }

    /** One more send of the frame's next chunk. */
    lemma ArrivedMore(before: seq<Chunk>, mid: seq<Chunk>, f: Frame, k: nat, sent: bool)
      requires k < TotalChunks(|f.payload|) && Only(mid, transport.accepted, ChunkOf(f, k), sent)
      requires before <= mid && ChunksOf(f, mid[|before|..])
      requires forall j :: 0 <= j < k ==> ChunkOf(f, j) in mid[|before|..]
      requires Honest() ==> mid == before + ChunkList(f, k)
      ensures sent ==> Arrived(before, f, k + 1)
      ensures !sent ==> Arrived(before, f, k)
    {
      var now := transport.accepted;
      HeaderOf(f, k);
      hide TotalChunks, ChunkOf, ChunkList, Honest;
      var added, grown := mid[|before|..], now[|before|..];
      assert added <= grown && |grown| - |added| == |now| - |mid|;
      GrownChunks(f, k, added, grown);
      if sent {
        assert grown[|added|] == ChunkOf(f, k);
      }
      forall j | 0 <= j < k
        ensures ChunkOf(f, j) in grown
      {
        StillIn(added, grown, ChunkOf(f, j));
      }
    }

    /** What the receiver can make of it. */
    lemma ArrivedRebuilt(before: seq<Chunk>, f: Frame, k: nat)
      requires f.payload != [] && k <= TotalChunks(|f.payload|) && Arrived(before, f, k)
      ensures k == TotalChunks(|f.payload|) ==> Rebuilt(transport.accepted[|before|..]) == Some(f)
      ensures Honest() && k < TotalChunks(|f.payload|) ==> Rebuilt(transport.accepted[|before|..]) == None
    {
      hide TotalChunks, ChunkOf, Rebuilt;
      RebuiltIff(f, transport.accepted[|before|..]);
      if Honest() && k < TotalChunks(|f.payload|) {
        assert transport.accepted[|before|..] == ChunkList(f, k);
        HeaderOf(f, k);
        forall j | 0 <= j < k
          ensures ChunkList(f, k)[j] != ChunkOf(f, k)
        {
          ChunkLabels(f, k, j);
        }
      }
    }

    /** The part of PipelineHandlePresent after the surface is mapped and its pixels converted: the frame is sent chunk by
        chunk until one fails for good. `k` chunks were reported as sent. From headers and data alone a receiver has the
        frame when it is complete, whatever was sent twice. */
    method PresentFrame(width: nat, height: nat, payload: seq<byte>) returns (complete: bool, ghost f: Frame, ghost k: nat)
      requires Valid() && width > 0 && height > 0 && |payload| == 2 * (width * height)
      modifies this, transport
      ensures Valid() && f == Frame(frameCounter, width, height, payload) && frameCounter == old(frameCounter) + 1
      ensures k <= TotalChunks(|payload|) && (complete <==> k == TotalChunks(|payload|))
      ensures delivered == if complete then old(delivered) + [f] else old(delivered)
      ensures Arrived(old(transport.accepted), f, k)
      ensures complete ==> Rebuilt(transport.accepted[|old(transport.accepted)|..]) == Some(f)
      ensures Honest() && !complete ==> Rebuilt(transport.accepted[|old(transport.accepted)|..]) == None
      ensures !complete ==> GaveUp()
    {
      hide Counting, Accepts, TotalChunks, Valid, ChunkList, ChunkOf, Arrived, Only, Rebuilt, GaveUp;
      frameCounter := frameCounter + 1;
      f := Frame(frameCounter, width, height, payload);
      Outset(f);
      ghost var before := transport.accepted;
      NothingArrived(f);
      var totalChunks := TotalChunks(|payload|);
      var chunkIndex := 0;
      k, complete := 0, true;
      while chunkIndex < totalChunks
        invariant 0 <= chunkIndex == k <= totalChunks && f == Frame(frameCounter, width, height, payload)
        invariant frameCounter == old(frameCounter) + 1
        invariant Counting(ChunkList(f, k)) && delivered == old(delivered)
        invariant Arrived(before, f, k)
      {
        var chunk := ChunkOf(Frame(frameCounter, width, height, payload), chunkIndex);
        NextChunk(f, k);
        var sent := SendChunk(chunk, f, k, before);
        if !sent {
          Incomplete(f, k);
          ArrivedRebuilt(before, f, k);
          return false, f, k;
        }
        chunkIndex := chunkIndex + 1;
        k := k + 1;
      }
      Deliver(f);
      ArrivedRebuilt(before, f, k);
    }

    /** One turn of the loop. */
    method SendChunk(chunk: Chunk, ghost f: Frame, ghost k: nat, ghost before: seq<Chunk>) returns (sent: bool)
      requires k < TotalChunks(|f.payload|) && chunk == ChunkOf(f, k) && Accepts(chunk)
      requires ChunkList(f, k + 1) == ChunkList(f, k) + [chunk]
      requires Counting(ChunkList(f, k)) && Arrived(before, f, k)
      modifies this`targetOpen, this`clock, this`unheard, this`waits, transport
      ensures if sent then Counting(ChunkList(f, k + 1)) && Arrived(before, f, k + 1)
              else Counting(ChunkList(f, k)) && Arrived(before, f, k) && GaveUp()
    {
      hide Counting, Accepts, TotalChunks, ChunkList, ChunkOf, Only, GaveUp;
      ghost var mid := transport.accepted;
      sent := SendIoctlWithRetry(chunk, ChunkList(f, k));
      ArrivedMore(before, mid, f, k, sent);
    }

    lemma NothingArrived(f: Frame)
      ensures Arrived(transport.accepted, f, 0)
    {
      assert transport.accepted + [] == transport.accepted;
    }

    /** PipelineHandlePresent: without a transport the frame is dropped, otherwise it is converted and sent. */
    method HandlePresent(bits: seq<byte>, pitch: nat, width: nat, height: nat)
      returns (complete: bool, ghost frame: Option<Frame>, ghost k: nat)
      requires Valid() && width > 0 && height > 0 && Mapped(bits, pitch, width, height)
      modifies this, transport
      ensures Valid()
      ensures frame == None <==> !old(targetOpen) && !world(old(clock)).opens
      ensures frame == None ==> !complete && delivered == old(delivered) && transport.accepted == old(transport.accepted)
      ensures frame.Some? ==> exists pixels: seq<word> ::
                && |pixels| == width * height && RowsDone(pixels, bits, pitch, width, height, height)
                && frame.value == Frame(old(frameCounter) + 1, width, height, WordsToBytes(pixels))
      ensures frame.Some? ==>
                && delivered == (if complete then old(delivered) + [frame.value] else old(delivered))
                && k <= TotalChunks(|frame.value.payload|) && (complete <==> k == TotalChunks(|frame.value.payload|))
                && Arrived(old(transport.accepted), frame.value, k)
      ensures complete ==> Rebuilt(transport.accepted[|old(transport.accepted)|..]) == frame
      ensures frame.Some? && !complete ==> GaveUp()
    {
      hide Valid, TotalChunks, ChunkList, RowsDone, Arrived, Rebuilt, GaveUp;
      var open := EnsureTransportTarget();
      if !open {
        return false, None, 0;
      }
      var pixels := ConvertFrame(bits, pitch, width, height);
      MulGap(0, width, height);
      ghost var f;
      complete, f, k := PresentFrame(width, height, WordsToBytes(pixels[..]));
      frame := Some(f);
    }
  }
}
