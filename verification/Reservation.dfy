/** How many tickets _bitblt_encoder_init reserves, and when that is enough. */
module Reservation {
  import opened Packets

  const HEADER_REST := 9             // the bitblt header without its command octet
  const MAX_TICKETS := 10            // RPUSBDISP_MAX_TRANSFER_TICKETS_COUNT

  /** The worst-case content of an image of `imageSize` octets. */
  function WorstContent(imageSize: nat, rleMode: bool): nat {
    HEADER_REST + imageSize + if rleMode then (imageSize / 2 + 0x7f) / 0x80 else 0
  }

  function CeilDiv(n: nat, m: nat): nat
    requires m > 0
  {
    (n + m - 1) / m
  }

  /** Tickets for `content` octets of command content. */
  function Required(content: nat, size: nat, factor: nat): nat
    requires size > 1 && factor > 0
  {
    CeilDiv(CeilDiv(content, size - 1), factor)
  }

  lemma CeilDivBounds(n: nat, m: nat)
    requires m > 0
    ensures n <= CeilDiv(n, m) * m < n + m
  {
    var q := (n + m - 1) / m;
    assert n + m - 1 == q * m + (n + m - 1) % m;
  }

  /** Capacity in content octets of `tickets` URBs. */
  function Capacity(tickets: nat, size: nat, factor: nat): nat
    requires size > 1
  {
    tickets * (factor * (size - 1))
  }

  /** URBs that so much content fills to the last octet. */
  function FullUrbs(content: nat, size: nat, factor: nat): nat
    requires size > 1 && factor > 0
  {
    MulGap(0, factor, size - 1);
    content / (factor * (size - 1))
  }

  lemma FullUrbsUnique(content: nat, urbs: nat, size: nat, factor: nat)
    requires size > 1 && factor > 0 && Capacity(urbs, size, factor) <= content < Capacity(urbs + 1, size, factor)
    ensures FullUrbs(content, size, factor) == urbs
  {
    var unit := factor * (size - 1);
    MulGap(0, factor, size - 1);
    Distribute(urbs, unit);
    DivModUnique(content, unit, urbs, content - urbs * unit);
  }

  lemma FullUrbsAtLeast(content: nat, urbs: nat, size: nat, factor: nat)
    requires size > 1 && factor > 0 && Capacity(urbs, size, factor) <= content
    ensures urbs <= FullUrbs(content, size, factor)
  {
    var unit, q := factor * (size - 1), FullUrbs(content, size, factor);
    MulGap(0, factor, size - 1);
    assert content < (q + 1) * unit;
    MulGap(q + 1, urbs, unit);
    Distribute(q, unit);
  }

  /** The reservation holds the content, and one ticket less would not. */
  lemma RequiredIsLeast(content: nat, size: nat, factor: nat)
    requires size > 1 && factor > 0 && content > 0
    ensures Required(content, size, factor) > 0
    ensures Capacity(Required(content, size, factor) - 1, size, factor) < content
    ensures content <= Capacity(Required(content, size, factor), size, factor)
  {
    var packets, room := CeilDiv(content, size - 1), size - 1;
    var t := Required(content, size, factor);
    CeilDivBounds(content, room);
    CeilDivBounds(packets, factor);
    MulGap(t * factor, packets, room);
    MulGap(packets, t * factor, room);
    MulAssoc(t, factor, room);
    Distribute(t - 1, factor);
    MulAssoc(t - 1, factor, room);
    MulGap((t - 1) * factor, packets - 1, room);
    Distribute(packets - 1, room);
  }

  lemma RequiredSome(content: nat, size: nat, factor: nat)
    requires size > 1 && factor > 0 && content > 0
    ensures Required(content, size, factor) > 0
  {
    RequiredIsLeast(content, size, factor);
  }

  /** Filling the reserved URBs to the last octet is possible exactly when the reserved content is a multiple of
      what a URB carries. */
  lemma ExactFillIff(content: nat, size: nat, factor: nat)
    requires size > 1 && factor > 0 && content > 0
    ensures content == Capacity(Required(content, size, factor), size, factor) <==> content % (factor * (size - 1)) == 0
  {
    RequiredIsLeast(content, size, factor);
    var unit, t := factor * (size - 1), Required(content, size, factor);
    MulGap(0, factor, size - 1);
    if content % unit == 0 {
      var q := content / unit;
      assert content == q * unit;
      MulGap(q, t, unit);
      MulGap(t, q, unit);
      MulGap(t - 1, q, unit);
      MulGap(q, t - 1, unit);
    } else if content == t * unit {
      DivModUnique(content, unit, t, 0);
    }
  }

  const TRANSFER_SIZE := 4096 * 16 - 512   // RPUSBDISP_MAX_TRANSFER_SIZE with 4096-octet pages

  /** packet_size_factor */
  function Factor(size: nat): nat
    requires size > 0
  {
    TRANSFER_SIZE / size
  }

  /** With full-speed packets a raw image never fills its URBs exactly: the content is odd, what a URB carries is even. */
  lemma RawNeverExact(pixels: nat, size: nat)
    requires size in {16, 32, 64}
    ensures WorstContent(2 * pixels, false) % (Factor(size) * (size - 1)) != 0
  {
    assert Factor(size) == if size == 16 then 4064 else if size == 32 then 2032 else 1016;
  }

  /** Up to a full screen of pixels, each packet size of the bus has one pixel count, in one mode or in each, for which
      the reserved content is an exact fill. */
  lemma ExactFillPixels(n: nat, rleMode: bool, size: nat)
    requires n <= 320 * 240 && size in {16, 32, 64, 512, 1024}
    ensures WorstContent(2 * n, rleMode) % (Factor(size) * (size - 1)) == 0 <==>
            if rleMode then
              (size == 16 && n == 60718) || (size == 32 && n == 62742) || (size == 64 && n == 63754)
              || (size == 512 && n == 64640)
            else
              (size == 512 && n == 32444) || (size == 1024 && n == 32220)
  {
    var c := WorstContent(2 * n, rleMode);
    var unit := Factor(size) * (size - 1);
    assert unit == if size == 16 then 60960 else if size == 32 then 62992 else if size == 64 then 64008
                   else if size == 512 then 64897 else 64449;
    OnceOrTwice(c, unit);
  }

  lemma OnceOrTwice(c: nat, unit: nat)
    requires 0 < c < 3 * unit
    ensures c % unit == 0 <==> c == unit || c == 2 * unit
  {
    if c < unit {
      DivModUnique(c, unit, 0, c);
    } else if c < 2 * unit {
      DivModUnique(c, unit, 1, c - unit);
    } else {
      DivModUnique(c, unit, 2, c - 2 * unit);
    }
  }

  // The pixel counts as products of a screen's sides, one at a time.

  lemma Not60718(w: nat, h: nat)
    requires w <= 320 && 189 <= h <= 240
    ensures w * h != 60718
  {
  }

  lemma Not62742(w: nat, h: nat)
    requires w <= 320 && 196 <= h <= 240
    ensures w * h != 62742
  {
  }

  lemma Not63754(w: nat, h: nat)
    requires w <= 320 && 199 <= h <= 240
    ensures w * h != 63754
  {
  }

  lemma Not32444(w: nat, h: nat)
    requires w <= 320 && 101 <= h <= 240
    ensures w * h != 32444
  {
  }

  lemma HighSpeedRectangle(w: nat, h: nat)
    requires w <= 320 && 202 <= h <= 240
    ensures w * h == 64640 ==> w == 320 && h == 202
  {
  }

  lemma SuperSpeedRectangles(w: nat, h: nat)
    requires w <= 320 && 100 <= h <= 240
    ensures w * h == 32220 ==> (w == 179 && h == 180) || (w == 180 && h == 179)
  {
  }

  lemma OnScreen(w: nat, h: nat)
    requires 1 <= w <= 320 && 1 <= h <= 240
    ensures w * h !in {60718, 62742, 63754, 32444}
    ensures w * h == 64640 <==> w == 320 && h == 202
    ensures w * h == 32220 <==> (w == 179 && h == 180) || (w == 180 && h == 179)
  {
    MulGap(w, 321, h);
    if h >= 189 { Not60718(w, h); }
    if h >= 196 { Not62742(w, h); }
    if h >= 199 { Not63754(w, h); }
    if h >= 101 { Not32444(w, h); }
    if h >= 202 { HighSpeedRectangle(w, h); }
    if h >= 100 { SuperSpeedRectangles(w, h); }
  }

  /** On the 320x240 display, with 4096-octet pages and each packet size of the bus above the header's length, exactly
      these rectangles reserve an exact fill: 320x202 in RLE mode with high-speed packets of 512 octets, and 179x180 and
      180x179 as raw pixels with packets of 1024. */
  lemma ScreenExactIff(w: nat, h: nat, rleMode: bool, size: nat)
    requires 1 <= w <= 320 && 1 <= h <= 240 && size in {16, 32, 64, 512, 1024}
    ensures WorstContent(2 * (w * h), rleMode) % (Factor(size) * (size - 1)) == 0 <==>
            || (size == 512 && rleMode && w == 320 && h == 202)
            || (size == 1024 && !rleMode && ((w == 179 && h == 180) || (w == 180 && h == 179)))
  {
    hide WorstContent, Factor;
    MulGap(w, 321, h);
    OnScreen(w, h);
    ExactFillPixels(w * h, rleMode, size);
  }
}
