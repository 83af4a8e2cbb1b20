/** The user-mode SDK's bitblt: the whole image, compressed when the firmware knows how, in one transfer. */
module SdkBitblt {
  import opened Bytes
  import opened Packets
  import opened RleFormat
  import opened RleEncoders
  import opened RleComparison
  import opened Reservation
  import opened SdkRle
  import opened SdkTransfer
  import opened DisplayDevice
  import BitbltEncoder
  import ImageSender

  const MIN_VERSION_BITBLT_RLE := 0x0104

  function CommandFor(firmware: nat): command {
    if firmware < MIN_VERSION_BITBLT_RLE then BitbltEncoder.DISPCMD_BITBLT else BitbltEncoder.DISPCMD_BITBLT_RLE
  }

  /** The bitblt packet behind its command octet. */
  function Header(x: word, y: word, width: word, height: word, operation: byte): (r: seq<byte>)
    ensures |r| == HEADER_REST
    ensures WordAt(r, 0) == x && WordAt(r, 2) == y && WordAt(r, 4) == width && WordAt(r, 6) == height && r[8] == operation
  {
    LittleEndian(x) + LittleEndian(y) + LittleEndian(width) + LittleEndian(height) + [operation]
  }

  /** What a device makes of a transfer: the header, and the pixels behind it. */
  ghost predicate Shows(transfer: seq<byte>, size: nat, cmd: command, clearDirty: bool, header: seq<byte>, image: seq<word>)
  {
    && size > 1 && |header| == HEADER_REST && transfer != [] && transfer[0] == StartOctet(cmd, clearDirty)
    && header <= Strip(transfer, size)
    && Painted(Strip(transfer, size)[HEADER_REST..], cmd == BitbltEncoder.DISPCMD_BITBLT_RLE) == Some(image)
  }

  function SdkPayload(image: seq<word>, rleMode: bool): seq<byte> {
    if rleMode then Compress(Sdk, image) else WordsToBytes(image)
  }

  function SdkOctets(cmd: command, header: seq<byte>, image: seq<word>, size: nat, clearDirty: bool): seq<byte>
    requires size > 1
  {
    Transfer([cmd] + header + SdkPayload(image, cmd == BitbltEncoder.DISPCMD_BITBLT_RLE), size, clearDirty)
  }

  lemma TransferShows(cmd: command, header: seq<byte>, image: seq<word>, size: nat, clearDirty: bool)
    requires size > 1 && |header| == HEADER_REST
    ensures Shows(SdkOctets(cmd, header, image, size, clearDirty), size, cmd, clearDirty, header, image)
  {
    hide Strip, Stream, Decode, Compress;
    var payload := SdkPayload(image, cmd == BitbltEncoder.DISPCMD_BITBLT_RLE);
    DecodeCompress(Sdk, image);
    WordsRoundTrip(image);
    StripTransfer([cmd] + header, payload, size, clearDirty);
    assert ([cmd] + header)[1..] == header && (header + payload)[HEADER_REST..] == payload;
  }

  /** A device that goes by the protocol understands what was asked for. */
  lemma DeviceUnderstands(transfer: seq<byte>, size: nat, cmd: command, clearDirty: bool, x: word, y: word, width: word,
                          height: word, operation: byte, image: seq<word>)
    requires cmd == BitbltEncoder.DISPCMD_BITBLT || cmd == BitbltEncoder.DISPCMD_BITBLT_RLE
    requires Shows(transfer, size, cmd, clearDirty, Header(x, y, width, height, operation), image)
    ensures Sees([transfer], size) == Some(Blit(clearDirty, x, y, width, height, operation, image))
  {
    hide Strip, Painted, LittleEndian, StartOctet, Understood;
    var header, payload := Header(x, y, width, height, operation), Strip(transfer, size)[HEADER_REST..];
    assert Strip(transfer, size) == header + payload;
    assert [transfer][..0] == [] && StripAll([], size) == [];
    assert StripAll([transfer], size) == [] + Strip(transfer, size) == Strip(transfer, size);
    Reads(cmd, clearDirty, x, y, width, height, operation, header, payload, image);
  }

  /** Raw pixels go out as they lie in memory. */
  lemma RawBack(bs: seq<byte>)
    requires |bs| % 2 == 0
    ensures WordsToBytes(BytesToWords(bs)) == bs
  {
    forall i | 0 <= i < |bs|
      ensures WordsToBytes(BytesToWords(bs))[i] == bs[i]
    {
      assert 2 * (i / 2) + i % 2 == i;
    }
  }

  /** The octets of the kernel driver's URBs against the SDK's transfer for the same image: in raw mode always the same, in
      RLE mode unless the image has a run longer than 128 pixels that leaves one over; either way the device shows
      the image. */
  lemma SameAsKernel(urbs: seq<seq<byte>>, cmd: command, header: seq<byte>, image: seq<word>, size: nat, clearDirty: bool)
    requires ImageSender.Delivered(urbs, size, cmd, clearDirty, header, image)
    ensures Flatten(urbs) == SdkOctets(cmd, header, image, size, clearDirty)
            <==> cmd != BitbltEncoder.DISPCMD_BITBLT_RLE || !HasOddRun(image)
    ensures Shows(SdkOctets(cmd, header, image, size, clearDirty), size, cmd, clearDirty, header, image)
  {
    hide Strip, StripAll, Stream, Decode, Compress, HasOddRun, Painted, Transfer;
    var rleMode := cmd == BitbltEncoder.DISPCMD_BITBLT_RLE;
    var k, s := ImageSender.Payload(image, rleMode), SdkPayload(image, rleMode);
    SameBytesIff(image);
    TransferShows(cmd, header, image, size, clearDirty);
    TransferInjective(cmd, header, k, s, size, clearDirty);
  }

  /** Transfers determine their payloads. */
  lemma TransferInjective(cmd: command, header: seq<byte>, a: seq<byte>, b: seq<byte>, size: nat, clearDirty: bool)
    requires size > 1
    ensures Transfer([cmd] + header + a, size, clearDirty) == Transfer([cmd] + header + b, size, clearDirty) <==> a == b
  {
    hide Strip, Stream, Transfer;
    StripTransfer([cmd] + header, a, size, clearDirty);
    StripTransfer([cmd] + header, b, size, clearDirty);
    var h := ([cmd] + header)[1..];
    if h + a == h + b {
      assert (h + a)[|h|..] == a && (h + b)[|h|..] == b;
    }
  }

  /** bitblt of the SDK, which hands even an image without a pixel to the compressor. */
  method Bitblt(x: word, y: word, width: word, height: word, operation: byte, buffer: array<byte>, firmware: nat,
                maxPacketSize: nat, clearDirty: bool)
    returns (r: Result<array<byte>>)
    requires maxPacketSize > 1 && buffer.Length == 2 * (width * height)
    ensures r.Overrun? <==> firmware >= MIN_VERSION_BITBLT_RLE && (width == 0 || height == 0)
    ensures !r.Overrun? ==> r.Ok?
    ensures var cmd, header := CommandFor(firmware), Header(x, y, width, height, operation);
            r.Ok? ==>
              && Shows(r.value[..], maxPacketSize, cmd, clearDirty, header, BytesToWords(buffer[..]))
              && r.value[..] == SdkOctets(cmd, header, BytesToWords(buffer[..]), maxPacketSize, clearDirty)
    ensures r.Ok? ==>
              Sees([r.value[..]], maxPacketSize)
              == Some(Blit(clearDirty, x, y, width, height, operation, BytesToWords(buffer[..])))
  {
    hide Sees, Shows, Transfer, Strip, Compress, Decode, WordsToBytes, BytesToWords, LittleEndian, Header, Painted;
    RawBack(buffer[..]);
    NoPixels(width, height);
    var cmd := CommandFor(firmware);
    var payload := buffer[..];
    if firmware >= MIN_VERSION_BITBLT_RLE {
      var compressed := RleCompress(buffer);
      if compressed.Overrun? {
        return Overrun;
      }
      payload := compressed.value[..];
    }
    var packet := [cmd] + Header(x, y, width, height, operation);
    ghost var image := BytesToWords(buffer[..]);
    TransferShows(cmd, Header(x, y, width, height, operation), image, maxPacketSize, clearDirty);
    var transfer := BuildTransfer(packet, payload, maxPacketSize, clearDirty);
    DeviceUnderstands(transfer[..], maxPacketSize, cmd, clearDirty, x, y, width, height, operation, image);
    r := Ok(transfer);
  }

  lemma NoPixels(width: nat, height: nat)
    ensures width * height >= 0 && (width * height == 0 <==> width == 0 || height == 0)
  {
    MulGap(0, width, height);
  }
}
