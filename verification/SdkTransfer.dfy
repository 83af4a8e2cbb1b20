/** sendCommandToDisplayEndpoint of the user-mode SDK: the whole transfer is laid out before it is sent. */
module SdkTransfer {
  import opened Bytes
  import opened Packets

  /** The octets a command and its payload should become on the wire. */
  function Transfer(whole: seq<byte>, size: nat, clearDirty: bool): seq<byte>
    requires size > 1 && whole != [] && whole[0] < 0x40
  {
    [StartOctet(whole[0], clearDirty)] + Stream(whole[0], size - 1, whole[1..])
  }

  function PacketCount(whole: seq<byte>, size: nat): nat
    requires size > 1 && whole != []
  {
    (|whole| - 1 + size - 1) / (size - 1)
  }

  /** The command octet of the packet whose content starts at `at`. */
  function Opening(whole: seq<byte>, clearDirty: bool, at: nat): byte
    requires whole != [] && whole[0] < 0x40
  {
    if at == 1 then StartOctet(whole[0], clearDirty) else whole[0]
  }

  /** What the packet whose content starts at `at` carries. */
  function Chunk(whole: seq<byte>, size: nat, at: nat): (r: seq<byte>)
    requires size > 1 && at <= |whole|
    ensures |r| == if size - 1 > |whole| - at then |whole| - at else size - 1
  {
    whole[at..at + if size - 1 > |whole| - at then |whole| - at else size - 1]
  }

  /** `out[..pos]` is the transfer up to the packet whose content starts at `at`. */
  ghost predicate LaidOut(out: seq<byte>, whole: seq<byte>, size: nat, clearDirty: bool, at: nat, pos: nat)
    requires size > 1 && whole != [] && whole[0] < 0x40
  {
    && 1 <= at <= |whole| && pos <= |out|
    && Transfer(whole, size, clearDirty)
       == out[..pos] + ([Opening(whole, clearDirty, at)] + Stream(whole[0], size - 1, whole[at..]))
  }

  lemma Regroup(done: seq<byte>, opening: byte, chunk: seq<byte>, next: byte, rest: seq<byte>)
    ensures done + ([opening] + (chunk + [next] + rest)) == (done + ([opening] + chunk)) + ([next] + rest)
  {
  }

  /** The stream from `at` on is this packet's chunk and, if that fills the packet, the stream after it. */
  lemma ChunkOfStream(whole: seq<byte>, size: nat, at: nat)
    requires size > 1 && whole != [] && at <= |whole|
    ensures Stream(whole[0], size - 1, whole[at..]) ==
            if |whole| - at < size - 1 then Chunk(whole, size, at)
            else Chunk(whole, size, at) + [whole[0]] + Stream(whole[0], size - 1, whole[at + (size - 1)..])
  {
    if |whole| - at >= size - 1 {
      assert whole[at..][..size - 1] == Chunk(whole, size, at);
      assert whole[at..][size - 1..] == whole[at + (size - 1)..];
    }
  }

  lemma LaidOutStep(before: seq<byte>, out: seq<byte>, whole: seq<byte>, size: nat, clearDirty: bool, at: nat, pos: nat)
    requires size > 1 && whole != [] && whole[0] < 0x40
    requires LaidOut(before, whole, size, clearDirty, at, pos)
    requires var chunk := Chunk(whole, size, at);
             && pos + 1 + |chunk| <= |out|
             && out[..pos + 1 + |chunk|] == before[..pos] + ([Opening(whole, clearDirty, at)] + chunk)
    ensures if |whole| - at < size - 1 then
              out[..pos + 1 + (|whole| - at)] == Transfer(whole, size, clearDirty)
            else
              LaidOut(out, whole, size, clearDirty, at + (size - 1), pos + size)
  {
    ChunkOfStream(whole, size, at);
    if |whole| - at >= size - 1 {
      Regroup(before[..pos], Opening(whole, clearDirty, at), Chunk(whole, size, at), whole[0],
              Stream(whole[0], size - 1, whole[at + (size - 1)..]));
    }
  }

  /** Offsets of packet `i`, and which packet is the last. */
  lemma Offsets(whole: seq<byte>, size: nat, clearDirty: bool, i: nat)
    requires size > 1 && whole != [] && whole[0] < 0x40 && i < PacketCount(whole, size)
    ensures |Transfer(whole, size, clearDirty)| == |whole| + PacketCount(whole, size) - 1
    ensures i * (size - 1) + 1 <= |whole|
    ensures i + 1 == PacketCount(whole, size) <==> |whole| - (i * (size - 1) + 1) < size - 1
    ensures (i + 1) * (size - 1) == i * (size - 1) + (size - 1) && (i + 1) * size == i * size + size
  {
    hide Stream;
    var room, n := size - 1, |whole| - 1;
    DivStep(n + room, room);
    StreamLength(whole[0], room, whole[1..]);
    Distribute(i, room);
    Distribute(i, size);
    MulGap(i, n / room, room);
    MulGap(n / room, i, room);
  }

  method CopyPacket(out: array<byte>, at: nat, opening: byte, data: seq<byte>)
    requires at + 1 + |data| <= out.Length
    modifies out
    ensures out[..at + 1 + |data|] == old(out[..at]) + ([opening] + data)
  {
    out[at] := opening;
    forall k | 0 <= k < |data| {
      out[at + 1 + k] := data[k];
    }
  }

  /** One turn of the loop. */
  method PutPacket(transfer: array<byte>, whole: seq<byte>, maxPacketSize: nat, clearDirty: bool, packetIndex: nat,
                   packetOffset: nat, transferBufferOffset: nat)
    requires maxPacketSize > 1 && whole != [] && whole[0] < 0x40
    requires LaidOut(transfer[..], whole, maxPacketSize, clearDirty, packetOffset, transferBufferOffset)
    requires transfer.Length == |Transfer(whole, maxPacketSize, clearDirty)|
    requires packetOffset == packetIndex * (maxPacketSize - 1) + 1
    modifies transfer
    ensures if |whole| - packetOffset < maxPacketSize - 1 then
              transfer[..] == Transfer(whole, maxPacketSize, clearDirty)
            else
              LaidOut(transfer[..], whole, maxPacketSize, clearDirty,
                      packetOffset + (maxPacketSize - 1), transferBufferOffset + maxPacketSize)
  {
    ghost var before := transfer[..];
    var payloadSize := maxPacketSize - 1;
    if payloadSize > |whole| - packetOffset {
      payloadSize := |whole| - packetOffset;
    }
    var opening := whole[0];
    if packetIndex == 0 {
      opening := opening + CMD_FLAG_START;
      if clearDirty {
        opening := opening + CMD_FLAG_CLEARDITY;
      }
    }
    MulGap(0, packetIndex, maxPacketSize - 1);
    RoomFor(before, whole, maxPacketSize, clearDirty, packetOffset, transferBufferOffset);
    CopyPacket(transfer, transferBufferOffset, opening, whole[packetOffset..packetOffset + payloadSize]);
    LaidOutStep(before, transfer[..], whole, maxPacketSize, clearDirty, packetOffset, transferBufferOffset);
    assert transfer[..transfer.Length] == transfer[..];
  }

  lemma RoomFor(out: seq<byte>, whole: seq<byte>, size: nat, clearDirty: bool, at: nat, pos: nat)
    requires size > 1 && whole != [] && whole[0] < 0x40
    requires LaidOut(out, whole, size, clearDirty, at, pos)
    ensures pos + 1 + |Chunk(whole, size, at)| <= |Transfer(whole, size, clearDirty)|
    ensures |whole| - at < size - 1 ==> pos + 1 + (|whole| - at) == |Transfer(whole, size, clearDirty)|
  {
    StreamLength(whole[0], size - 1, whole[at..]);
    DivStep(|whole| - at, size - 1);
  }

  /** The loop's invariant in terms of the packet index. */
  ghost predicate AtPacket(out: seq<byte>, whole: seq<byte>, size: nat, clearDirty: bool, i: nat)
    requires size > 1 && whole != [] && whole[0] < 0x40
  {
    && |out| == |Transfer(whole, size, clearDirty)|
    && if i < PacketCount(whole, size) then LaidOut(out, whole, size, clearDirty, i * (size - 1) + 1, i * size)
       else out == Transfer(whole, size, clearDirty)
  }

  lemma AtPacketZero(out: seq<byte>, whole: seq<byte>, size: nat, clearDirty: bool)
    requires size > 1 && whole != [] && whole[0] < 0x40
    requires |out| == |whole| + PacketCount(whole, size) - 1
    ensures PacketCount(whole, size) > 0 && AtPacket(out, whole, size, clearDirty, 0)
  {
    DivStep(|whole| - 1 + size - 1, size - 1);
    Offsets(whole, size, clearDirty, 0);
    assert 0 * (size - 1) == 0 && 0 * size == 0;
  }

  lemma CountOf(whole: seq<byte>, size: nat)
    requires size > 1 && whole != []
    ensures (|whole| - 1 + size - 1) / (size - 1) == PacketCount(whole, size) > 0
  {
    DivStep(|whole| - 1 + size - 1, size - 1);
  }

  /** `clearDirty` is the dirty flag of the last status packet. */
  method BuildTransfer(packet: seq<byte>, payload: seq<byte>, maxPacketSize: nat, clearDirty: bool)
    returns (transfer: array<byte>)
    requires maxPacketSize > 1 && packet != [] && packet[0] < 0x40
    ensures transfer[..] == Transfer(packet + payload, maxPacketSize, clearDirty)
    ensures Strip(transfer[..], maxPacketSize) == packet[1..] + payload
  {
    hide Transfer, Strip, Stream, AtPacket, LaidOut;
    CountOf(packet + payload, maxPacketSize);
    var whole := packet + payload;
    var totalSize := |whole|;
    var packetCount := (totalSize - 1 + maxPacketSize - 1) / (maxPacketSize - 1);
    transfer := new byte[totalSize + packetCount - 1];
    AtPacketZero(transfer[..], whole, maxPacketSize, clearDirty);
    for packetIndex := 0 to packetCount
      invariant AtPacket(transfer[..], whole, maxPacketSize, clearDirty, packetIndex)
    {
      NextPacket(transfer, whole, maxPacketSize, clearDirty, packetIndex);
    }
    AtPacketEnd(transfer[..], whole, maxPacketSize, clearDirty);
    StripTransfer(packet, payload, maxPacketSize, clearDirty);
  }

  lemma AtPacketEnd(out: seq<byte>, whole: seq<byte>, size: nat, clearDirty: bool)
    requires size > 1 && whole != [] && whole[0] < 0x40
    requires AtPacket(out, whole, size, clearDirty, PacketCount(whole, size))
    ensures out == Transfer(whole, size, clearDirty)
  {
  }

  method NextPacket(transfer: array<byte>, whole: seq<byte>, maxPacketSize: nat, clearDirty: bool, packetIndex: nat)
    requires maxPacketSize > 1 && whole != [] && whole[0] < 0x40
    requires AtPacket(transfer[..], whole, maxPacketSize, clearDirty, packetIndex)
    requires packetIndex < PacketCount(whole, maxPacketSize)
    modifies transfer
    ensures AtPacket(transfer[..], whole, maxPacketSize, clearDirty, packetIndex + 1)
  {
    hide Transfer, LaidOut, PacketCount;
    Offsets(whole, maxPacketSize, clearDirty, packetIndex);
    var packetOffset := packetIndex * (maxPacketSize - 1) + 1;
    var transferBufferOffset := packetIndex * maxPacketSize;
    PutPacket(transfer, whole, maxPacketSize, clearDirty, packetIndex, packetOffset, transferBufferOffset);
  }

  /** The device gets back the command's own octets and the payload. */
  lemma StripTransfer(packet: seq<byte>, payload: seq<byte>, size: nat, clearDirty: bool)
    requires size > 1 && packet != [] && packet[0] < 0x40
    ensures Strip(Transfer(packet + payload, size, clearDirty), size) == packet[1..] + payload
  {
    var whole := packet + payload;
    StripStream(StartOctet(whole[0], clearDirty), whole[0], size - 1, whole[1..]);
    assert whole[1..] == packet[1..] + payload;
  }
}
