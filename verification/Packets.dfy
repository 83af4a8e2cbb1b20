/** Display commands cut into endpoint packets. Every packet opens with a command octet; the rest is content.
    The SDK builds the whole transfer at once, the kernel driver streams it and opens the next packet as soon
    as one is full. */
module Packets {
  import opened Bytes

  const CMD_FLAG_CLEARDITY := 0x40
  const CMD_FLAG_START := 0x80

  type command = c: byte | c < 0x40

  function StartOctet(cmd: command, clearDirty: bool): byte {
    cmd + CMD_FLAG_START + if clearDirty then CMD_FLAG_CLEARDITY else 0
  }

  /** What follows the first command octet: `room` content octets to a packet, and a new command octet as soon
      as a packet is full, even when nothing comes after it. */
  function Stream(cmd: byte, room: nat, content: seq<byte>): (r: seq<byte>)
    requires room > 0
  {
    if |content| < room then content
    else content[..room] + [cmd] + Stream(cmd, room, content[room..])
  }

  /** The device's view of one transfer: packets of `size` octets, each stripped of its command octet. */
  function Strip(transfer: seq<byte>, size: nat): (r: seq<byte>)
    requires size > 1
  {
    if transfer == [] then []
    else if |transfer| <= size then transfer[1..]
    else transfer[1..size] + Strip(transfer[size..], size)
  }

  /** The device's view of several transfers in a row: a transfer always starts a new packet. */
  function StripAll(transfers: seq<seq<byte>>, size: nat): seq<byte>
    requires size > 1
  {
    if transfers == [] then []
    else StripAll(transfers[..|transfers| - 1], size) + Strip(transfers[|transfers| - 1], size)
  }

  // ---------------------------------------------------------------- arithmetic

  lemma {:induction false} MulGap(a: int, b: int, m: nat)
    ensures a < b ==> a * m + m <= b * m
    decreases b - a
  {
    if a + 1 < b {
      MulGap(a, b - 1, m);
    }
  }

  lemma MulAssoc(a: int, b: int, c: int)
    ensures a * (b * c) == (a * b) * c
  {
  }

  lemma DivModUnique(n: int, m: nat, q: int, r: nat)
    requires m > 0 && n == q * m + r && r < m
    ensures n / m == q && n % m == r
  {
    MulGap(q, n / m, m);
    MulGap(n / m, q, m);
  }

  lemma Distribute(n: nat, length: nat)
    ensures (n + 1) * length == n * length + length
  {
  }

  lemma DivStep(n: nat, m: nat)
    requires 0 < m
    ensures n < m ==> n / m == 0 && n % m == n
    ensures n >= m ==> n / m == (n - m) / m + 1 && n % m == (n - m) % m
  {
    if n < m {
      DivModUnique(n, m, 0, n);
    } else {
      DivModUnique(n, m, (n - m) / m + 1, (n - m) % m);
    }
  }

  // ---------------------------------------------------------------- streams

  /** One command octet per full packet, the one after the last full packet included. */
  lemma {:induction false} StreamLength(cmd: byte, room: nat, content: seq<byte>)
    requires room > 0
    ensures |Stream(cmd, room, content)| == |content| + |content| / room
    decreases |content|
  {
    DivStep(|content|, room);
    if |content| >= room {
      StreamLength(cmd, room, content[room..]);
    }
  }

  lemma ModAdd(n: nat, m: nat, k: nat)
    requires 0 < m && k <= m - n % m
    ensures (n + k) % m == if k == m - n % m then 0 else n % m + k
    ensures (n + k) / m == if k == m - n % m then n / m + 1 else n / m
  {
    Distribute(n / m, m);
    if k == m - n % m {
      DivModUnique(n + k, m, n / m + 1, 0);
    } else {
      DivModUnique(n + k, m, n / m, n % m + k);
    }
  }

  /** Content may be streamed piece by piece: a piece that just fills the open packet also opens the next. */
  lemma {:induction false} StreamAppend(cmd: byte, room: nat, content: seq<byte>, piece: seq<byte>)
    requires room > 0 && |piece| <= room - |content| % room
    ensures Stream(cmd, room, content + piece) ==
            Stream(cmd, room, content) + piece + if |piece| == room - |content| % room then [cmd] else []
    decreases |content|
  {
    DivStep(|content|, room);
    if |content| >= room {
      var rest := content[room..];
      StreamAppend(cmd, room, rest, piece);
      assert (content + piece)[..room] == content[..room] && (content + piece)[room..] == rest + piece;
      assert content == content[..room] + rest;
    } else if |content + piece| == room {
      assert (content + piece)[..room] == content + piece && (content + piece)[room..] == [];
    }
  }

  /** Content that has only begun makes a stream that has only begun. */
  lemma {:induction false} StreamBegun(cmd: byte, room: nat, content: seq<byte>, whole: seq<byte>)
    requires room > 0 && content <= whole
    ensures Stream(cmd, room, content) <= Stream(cmd, room, whole)
    decreases |content|
  {
    if |content| >= room {
      assert whole[..room] == content[..room];
      StreamBegun(cmd, room, content[room..], whole[room..]);
    } else if |whole| >= room {
      assert content <= whole[..room];
    }
  }

  lemma {:induction false} StripStream(first: byte, cmd: byte, room: nat, content: seq<byte>)
    requires room > 0
    ensures Strip([first] + Stream(cmd, room, content), room + 1) == content
    decreases |content|
  {
    var t := [first] + Stream(cmd, room, content);
    if |content| >= room {
      var rest := [cmd] + Stream(cmd, room, content[room..]);
      assert t == [first] + content[..room] + rest;
      assert t[1..room + 1] == content[..room] && t[room + 1..] == rest;
      StripStream(cmd, cmd, room, content[room..]);
    }
  }

  /** Whole packets may be moved to a transfer of their own. */
  lemma {:induction false} StripConcat(a: seq<byte>, b: seq<byte>, size: nat, packets: nat)
    requires size > 1 && |a| == packets * size
    ensures Strip(a + b, size) == Strip(a, size) + Strip(b, size)
  {
    if packets == 0 {
      assert a + b == b;
    } else {
      assert packets * size == (packets - 1) * size + size;
      if b == [] {
        assert a + b == a;
      } else if packets == 1 {
        assert (a + b)[size..] == b && (a + b)[1..size] == a[1..];
      } else {
        assert (packets - 1) * size >= size;
        StripConcat(a[size..], b, size, packets - 1);
        assert (a + b)[size..] == a[size..] + b && (a + b)[1..size] == a[1..size];
      }
    }
  }

  lemma {:induction false} FlattenLength(transfers: seq<seq<byte>>, length: nat)
    requires forall i :: 0 <= i < |transfers| ==> |transfers[i]| == length
    ensures |Flatten(transfers)| == |transfers| * length
  {
    if transfers != [] {
      FlattenLength(transfers[..|transfers| - 1], length);
      Distribute(|transfers| - 1, length);
    }
  }

  /** When every transfer but the last is filled with whole packets, the device sees one unbroken stream. */
  lemma {:induction false} StripAllIsStrip(transfers: seq<seq<byte>>, last: seq<byte>, size: nat, packets: nat)
    requires size > 1
    requires forall i :: 0 <= i < |transfers| ==> |transfers[i]| == packets * size
    ensures StripAll(transfers + [last], size) == Strip(Flatten(transfers) + last, size)
  {
    assert (transfers + [last])[..|transfers|] == transfers;
    if transfers == [] {
      assert Flatten(transfers) + last == last;
    } else {
      var init, t := transfers[..|transfers| - 1], transfers[|transfers| - 1];
      assert init + [t] == transfers;
      StripAllIsStrip(init, t, size, packets);
      FlattenLength(transfers, packets * size);
      MulAssoc(|transfers|, packets, size);
      StripConcat(Flatten(transfers), last, size, |transfers| * packets);
    }
  }
}
