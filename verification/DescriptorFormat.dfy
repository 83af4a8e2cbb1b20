/** usbi_parse_descriptor: a format string says how wide the fields of a descriptor are. Words are little-endian on the bus;
    a host of the same byte order stores them as they come. */
module DescriptorFormat {
  import opened Bytes
  import opened Descriptors

  datatype Item = B | W | D | U      // 8, 16 and 32 bits, and a 16-octet UUID

  datatype Value = Number(n: nat) | Uuid(octets: seq<byte>)

  function Width(i: Item): nat {
    match i
    case B => 1
    case W => 2
    case D => 4
    case U => 16
  }

  /** The item a character stands for; others are passed over. */
  function ItemOf(c: char): (r: seq<Item>)
    ensures |r| <= 1
  {
    if c == 'b' then [B] else if c == 'w' then [W] else if c == 'd' then [D] else if c == 'u' then [U] else []
  }

  function Items(format: string): seq<Item> {
    if format == "" then [] else Items(format[..|format| - 1]) + ItemOf(format[|format| - 1])
  }

  function TotalWidth(items: seq<Item>): nat {
    if items == [] then 0 else TotalWidth(items[..|items| - 1]) + Width(items[|items| - 1])
  }

  function ReadItem(i: Item, bs: seq<byte>): Value
    requires |bs| >= Width(i)
  {
    match i
    case B => Number(bs[0])
    case W => Number(FromLittleEndian(bs[0], bs[1]))
    case D => Number(FromLittleEndian(bs[0], bs[1]) + 0x1_0000 * (FromLittleEndian(bs[2], bs[3]) as int))
    case U => Uuid(bs[..16])
  }

  /** The fields, one after the other. */
  function Unpack(items: seq<Item>, bs: seq<byte>): (r: seq<Value>)
    requires |bs| >= TotalWidth(items)
    ensures |r| == |items|
  {
    if items == [] then []
    else
      var init, last := items[..|items| - 1], items[|items| - 1];
      Unpack(init, bs) + [ReadItem(last, bs[TotalWidth(init)..])]
  }

  predicate Holds(i: Item, v: Value) {
    match i
    case B => v.Number? && v.n < 0x100
    case W => v.Number? && v.n < 0x1_0000
    case D => v.Number? && v.n < 0x1_0000_0000
    case U => v.Uuid? && |v.octets| == 16
  }

  function WriteItem(i: Item, v: Value): (r: seq<byte>)
    requires Holds(i, v)
    ensures |r| == Width(i)
  {
    match i
    case B => [v.n]
    case W => LittleEndian(v.n)
    case D => LittleEndian(v.n % 0x1_0000) + LittleEndian(v.n / 0x1_0000)
    case U => v.octets
  }

  predicate AllHold(items: seq<Item>, vs: seq<Value>) {
    |items| == |vs| && forall k :: 0 <= k < |vs| ==> Holds(items[k], vs[k])
  }

  function Pack(items: seq<Item>, vs: seq<Value>): (r: seq<byte>)
    requires AllHold(items, vs)
    ensures |r| == TotalWidth(items)
  {
    if items == [] then []
    else
      var n := |items| - 1;
      Pack(items[..n], vs[..n]) + WriteItem(items[n], vs[n])
  }

  lemma ItemBack(i: Item, v: Value, rest: seq<byte>)
    requires Holds(i, v)
    ensures ReadItem(i, WriteItem(i, v) + rest) == v
  {
    if i == U {
      assert (v.octets + rest)[..16] == v.octets;
    }
  }

  /** Only the octets the format accounts for matter. */
  lemma {:induction false} UnpackPrefix(items: seq<Item>, bs: seq<byte>, rest: seq<byte>)
    requires |bs| >= TotalWidth(items)
    ensures Unpack(items, bs + rest) == Unpack(items, bs)
  {
    hide ReadItem, Width;
    if items != [] {
      var init, last := items[..|items| - 1], items[|items| - 1];
      UnpackPrefix(init, bs, rest);
      var at := TotalWidth(init);
      assert (bs + rest)[at..] == bs[at..] + rest;
      ItemPrefix(last, bs[at..], rest);
    }
  }

  lemma ItemPrefix(i: Item, bs: seq<byte>, rest: seq<byte>)
    requires |bs| >= Width(i)
    ensures ReadItem(i, bs + rest) == ReadItem(i, bs)
  {
    assert i == U ==> (bs + rest)[..16] == bs[..16];
  }

  /** Any fields packed after a format are unpacked again, whatever follows them. */
  lemma {:induction false} UnpackPack(items: seq<Item>, vs: seq<Value>, rest: seq<byte>)
    requires AllHold(items, vs)
    ensures Unpack(items, Pack(items, vs) + rest) == vs
  {
    hide ReadItem, WriteItem, Holds, Width;
    if items != [] {
      var n := |items| - 1;
      var init, last := Pack(items[..n], vs[..n]), WriteItem(items[n], vs[n]);
      UnpackPack(items[..n], vs[..n], last + rest);
      ItemBack(items[n], vs[n], rest);
      assert init + last + rest == init + (last + rest);
      assert (init + (last + rest))[|init|..] == last + rest;
      assert vs[..n] + [vs[n]] == vs;
    }
  }

  /** One more character of the format. */
  lemma NextItem(format: string, k: nat)
    requires k < |format|
    ensures Items(format[..k + 1]) == Items(format[..k]) + ItemOf(format[k])
  {
    assert format[..k + 1][..k] == format[..k];
  }

  lemma OneMore(items: seq<Item>, i: Item)
    ensures TotalWidth(items + [i]) == TotalWidth(items) + Width(i)
    ensures forall bs: seq<byte> :: |bs| >= TotalWidth(items) + Width(i) ==>
              Unpack(items + [i], bs) == Unpack(items, bs) + [ReadItem(i, bs[TotalWidth(items)..])]
  {
    assert (items + [i])[..|items|] == items;
  }

  lemma MoreWidth(items: seq<Item>, item: seq<Item>)
    requires |item| <= 1
    ensures TotalWidth(items + item) >= TotalWidth(items)
  {
    if item == [] {
      assert items + item == items;
    } else {
      assert item == [item[0]];
      OneMore(items, item[0]);
    }
  }

  lemma {:induction false} PrefixWidth(format: string, k: nat)
    requires k <= |format|
    ensures TotalWidth(Items(format[..k])) <= TotalWidth(Items(format))
    decreases |format| - k
  {
    hide TotalWidth, Items, ItemOf, Unpack;
    if k < |format| {
      PrefixWidth(format, k + 1);
      NextItem(format, k);
      MoreWidth(Items(format[..k]), ItemOf(format[k]));
    } else {
      assert format[..k] == format;
    }
  }

  /** What an item adds, if there is one. */
  function Field(item: seq<Item>, bs: seq<byte>): seq<Value>
    requires |item| <= 1 && (item != [] ==> |bs| >= Width(item[0]))
  {
    if item == [] then [] else [ReadItem(item[0], bs)]
  }

  lemma MoreFields(items: seq<Item>, item: seq<Item>, bs: seq<byte>)
    requires |item| <= 1 && TotalWidth(items + item) <= |bs|
    ensures TotalWidth(items + item) == TotalWidth(items) + if item == [] then 0 else Width(item[0])
    ensures Unpack(items + item, bs) == Unpack(items, bs) + Field(item, bs[TotalWidth(items)..])
  {
    if item == [] {
      assert items + item == items && Unpack(items, bs) + [] == Unpack(items, bs);
    } else {
      assert item == [item[0]];
      OneMore(items, item[0]);
    }
  }

  /** The switch of usbi_parse_descriptor. */
  method TakeField(source: seq<byte>, at: nat, c: char) returns (width: nat, field: seq<Value>)
    requires at <= |source| && (ItemOf(c) != [] ==> at + Width(ItemOf(c)[0]) <= |source|)
    ensures width == (if ItemOf(c) == [] then 0 else Width(ItemOf(c)[0])) && field == Field(ItemOf(c), source[at..])
  {
    if c == 'b' {
      return 1, [Number(source[at])];
    } else if c == 'w' {
      return 2, [Number(FromLittleEndian(source[at], source[at + 1]))];
    } else if c == 'd' {
      return 4, [Number(FromLittleEndian(source[at], source[at + 1])
                        + 0x1_0000 * (FromLittleEndian(source[at + 2], source[at + 3]) as int))];
    } else if c == 'u' {
      assert source[at..][..16] == source[at..at + 16];
      return 16, [Uuid(source[at..at + 16])];
    }
    return 0, [];
  }

  lemma NothingYet(bs: seq<byte>)
    ensures Items("") == [] && TotalWidth([]) == 0 && Unpack([], bs) == []
  {
  }

  /** usbi_parse_descriptor; the result is the number of octets taken from the source. */
  method ParseDescriptor(source: seq<byte>, descriptor: string) returns (taken: nat, dest: seq<Value>)
    requires |source| >= TotalWidth(Items(descriptor))
    ensures taken == TotalWidth(Items(descriptor)) && dest == Unpack(Items(descriptor), source)
  {
    hide Unpack, TotalWidth, Items;
    taken, dest := 0, [];
    var cp := 0;
    NothingYet(source);
    assert descriptor[..0] == "";
    while cp < |descriptor|
      invariant 0 <= cp <= |descriptor|
      invariant taken == TotalWidth(Items(descriptor[..cp])) <= |source| && dest == Unpack(Items(descriptor[..cp]), source)
    {
      ghost var before := Items(descriptor[..cp]);
      NextItem(descriptor, cp);
      PrefixWidth(descriptor, cp + 1);
      MoreFields(before, ItemOf(descriptor[cp]), source);
      var width, field := TakeField(source, taken, descriptor[cp]);
      taken, dest := taken + width, dest + field;
      cp := cp + 1;
    }
    assert descriptor[..cp] == descriptor;
  }

  // ---------------------------------------------------------------- the formats in use

  /** A field of one octet, or of two, at the end of a format. */
  lemma FieldAt(items: seq<Item>, i: Item, bs: seq<byte>, at: nat)
    requires TotalWidth(items) == at && at + Width(i) <= |bs| && (i == B || i == W)
    ensures TotalWidth(items + [i]) == at + Width(i)
    ensures Unpack(items + [i], bs) ==
            Unpack(items, bs) + [Number(if i == B then bs[at] else FromLittleEndian(bs[at], bs[at + 1]))]
  {
    OneMore(items, i);
  }

  /** The fields parse_endpoint takes with its longer format are those of its endpoint. */
  lemma AudioEndpointFormat(bs: seq<byte>)
    requires |bs| >= AUDIO_ENDPOINT_SIZE && bs[0] >= AUDIO_ENDPOINT_SIZE
    ensures var format := [B, B, B, B, W, B, B, B];
            TotalWidth(format) == AUDIO_ENDPOINT_SIZE
            && var e := EndpointFields(bs);
               Unpack(format, bs) == [Number(e.bLength), Number(e.bDescriptorType), Number(e.bEndpointAddress),
                                      Number(e.bmAttributes), Number(e.wMaxPacketSize), Number(e.bInterval),
                                      Number(e.bRefresh), Number(e.bSynchAddress)]
  {
    hide Unpack, TotalWidth;
    Shorter(bs);
    var f := [B, B, B, B, W, B];
    FieldAt(f, B, bs, 7);
    FieldAt(f + [B], B, bs, 8);
    assert f + [B] + [B] == [B, B, B, B, W, B, B, B];
  }

  lemma Shorter(bs: seq<byte>)
    requires |bs| >= ENDPOINT_SIZE
    ensures var format := [B, B, B, B, W, B];
            TotalWidth(format) == ENDPOINT_SIZE
            && Unpack(format, bs) == [Number(bs[0]), Number(bs[1]), Number(bs[2]), Number(bs[3]),
                                      Number(FromLittleEndian(bs[4], bs[5])), Number(bs[6])]
  {
    hide Unpack, TotalWidth;
    FourOctets(bs);
    var f := [B, B, B, B];
    FieldAt(f, W, bs, 4);
    FieldAt(f + [W], B, bs, 6);
    assert f + [W] + [B] == [B, B, B, B, W, B];
  }

  lemma FourOctets(bs: seq<byte>)
    requires |bs| >= 4
    ensures TotalWidth([B, B, B, B]) == 4
    ensures Unpack([B, B, B, B], bs) == [Number(bs[0]), Number(bs[1]), Number(bs[2]), Number(bs[3])]
  {
    hide Unpack, TotalWidth;
    NothingYet(bs);
    FieldAt([], B, bs, 0);
    assert [] + [B] == [B];
    FieldAt([B], B, bs, 1);
    assert [B] + [B] == [B, B];
    FieldAt([B, B], B, bs, 2);
    assert [B, B] + [B] == [B, B, B];
    FieldAt([B, B, B], B, bs, 3);
    assert [B, B, B] + [B] == [B, B, B, B];
  }

  /** And with the shorter format, the last two staying zero. */
  lemma EndpointFormat(bs: seq<byte>)
    requires |bs| >= ENDPOINT_SIZE && bs[0] < AUDIO_ENDPOINT_SIZE
    ensures var e := EndpointFields(bs);
            && TotalWidth([B, B, B, B, W, B]) == ENDPOINT_SIZE
            && Unpack([B, B, B, B, W, B], bs) == [Number(e.bLength), Number(e.bDescriptorType), Number(e.bEndpointAddress),
                                                  Number(e.bmAttributes), Number(e.wMaxPacketSize), Number(e.bInterval)]
            && e.bRefresh == e.bSynchAddress == 0
  {
    hide Unpack, TotalWidth;
    Shorter(bs);
  }
}
