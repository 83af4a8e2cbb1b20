/** Configuration trees written out as octets, and read back by the parsers. */
module DescriptorRoundTrip {
  import opened Bytes
  import opened Descriptors

  /** Class- or vendor-specific descriptors, one after the other. */
  predicate Blocks(bs: seq<byte>)
    decreases |bs|
  {
    bs != [] ==> |bs| >= HEADER && HEADER <= bs[0] <= |bs| && !Proper(bs[1]) && Blocks(bs[bs[0]..])
  }

  /** Nothing, or a proper descriptor that is all there: what may follow a row of blocks. */
  predicate Ends(bs: seq<byte>) {
    bs == [] || (|bs| >= HEADER && HEADER <= bs[0] <= |bs| && Proper(bs[1]))
  }

  predicate GoodEndpoint(e: Endpoint) {
    && e.bDescriptorType == DT_ENDPOINT && Blocks(e.extra)
    && (e.bLength == AUDIO_ENDPOINT_SIZE || (e.bLength == ENDPOINT_SIZE && e.bRefresh == 0 && e.bSynchAddress == 0))
  }

  function EndpointHeader(e: Endpoint): (r: seq<byte>)
    ensures |r| == if e.bLength == AUDIO_ENDPOINT_SIZE then AUDIO_ENDPOINT_SIZE else ENDPOINT_SIZE
  {
    [e.bLength, e.bDescriptorType, e.bEndpointAddress, e.bmAttributes] + LittleEndian(e.wMaxPacketSize) + [e.bInterval] +
    if e.bLength == AUDIO_ENDPOINT_SIZE then [e.bRefresh, e.bSynchAddress] else []
  }

  function PrintEndpoint(e: Endpoint): seq<byte> {
    EndpointHeader(e) + e.extra
  }

  function PrintEndpoints(es: seq<Endpoint>): seq<byte> {
    if es == [] then [] else PrintEndpoint(es[0]) + PrintEndpoints(es[1..])
  }

  predicate GoodAlt(alt: AltSetting) {
    && alt.bLength == INTERFACE_SIZE && alt.bDescriptorType == DT_INTERFACE && Blocks(alt.extra)
    && alt.endpoints.Some? && alt.bNumEndpoints == |alt.endpoints.value| <= MAX_ENDPOINTS
    && forall i :: 0 <= i < |alt.endpoints.value| ==> GoodEndpoint(alt.endpoints.value[i])
  }

  function AltHeader(alt: AltSetting): (r: seq<byte>)
    ensures |r| == INTERFACE_SIZE
  {
    [alt.bLength, alt.bDescriptorType, alt.bInterfaceNumber, alt.bAlternateSetting, alt.bNumEndpoints, alt.bInterfaceClass,
     alt.bInterfaceSubClass, alt.bInterfaceProtocol, alt.iInterface]
  }

  function PrintAlt(alt: AltSetting): seq<byte>
    requires alt.endpoints.Some?
  {
    AltHeader(alt) + alt.extra + PrintEndpoints(alt.endpoints.value)
  }

  /** The alternate settings of one interface. */
  predicate GoodInterface(alts: seq<AltSetting>) {
    && alts != []
    && forall i :: 0 <= i < |alts| ==> GoodAlt(alts[i]) && alts[i].bInterfaceNumber == alts[0].bInterfaceNumber
  }

  function PrintInterface(alts: seq<AltSetting>): seq<byte>
    requires forall i :: 0 <= i < |alts| ==> alts[i].endpoints.Some?
  {
    if alts == [] then [] else PrintAlt(alts[0]) + PrintInterface(alts[1..])
  }

  /** Interfaces that follow one another have different numbers. */
  predicate GoodInterfaces(groups: seq<seq<AltSetting>>) {
    && (forall i :: 0 <= i < |groups| ==> GoodInterface(groups[i]))
    && forall i :: 0 <= i < |groups| - 1 ==> groups[i][0].bInterfaceNumber != groups[i + 1][0].bInterfaceNumber
  }

  function PrintInterfaces(groups: seq<seq<AltSetting>>): seq<byte>
    requires forall i :: 0 <= i < |groups| ==> GoodInterface(groups[i])
  {
    if groups == [] then []
    else
      assert GoodInterface(groups[0]);
      PrintInterface(groups[0]) + PrintInterfaces(groups[1..])
  }

  predicate GoodConfig(c: Config) {
    && c.bLength == CONFIG_SIZE && c.bDescriptorType == DT_CONFIG && Blocks(c.extra)
    && c.bNumInterfaces == |c.interfaces| <= MAX_INTERFACES && GoodInterfaces(c.interfaces)
    && (c.interfaces == [] ==> c.extra == [])
  }

  function ConfigHeader(c: Config): (r: seq<byte>)
    ensures |r| == CONFIG_SIZE
  {
    [c.bLength, c.bDescriptorType] + LittleEndian(c.wTotalLength) +
    [c.bNumInterfaces, c.bConfigurationValue, c.iConfiguration, c.bmAttributes, c.MaxPower]
  }

  function PrintConfig(c: Config): seq<byte>
    requires GoodConfig(c)
  {
    ConfigHeader(c) + c.extra + PrintInterfaces(c.interfaces)
  }

  // ---------------------------------------------------------------- reading back

  lemma WordBack(w: word)
    ensures FromLittleEndian(LittleEndian(w)[0], LittleEndian(w)[1]) == w
  {
  }

  /** A row of blocks is skipped to its end. */
  lemma {:induction false} SkipBlocks(blocks: seq<byte>, rest: seq<byte>)
    requires Blocks(blocks) && Ends(rest)
    ensures Skip(blocks + rest) == Stop(|blocks|)
    decreases |blocks|
  {
    var bs := blocks + rest;
    if blocks == [] {
      assert bs == rest;
    } else {
      var n := blocks[0];
      assert bs[n..] == blocks[n..] + rest;
      SkipBlocks(blocks[n..], rest);
    }
  }

  /** Where the pieces of header + blocks + rest lie. */
  lemma Pieces(header: seq<byte>, blocks: seq<byte>, rest: seq<byte>)
    ensures var bs := header + blocks + rest;
            && bs[|header|..] == blocks + rest
            && bs[|header|..|header| + |blocks|] == blocks
            && bs[|header| + |blocks|..] == rest
            && forall i :: 0 <= i < |header| ==> bs[i] == header[i]
  {
  }

  lemma EndpointFieldsBack(bs: seq<byte>, e: Endpoint)
    requires GoodEndpoint(e) && |bs| >= |EndpointHeader(e)|
    requires forall i :: 0 <= i < |EndpointHeader(e)| ==> bs[i] == EndpointHeader(e)[i]
    ensures EndpointFields(bs) == e.(extra := [])
  {
    WordBack(e.wMaxPacketSize);
    var h := EndpointHeader(e);
    assert h[4] == LittleEndian(e.wMaxPacketSize)[0] && h[5] == LittleEndian(e.wMaxPacketSize)[1];
  }

  lemma EndpointBack(e: Endpoint, rest: seq<byte>)
    requires GoodEndpoint(e) && Ends(rest)
    ensures ParseEndpoint(PrintEndpoint(e) + rest) == Parsed(|PrintEndpoint(e)|, Some(e))
    ensures Ends(PrintEndpoint(e) + rest)
  {
    var h := EndpointHeader(e);
    var bs := PrintEndpoint(e) + rest;
    assert bs == h + e.extra + rest;
    Pieces(h, e.extra, rest);
    SkipBlocks(e.extra, rest);
    EndpointFieldsBack(bs, e);
    assert h[0] == e.bLength && h[1] == e.bDescriptorType;
  }

  lemma {:induction false} EndpointsBack(es: seq<Endpoint>, rest: seq<byte>)
    requires (forall i :: 0 <= i < |es| ==> GoodEndpoint(es[i])) && Ends(rest)
    ensures ParseEndpoints(PrintEndpoints(es) + rest, |es|) == Parsed(|PrintEndpoints(es)|, es)
    ensures Ends(PrintEndpoints(es) + rest)
    decreases |es|
  {
    hide ParseEndpoint, PrintEndpoint, Ends, GoodEndpoint;
    if es == [] {
      assert PrintEndpoints(es) + rest == rest;
    } else {
      var first, others := PrintEndpoint(es[0]), PrintEndpoints(es[1..]);
      EndpointsBack(es[1..], rest);
      EndpointBack(es[0], others + rest);
      assert PrintEndpoints(es) + rest == first + (others + rest);
      assert (first + (others + rest))[|first|..] == others + rest;
      assert [es[0]] + es[1..] == es;
    }
  }

  lemma AltBack(alt: AltSetting, rest: seq<byte>)
    requires GoodAlt(alt) && Ends(rest)
    ensures ParseAlt(PrintAlt(alt) + rest) == Parsed(|PrintAlt(alt)|, One(alt, false))
    ensures Ends(PrintAlt(alt) + rest) && Alternate(PrintAlt(alt) + rest, alt.bInterfaceNumber)
  {
    hide ParseEndpoints, PrintEndpoints, GoodEndpoint, Blocks, Skip;
    var h, es := AltHeader(alt), PrintEndpoints(alt.endpoints.value);
    var bs := PrintAlt(alt) + rest;
    assert bs == h + alt.extra + (es + rest);
    Pieces(h, alt.extra, es + rest);
    EndpointsBack(alt.endpoints.value, rest);
    SkipBlocks(alt.extra, es + rest);
    assert forall i :: 0 <= i < INTERFACE_SIZE ==> bs[i] == h[i];
  }

  lemma {:induction false} InterfaceBack(alts: seq<AltSetting>, rest: seq<byte>)
    requires GoodInterface(alts) && Ends(rest) && !Alternate(rest, alts[0].bInterfaceNumber)
    ensures ParseInterface(PrintInterface(alts) + rest) == Parsed(|PrintInterface(alts)|, alts)
    ensures Ends(PrintInterface(alts) + rest) && Alternate(PrintInterface(alts) + rest, alts[0].bInterfaceNumber)
    decreases |alts|
  {
    hide ParseAlt, PrintAlt, Ends, GoodAlt, Alternate;
    GoodHas(alts);
    var first, others := PrintAlt(alts[0]), PrintInterface(alts[1..]);
    assert PrintInterface(alts) + rest == first + (others + rest);
    assert (first + (others + rest))[|first|..] == others + rest;
    assert [alts[0]] + alts[1..] == alts;
    if |alts| == 1 {
      assert others + rest == rest && alts == [alts[0]];
    } else {
      InterfaceBack(alts[1..], rest);
    }
    AltBack(alts[0], others + rest);
  }

  lemma NoBlocks()
    ensures Blocks([])
  {
  }

  lemma OtherNumber(bs: seq<byte>, a: byte, b: byte)
    requires Alternate(bs, a) && a != b
    ensures !Alternate(bs, b)
  {
  }

  lemma NoAlternate(a: byte)
    ensures !Alternate([], a)
  {
  }

  lemma GoodHas(alts: seq<AltSetting>)
    requires GoodInterface(alts)
    ensures forall i :: 0 <= i < |alts| ==> alts[i].endpoints.Some?
    ensures |alts| > 1 ==> GoodInterface(alts[1..]) && alts[1].bInterfaceNumber == alts[0].bInterfaceNumber
  {
  }

  /** One turn of parse_configuration's loop. */
  lemma BodyStep(bs: seq<byte>, count: nat, k: nat, used: nat, alts: seq<AltSetting>, kept: seq<byte>, extra: seq<byte>,
                 more: nat, groups: seq<seq<AltSetting>>)
    requires Skip(bs) == Stop(k) && k + used <= |bs| && used > 0 && kept == (if extra == [] then bs[..k] else extra)
    requires ParseInterface(bs[k..]) == Parsed(used, alts)
    requires ParseBody(bs[k + used..], count, kept) == Parsed(more, Body(kept, groups))
    ensures ParseBody(bs, count + 1, extra) == Parsed(k + used + more, Body(kept, [alts] + groups))
  {
    hide Skip, ParseInterface;
  }

  lemma NothingBack(bs: seq<byte>, extra: seq<byte>)
    requires bs == [] + PrintInterfaces([])
    ensures bs == [] && ParseBody(bs, 0, extra) == Parsed(0, Body(extra, [])) && Ends(PrintInterfaces([]))
  {
  }

  lemma InThree(bs: seq<byte>, a: seq<byte>, b: seq<byte>, c: seq<byte>)
    requires bs == a + (b + c)
    ensures |bs| == |a| + |b| + |c| && bs[..|a|] == a && bs[|a|..] == b + c && bs[|a| + |b|..] == c
  {
  }

  lemma {:induction false} BodyBack(bs: seq<byte>, blocks: seq<byte>, groups: seq<seq<AltSetting>>, extra: seq<byte>)
    requires Blocks(blocks) && GoodInterfaces(groups) && (groups == [] ==> blocks == [])
    requires bs == blocks + PrintInterfaces(groups)
    ensures ParseBody(bs, |groups|, extra) == Parsed(|bs|, Body(if extra == [] then blocks else extra, groups))
    ensures Ends(PrintInterfaces(groups))
    ensures groups != [] ==> Alternate(PrintInterfaces(groups), groups[0][0].bInterfaceNumber)
    decreases |groups|
  {
    hide ParseInterface, ParseBody, PrintInterface, PrintInterfaces, GoodInterface, GoodInterfaces, Alternate,
        Skip, Ends, Blocks;
    if groups == [] {
      NothingBack(bs, extra);
    } else {
      var kept := if extra == [] then blocks else extra;
      var first, others := PrintFirst(groups);
      assert Blocks([]) by { NoBlocks(); }
      assert others == [] + others;
      BodyBack(others, [], groups[1..], kept);
      if |groups| > 1 {
        OtherNumber(others, groups[1][0].bInterfaceNumber, groups[0][0].bInterfaceNumber);
      } else {
        NoAlternate(groups[0][0].bInterfaceNumber);
      }
      InterfaceBack(groups[0], others);
      BodyTurn(bs, blocks, first, others, extra, kept, groups[0], groups[1..]);
      assert [groups[0]] + groups[1..] == groups;
    }
  }

  lemma BodyTurn(bs: seq<byte>, blocks: seq<byte>, first: seq<byte>, others: seq<byte>, extra: seq<byte>, kept: seq<byte>,
                 alts: seq<AltSetting>, groups: seq<seq<AltSetting>>)
    requires Blocks(blocks) && first != [] && Ends(first + others) && bs == blocks + (first + others)
    requires ParseInterface(first + others) == Parsed(|first|, alts) && kept == (if extra == [] then blocks else extra)
    requires ParseBody(others, |groups|, kept) == Parsed(|others|, Body(kept, groups))
    ensures ParseBody(bs, |groups| + 1, extra) == Parsed(|bs|, Body(kept, [alts] + groups))
  {
    hide *;
    SkipBlocks(blocks, first + others);
    InThree(bs, blocks, first, others);
    BodyStep(bs, |groups|, |blocks|, |first|, alts, kept, extra, |others|, groups);
  }

  /** The first interface and the rest, which starts another interface or is empty. */
  lemma PrintFirst(groups: seq<seq<AltSetting>>) returns (first: seq<byte>, others: seq<byte>)
    requires GoodInterfaces(groups) && groups != []
    ensures GoodInterface(groups[0]) && GoodInterfaces(groups[1..])
    ensures first == PrintInterface(groups[0]) && others == PrintInterfaces(groups[1..])
    ensures PrintInterfaces(groups) == first + others && groups[0] != []
    ensures groups[1..] == [] ==> others == []
    ensures |groups| > 1 ==> groups[1] != [] && groups[1][0].bInterfaceNumber != groups[0][0].bInterfaceNumber
  {
    first, others := PrintInterface(groups[0]), PrintInterfaces(groups[1..]);
  }

  lemma ConfigFieldsBack(c: Config, bs: seq<byte>)
    requires |bs| >= CONFIG_SIZE && forall i :: 0 <= i < CONFIG_SIZE ==> bs[i] == ConfigHeader(c)[i]
    ensures ConfigFields(bs) == c.(extra := [], interfaces := [])
  {
    WordBack(c.wTotalLength);
    var h := ConfigHeader(c);
    assert h[2] == LittleEndian(c.wTotalLength)[0] && h[3] == LittleEndian(c.wTotalLength)[1];
    assert h[0] == c.bLength && h[1] == c.bDescriptorType && h[4] == c.bNumInterfaces && h[5] == c.bConfigurationValue;
    assert h[6] == c.iConfiguration && h[7] == c.bmAttributes && h[8] == c.MaxPower;
  }

  /** Any well-formed configuration tree, written out and parsed, is the same tree again, with no octet left over. */
  lemma ConfigRoundTrip(c: Config)
    requires GoodConfig(c)
    ensures ParseConfig(PrintConfig(c)) == Parsed(|PrintConfig(c)|, c)
  {
    hide ParseBody, PrintInterfaces, Blocks, GoodInterface;
    var bs, body := PrintConfig(c), c.extra + PrintInterfaces(c.interfaces);
    assert bs[CONFIG_SIZE..] == body;
    assert forall i :: 0 <= i < CONFIG_SIZE ==> bs[i] == ConfigHeader(c)[i];
    ConfigFieldsBack(c, bs);
    BodyBack(body, c.extra, c.interfaces, []);
  }
}
