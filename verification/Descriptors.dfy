/** USB configuration descriptors (sections 9.6.3, 9.6.5 and 9.6.6 of the USB 2.0 specification): what libusbx's parsers
    make of a buffer, and the octets a configuration tree is made of. Words are little-endian. */
module Descriptors {
  import opened Bytes

  const DT_DEVICE: byte := 1
  const DT_CONFIG: byte := 2
  const DT_INTERFACE: byte := 4
  const DT_ENDPOINT: byte := 5

  const HEADER := 2            // DESC_HEADER_LENGTH
  const CONFIG_SIZE := 9
  const INTERFACE_SIZE := 9
  const ENDPOINT_SIZE := 7
  const AUDIO_ENDPOINT_SIZE := 9
  const MAX_ENDPOINTS := 32
  const MAX_INTERFACES := 32

  datatype Endpoint = Endpoint(bLength: byte, bDescriptorType: byte, bEndpointAddress: byte, bmAttributes: byte,
                               wMaxPacketSize: word, bInterval: byte, bRefresh: byte, bSynchAddress: byte,
                               extra: seq<byte>)

  /** `endpoints` is None where the source leaves a null pointer with the header's count beside it. */
  datatype AltSetting = AltSetting(bLength: byte, bDescriptorType: byte, bInterfaceNumber: byte, bAlternateSetting: byte,
                                   bNumEndpoints: byte, bInterfaceClass: byte, bInterfaceSubClass: byte,
                                   bInterfaceProtocol: byte, iInterface: byte, extra: seq<byte>,
                                   endpoints: Option<seq<Endpoint>>)

  datatype Config = Config(bLength: byte, bDescriptorType: byte, wTotalLength: word, bNumInterfaces: byte,
                           bConfigurationValue: byte, iConfiguration: byte, bmAttributes: byte, MaxPower: byte,
                           extra: seq<byte>, interfaces: seq<seq<AltSetting>>)

  datatype Outcome<T> = Failed | Parsed(used: nat, value: T)

  /** A descriptor that ends a row of class- or vendor-specific ones. */
  predicate Proper(descriptorType: byte) {
    || descriptorType == DT_ENDPOINT || descriptorType == DT_INTERFACE
    || descriptorType == DT_CONFIG || descriptorType == DT_DEVICE
  }

  /** How a row of class-specific descriptors ends: with an impossible length, with one that is cut short, or properly. */
  datatype Row = Bad | Short(used: nat) | Stop(used: nat)

  function Lengthen(r: Row, n: nat): Row {
    match r
    case Bad => Bad
    case Short(used) => Short(n + used)
    case Stop(used) => Stop(n + used)
  }

  function Skip(bs: seq<byte>): (r: Row)
    ensures !r.Bad? ==> r.used <= |bs|
    decreases |bs|
  {
    if |bs| < HEADER then Stop(0)
    else if bs[0] < HEADER then Bad
    else if bs[0] > |bs| then Short(0)
    else if Proper(bs[1]) then Stop(0)
    else Lengthen(Skip(bs[bs[0]..]), bs[0])
  }

  // ---------------------------------------------------------------- endpoints

  function EndpointFields(bs: seq<byte>): Endpoint
    requires |bs| >= ENDPOINT_SIZE && (bs[0] >= AUDIO_ENDPOINT_SIZE ==> |bs| >= AUDIO_ENDPOINT_SIZE)
  {
    var audio := bs[0] >= AUDIO_ENDPOINT_SIZE;
    Endpoint(bs[0], bs[1], bs[2], bs[3], FromLittleEndian(bs[4], bs[5]), bs[6],
             if audio then bs[7] else 0, if audio then bs[8] else 0, [])
  }

  /** parse_endpoint; nothing used and no endpoint when something else stands here. */
  function ParseEndpoint(bs: seq<byte>): (r: Outcome<Option<Endpoint>>)
    ensures r.Parsed? ==> r.used <= |bs| && (r.used == 0 <==> r.value.None?)
  {
    if |bs| < HEADER then Failed
    else if bs[1] != DT_ENDPOINT || bs[0] > |bs| then Parsed(0, None)
    else if bs[0] < ENDPOINT_SIZE then Failed
    else
      var n := bs[0];
      match Skip(bs[n..])
      case Bad => Failed
      case Short(k) => Parsed(n + k, Some(EndpointFields(bs)))
      case Stop(k) => Parsed(n + k, Some(EndpointFields(bs).(extra := bs[n..n + k])))
  }

  /** The loop over the endpoints of an alternate setting. */
  function ParseEndpoints(bs: seq<byte>, count: nat): (r: Outcome<seq<Endpoint>>)
    ensures r.Parsed? ==> r.used <= |bs| && |r.value| <= count
    decreases count
  {
    if count == 0 then Parsed(0, [])
    else match ParseEndpoint(bs)
         case Failed => Failed
         case Parsed(used, None) => Parsed(0, [])
         case Parsed(used, Some(e)) =>
           match ParseEndpoints(bs[used..], count - 1)
           case Failed => Failed
           case Parsed(more, es) => Parsed(used + more, [e] + es)
  }

  // ---------------------------------------------------------------- interfaces

  function AltFields(bs: seq<byte>): AltSetting
    requires |bs| >= INTERFACE_SIZE
  {
    AltSetting(bs[0], bs[1], bs[2], bs[3], bs[4], bs[5], bs[6], bs[7], bs[8], [], None)
  }

  /** Another alternate setting of interface `number` stands here. */
  predicate Alternate(bs: seq<byte>, number: byte) {
    |bs| >= INTERFACE_SIZE && bs[1] == DT_INTERFACE && bs[2] == number
  }

  /** One turn of parse_interface's loop: an alternate setting with its endpoints, none where it stops, and whether the
      parser returns at once because a descriptor was cut short. */
  datatype Turn = Nothing | One(alt: AltSetting, short: bool)

  function ParseAlt(bs: seq<byte>): (r: Outcome<Turn>)
    ensures r.Parsed? ==> r.used <= |bs| && (r.used == 0 <==> r.value.Nothing?)
  {
    if |bs| < INTERFACE_SIZE || bs[1] != DT_INTERFACE then Parsed(0, Nothing)
    else if bs[0] < INTERFACE_SIZE then Failed
    else if bs[0] > |bs| then Parsed(0, Nothing)
    else if bs[4] > MAX_ENDPOINTS then Failed
    else
      var n := bs[0];
      match Skip(bs[n..])
      case Bad => Failed
      case Short(k) => Parsed(n + k, One(AltFields(bs), true))
      case Stop(k) =>
        match ParseEndpoints(bs[n + k..], bs[4])
        case Failed => Failed
        case Parsed(used, es) =>
          Parsed(n + k + used,
                 One(AltFields(bs).(extra := bs[n..n + k], endpoints := Some(es), bNumEndpoints := |es|), false))
  }

  /** parse_interface: the alternate settings that follow one another under one interface number. */
  function ParseInterface(bs: seq<byte>): (r: Outcome<seq<AltSetting>>)
    ensures r.Parsed? ==> r.used <= |bs| && (r.used == 0 <==> r.value == [])
    decreases |bs|
  {
    match ParseAlt(bs)
    case Failed => Failed
    case Parsed(used, Nothing) => Parsed(0, [])
    case Parsed(used, One(alt, short)) =>
      if short || !Alternate(bs[used..], alt.bInterfaceNumber) then Parsed(used, [alt])
      else match ParseInterface(bs[used..])
           case Failed => Failed
           case Parsed(more, alts) => Parsed(used + more, [alt] + alts)
  }

  // ---------------------------------------------------------------- configurations

  datatype Body = Body(extra: seq<byte>, interfaces: seq<seq<AltSetting>>)

  /** The loop of parse_configuration; only the first row of class-specific descriptors is kept. */
  function ParseBody(bs: seq<byte>, count: nat, extra: seq<byte>): (r: Outcome<Body>)
    ensures r.Parsed? ==> r.used <= |bs| && |r.value.interfaces| <= count
    decreases count
  {
    if count == 0 then Parsed(0, Body(extra, []))
    else match Skip(bs)
         case Bad => Failed
         case Short(k) => Parsed(k, Body(extra, []))
         case Stop(k) =>
           var kept := if extra == [] then bs[..k] else extra;
           match ParseInterface(bs[k..])
           case Failed => Failed
           case Parsed(used, alts) =>
             if used == 0 then Parsed(k, Body(kept, []))
             else match ParseBody(bs[k + used..], count - 1, kept)
                  case Failed => Failed
                  case Parsed(more, body) => Parsed(k + used + more, Body(body.extra, [alts] + body.interfaces))
  }

  function ConfigFields(bs: seq<byte>): Config
    requires |bs| >= CONFIG_SIZE
  {
    Config(bs[0], bs[1], FromLittleEndian(bs[2], bs[3]), bs[4], bs[5], bs[6], bs[7], bs[8], [], [])
  }

  /** parse_configuration; the source returns the octets left, |bs| - used. */
  function ParseConfig(bs: seq<byte>): (r: Outcome<Config>)
    ensures r.Parsed? ==> r.used <= |bs|
  {
    if |bs| < CONFIG_SIZE || bs[1] != DT_CONFIG || bs[0] < CONFIG_SIZE || bs[0] > |bs| || bs[4] > MAX_INTERFACES then Failed
    else match ParseBody(bs[bs[0]..], bs[4], [])
         case Failed => Failed
         case Parsed(used, body) =>
           Parsed(bs[0] + used, ConfigFields(bs).(extra := body.extra, interfaces := body.interfaces,
                                                  bNumInterfaces := |body.interfaces|))
  }

  // ---------------------------------------------------------------- counts

  function EndpointsHeld(alt: AltSetting): nat {
    if alt.endpoints.None? then 0 else |alt.endpoints.value|
  }

  predicate Counted(alt: AltSetting) {
    EndpointsHeld(alt) == alt.bNumEndpoints
  }

  /** The number of endpoints an alternate setting reports is the number it holds, unless its header promises some and a
      class-specific descriptor right behind it is cut short: then the count stays without any endpoints. */
  lemma AltCounts(bs: seq<byte>)
    requires ParseAlt(bs).Parsed? && ParseAlt(bs).value.One?
    ensures var alt := ParseAlt(bs).value.alt;
            && (Counted(alt) <==> !(Skip(bs[bs[0]..]).Short? && bs[4] > 0))
            && (!Counted(alt) ==> alt.endpoints == None && ParseAlt(bs).value.short)
            && alt.bInterfaceNumber == bs[2]
  {
  }

  /** One interface number throughout, and only the last alternate setting can be miscounted. */
  predicate Grouped(alts: seq<AltSetting>) {
    && alts != []
    && (forall i :: 0 <= i < |alts| - 1 ==> Counted(alts[i]))
    && forall i :: 0 <= i < |alts| ==> alts[i].bInterfaceNumber == alts[0].bInterfaceNumber
  }

  lemma GroupedMore(alt: AltSetting, alts: seq<AltSetting>)
    requires Counted(alt) && (alts == [] || (Grouped(alts) && alts[0].bInterfaceNumber == alt.bInterfaceNumber))
    ensures Grouped([alt] + alts)
  {
    var all := [alt] + alts;
    forall i | 0 <= i < |all|
      ensures all[i].bInterfaceNumber == alt.bInterfaceNumber && (i < |all| - 1 ==> Counted(all[i]))
    {
      if i > 0 {
        assert all[i] == alts[i - 1];
      }
    }
  }

  lemma {:induction false} InterfaceGrouped(bs: seq<byte>)
    requires ParseInterface(bs).Parsed? && ParseInterface(bs).value != []
    ensures Grouped(ParseInterface(bs).value) && |bs| > 2 && ParseInterface(bs).value[0].bInterfaceNumber == bs[2]
    decreases |bs|
  {
    AltCounts(bs);
    hide ParseAlt, Skip, Counted, Grouped;
    var used, alt, short := ParseAlt(bs).used, ParseAlt(bs).value.alt, ParseAlt(bs).value.short;
    var rest := bs[used..];
    if short || !Alternate(rest, alt.bInterfaceNumber) {
      SingleGrouped(alt);
    } else {
      var alts := ParseInterface(rest).value;
      if alts != [] {
        InterfaceGrouped(rest);
      }
      GroupedMore(alt, alts);
    }
  }

  lemma SingleGrouped(alt: AltSetting)
    ensures Grouped([alt])
  {
  }

  lemma {:induction false} BodyGrouped(bs: seq<byte>, count: nat, extra: seq<byte>, i: nat)
    requires ParseBody(bs, count, extra).Parsed? && i < |ParseBody(bs, count, extra).value.interfaces|
    ensures Grouped(ParseBody(bs, count, extra).value.interfaces[i])
    decreases count
  {
    hide ParseInterface, Skip, Grouped;
    var k := Skip(bs).used;
    var used := ParseInterface(bs[k..]).used;
    if i > 0 {
      BodyGrouped(bs[k + used..], count - 1, if extra == [] then bs[..k] else extra, i - 1);
    } else {
      InterfaceGrouped(bs[k..]);
    }
  }

  /** Whatever the octets, a parsed configuration counts its interfaces right, and every interface is a group of alternate
      settings under one number. */
  lemma ConfigCounts(bs: seq<byte>)
    requires ParseConfig(bs).Parsed?
    ensures var config := ParseConfig(bs).value;
            && config.bNumInterfaces == |config.interfaces| <= bs[4]
            && forall i :: 0 <= i < |config.interfaces| ==> Grouped(config.interfaces[i])
  {
    hide ParseBody, Grouped;
    var config, rest := ParseConfig(bs).value, bs[bs[0]..];
    forall i | 0 <= i < |config.interfaces|
      ensures Grouped(config.interfaces[i])
    {
      BodyGrouped(rest, bs[4], [], i);
    }
  }
}
