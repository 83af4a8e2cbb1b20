/** The descriptor parsers of libusbx as they run: a pointer and a size advance through the buffer together, and the output
    structures fill up. Each equals its specification on the octets it was given, so nothing behind them is ever used. */
module DescriptorParser {
  import opened Bytes
  import opened Descriptors

  /** The octets between the pointer and the end. */
  function View(buffer: seq<byte>, at: nat, size: nat): (r: seq<byte>)
    requires at + size <= |buffer|
    ensures |r| == size && forall i :: 0 <= i < size ==> r[i] == buffer[at + i]
  {
    buffer[at..at + size]
  }

  lemma ViewTail(buffer: seq<byte>, at: nat, size: nat, n: nat)
    requires at + size <= |buffer| && n <= size
    ensures View(buffer, at, size)[n..] == View(buffer, at + n, size - n)
    ensures View(buffer, at, size)[..n] == buffer[at..at + n]
  {
  }

  lemma ViewMiddle(buffer: seq<byte>, at: nat, size: nat, n: nat, k: nat)
    requires at + size <= |buffer| && n + k <= size
    ensures View(buffer, at, size)[n..n + k] == buffer[at + n..at + n + k]
  {
  }

  lemma LengthenTwice(r: Row, a: nat, b: nat)
    ensures Lengthen(Lengthen(r, a), b) == Lengthen(r, a + b)
  {
  }

  /** The loop, found three times in the source, over class- and vendor-specific descriptors. */
  method SkipRow(buffer: seq<byte>, start: nat, length: nat) returns (row: Row)
    requires start + length <= |buffer|
    ensures row == Skip(View(buffer, start, length))
  {
    hide Skip, View, Proper;
    var at: nat, size: nat, skipped: nat := start, length, 0;
    LengthenNone(Skip(View(buffer, start, length)));
    while size >= HEADER
      invariant at == start + skipped && size == length - skipped
      invariant Skip(View(buffer, start, length)) == Lengthen(Skip(View(buffer, at, size)), skipped)
      decreases size
    {
      var bLength, bDescriptorType := buffer[at], buffer[at + 1];
      SkipTurn(View(buffer, at, size));
      if bLength < HEADER {
        return Bad;
      } else if bLength > size {
        return Short(skipped);
      }
      if Proper(bDescriptorType) {
        break;
      }
      ViewTail(buffer, at, size, bLength);
      LengthenTwice(Skip(View(buffer, at + bLength, size - bLength)), bLength, skipped);
      at := at + bLength;
      size := size - bLength;
      skipped := skipped + bLength;
    }
    SkipTurn(View(buffer, at, size));
    return Stop(skipped);
  }

  lemma LengthenNone(r: Row)
    ensures Lengthen(r, 0) == r
  {
  }

  /** One turn of the loop in terms of what comes after it. */
  lemma SkipTurn(bs: seq<byte>)
    ensures Skip(bs) ==
            if |bs| < HEADER then Stop(0)
            else if bs[0] < HEADER then Bad
            else if bs[0] > |bs| then Short(0)
            else if Proper(bs[1]) then Stop(0)
            else Lengthen(Skip(bs[bs[0]..]), bs[0])
  {
  }

  /** The fields of an endpoint descriptor, of the long form or the short. */
  method ReadEndpoint(buffer: seq<byte>, at: nat, size: nat) returns (endpoint: Endpoint)
    requires at + size <= |buffer| && ENDPOINT_SIZE <= size && buffer[at] <= size
    ensures endpoint == EndpointFields(View(buffer, at, size))
  {
    if buffer[at] >= AUDIO_ENDPOINT_SIZE {
      endpoint := Endpoint(buffer[at], buffer[at + 1], buffer[at + 2], buffer[at + 3],
                           FromLittleEndian(buffer[at + 4], buffer[at + 5]), buffer[at + 6], buffer[at + 7],
                                            buffer[at + 8], []);
    } else {
      endpoint := Endpoint(buffer[at], buffer[at + 1], buffer[at + 2], buffer[at + 3],
                           FromLittleEndian(buffer[at + 4], buffer[at + 5]), buffer[at + 6], 0, 0, []);
    }
  }

  /** parse_endpoint */
  method ParseEndpointAt(buffer: seq<byte>, at: nat, size: nat) returns (r: Outcome<Option<Endpoint>>)
    requires at + size <= |buffer|
    ensures r == ParseEndpoint(View(buffer, at, size))
  {
    hide Skip;
    if size < HEADER {
      return Failed;
    }
    var bLength := buffer[at];
    if buffer[at + 1] != DT_ENDPOINT {
      return Parsed(0, None);
    }
    if bLength > size {
      return Parsed(0, None);
    }
    if bLength < ENDPOINT_SIZE {
      return Failed;
    }
    var endpoint := ReadEndpoint(buffer, at, size);
    ViewTail(buffer, at, size, bLength);
    var row := SkipRow(buffer, at + bLength, size - bLength);
    match row {
      case Bad =>
        return Failed;
      case Short(k) =>
        return Parsed(bLength + k, Some(endpoint));
      case Stop(k) =>
        ViewMiddle(buffer, at, size, bLength, k);
        endpoint := endpoint.(extra := buffer[at + bLength..at + bLength + k]);
        return Parsed(bLength + k, Some(endpoint));
    }
  }

  /** What is parsed so far, in front of what is parsed from here. */
  function Resumed<T>(done: nat, values: seq<T>, r: Outcome<seq<T>>): Outcome<seq<T>> {
    match r
    case Failed => Failed
    case Parsed(used, more) => Parsed(done + used, values + more)
  }

  lemma ResumedStep<T>(done: nat, values: seq<T>, used: nat, value: T, r: Outcome<seq<T>>)
    ensures Resumed(done, values, Resumed(used, [value], r)) == Resumed(done + used, values + [value], r)
  {
    if r.Parsed? {
      assert values + ([value] + r.value) == values + [value] + r.value;
    }
  }

  lemma ResumedStart<T>(r: Outcome<seq<T>>)
    ensures Resumed(0, [], r) == r
  {
    if r.Parsed? {
      assert [] + r.value == r.value;
    }
  }

  lemma ResumedLast<T>(done: nat, values: seq<T>)
    ensures Resumed(done, values, Parsed(0, [])) == Parsed(done, values)
  {
    assert values + [] == values;
  }

  /** The endpoints of an alternate setting. */
  method ParseEndpointsAt(buffer: seq<byte>, start: nat, length: nat, count: nat) returns (r: Outcome<seq<Endpoint>>)
    requires start + length <= |buffer|
    ensures r == ParseEndpoints(View(buffer, start, length), count)
  {
    hide ParseEndpoint, ParseEndpoints, View;
    ghost var whole := ParseEndpoints(View(buffer, start, length), count);
    var at: nat, size: nat, endpoints := start, length, [];
    var i := 0;
    ResumedStart(whole);
    while i < count
      invariant 0 <= i <= count && start <= at && at + size == start + length
      invariant whole == Resumed(at - start, endpoints, ParseEndpoints(View(buffer, at, size), count - i))
    {
      var one := ParseEndpointAt(buffer, at, size);
      EndpointsTurn(View(buffer, at, size), count - i);
      if one == Failed {
        return Failed;
      }
      if one.used == 0 {
        ResumedLast(at - start, endpoints);
        return Parsed(at - start, endpoints);
      }
      ViewTail(buffer, at, size, one.used);
      ResumedStep(at - start, endpoints, one.used, one.value.value,
                  ParseEndpoints(View(buffer, at + one.used, size - one.used), count - i - 1));
      at := at + one.used;
      size := size - one.used;
      endpoints := endpoints + [one.value.value];
      i := i + 1;
    }
    EndpointsTurn(View(buffer, at, size), 0);
    ResumedLast(at - start, endpoints);
    return Parsed(at - start, endpoints);
  }

  /** One turn of the loop over the endpoints in terms of what comes after it. */
  lemma EndpointsTurn(bs: seq<byte>, count: nat)
    ensures var one := ParseEndpoint(bs);
            ParseEndpoints(bs, count) ==
              if count == 0 then Parsed(0, [])
              else if one.Failed? then Failed
              else if one.value.None? then Parsed(0, [])
              else Resumed(one.used, [one.value.value], ParseEndpoints(bs[one.used..], count - 1))
  {
  }

  /** The fields of an interface descriptor. */
  method ReadAlt(buffer: seq<byte>, at: nat, size: nat) returns (alt: AltSetting)
    requires at + size <= |buffer| && INTERFACE_SIZE <= size
    ensures alt == AltFields(View(buffer, at, size))
  {
    alt := AltSetting(buffer[at], buffer[at + 1], buffer[at + 2], buffer[at + 3], buffer[at + 4], buffer[at + 5],
                      buffer[at + 6], buffer[at + 7], buffer[at + 8], [], None);
  }

  /** The body of parse_interface's loop. */
  method ParseAltAt(buffer: seq<byte>, at: nat, size: nat) returns (r: Outcome<Turn>)
    requires at + size <= |buffer|
    ensures r == ParseAlt(View(buffer, at, size))
  {
    hide Skip, ParseEndpoints;
    if size < INTERFACE_SIZE {
      return Parsed(0, Nothing);
    }
    var ifp := ReadAlt(buffer, at, size);
    if ifp.bDescriptorType != DT_INTERFACE {
      return Parsed(0, Nothing);
    }
    if ifp.bLength < INTERFACE_SIZE {
      return Failed;
    }
    if ifp.bLength > size {
      return Parsed(0, Nothing);
    }
    if ifp.bNumEndpoints > MAX_ENDPOINTS {
      return Failed;
    }
    var n := ifp.bLength;
    ViewTail(buffer, at, size, n);
    var row := SkipRow(buffer, at + n, size - n);
    match row {
      case Bad =>
        return Failed;
      case Short(k) =>
        return Parsed(n + k, One(ifp, true));
      case Stop(k) =>
        ViewTail(buffer, at, size, n + k);
        ViewMiddle(buffer, at, size, n, k);
        var es := ParseEndpointsAt(buffer, at + n + k, size - n - k, ifp.bNumEndpoints);
        if es == Failed {
          return Failed;
        }
        ifp := ifp.(extra := buffer[at + n..at + n + k], endpoints := Some(es.value), bNumEndpoints := |es.value|);
        return Parsed(n + k + es.used, One(ifp, false));
    }
  }

  /** parse_interface */
  method ParseInterfaceAt(buffer: seq<byte>, start: nat, length: nat) returns (r: Outcome<seq<AltSetting>>)
    requires start + length <= |buffer|
    ensures r == ParseInterface(View(buffer, start, length))
  {
    hide ParseAlt, View;
    ghost var whole := ParseInterface(View(buffer, start, length));
    var at: nat, size: nat, alts := start, length, [];
    ResumedStart(whole);
    while size >= INTERFACE_SIZE
      invariant start <= at && at + size == start + length
      invariant whole == Resumed(at - start, alts, ParseInterface(View(buffer, at, size)))
      decreases size
    {
      var turn := ParseAltAt(buffer, at, size);
      AltTurn(View(buffer, at, size));
      if turn == Failed {
        return Failed;
      }
      if turn.value == Nothing {
        ResumedLast(at - start, alts);
        return Parsed(at - start, alts);
      }
      var alt := turn.value.alt;
      ViewTail(buffer, at, size, turn.used);
      ghost var rest := View(buffer, at + turn.used, size - turn.used);
      if turn.value.short || !Alternate(rest, alt.bInterfaceNumber) {
        ResumedStep(at - start, alts, turn.used, alt, Parsed(0, []));
      } else {
        ResumedStep(at - start, alts, turn.used, alt, ParseInterface(rest));
      }
      at := at + turn.used;
      size := size - turn.used;
      alts := alts + [alt];
      if turn.value.short {
        ResumedLast(at - start, alts);
        return Parsed(at - start, alts);
      }
      AlternateAt(buffer, at, size, alt.bInterfaceNumber);
      if size < INTERFACE_SIZE || buffer[at + 1] != DT_INTERFACE || buffer[at + 2] != alt.bInterfaceNumber {
        ResumedLast(at - start, alts);
        return Parsed(at - start, alts);
      }
    }
    AltTurn(View(buffer, at, size));
    TooShort(View(buffer, at, size));
    ResumedLast(at - start, alts);
    return Parsed(at - start, alts);
  }

  lemma AlternateAt(buffer: seq<byte>, at: nat, size: nat, number: byte)
    requires at + size <= |buffer|
    ensures Alternate(View(buffer, at, size), number) <==>
              size >= INTERFACE_SIZE && buffer[at + 1] == DT_INTERFACE && buffer[at + 2] == number
  {
  }

  lemma TooShort(bs: seq<byte>)
    requires |bs| < INTERFACE_SIZE
    ensures ParseAlt(bs) == Parsed(0, Nothing)
  {
  }

  /** One turn of parse_interface in terms of what comes after it. */
  lemma AltTurn(bs: seq<byte>)
    ensures var first := ParseAlt(bs);
            ParseInterface(bs) ==
              if first.Failed? then Failed
              else if first.value.Nothing? then Parsed(0, [])
              else if first.value.short || !Alternate(bs[first.used..], first.value.alt.bInterfaceNumber) then
                Resumed(first.used, [first.value.alt], Parsed(0, []))
              else Resumed(first.used, [first.value.alt], ParseInterface(bs[first.used..]))
  {
    var first := ParseAlt(bs);
    if first.Parsed? && first.value.One? {
      ResumedLast(first.used, [first.value.alt]);
    }
  }

  /** The loop of parse_configuration over the interfaces, and over what stands between them. */
  method ParseBodyAt(buffer: seq<byte>, start: nat, length: nat, count: nat) returns (r: Outcome<Body>)
    requires start + length <= |buffer|
    ensures r == ParseBody(View(buffer, start, length), count, [])
  {
    hide ParseInterface, ParseBody, Skip, View;
    ghost var whole := ParseBody(View(buffer, start, length), count, []);
    var at: nat, size: nat, groups, extra := start, length, [], [];
    var i := 0;
    OnwardStart(whole);
    while i < count
      invariant 0 <= i <= count && start <= at && at + size == start + length
      invariant whole == Onward(at - start, groups, ParseBody(View(buffer, at, size), count - i, extra))
    {
      BodyTurn(View(buffer, at, size), count - i, extra);
      var row := SkipRow(buffer, at, size);
      match row {
        case Bad =>
          return Failed;
        case Short(k) =>
          OnwardLast(at - start, groups, k, extra);
          return Parsed(at - start + k, Body(extra, groups));
        case Stop(k) =>
          ViewTail(buffer, at, size, k);
          if extra == [] {
            extra := buffer[at..at + k];
          }
          at := at + k;
          size := size - k;
      }
      var alts := ParseInterfaceAt(buffer, at, size);
      if alts == Failed {
        return Failed;
      }
      if alts.used == 0 {
        OnwardLast(at - start - row.used, groups, row.used, extra);
        return Parsed(at - start, Body(extra, groups));
      }
      ViewTail(buffer, at - row.used, size + row.used, row.used + alts.used);
      OnwardStep(at - start - row.used, groups, row.used + alts.used, alts.value,
                 ParseBody(View(buffer, at + alts.used, size - alts.used), count - i - 1, extra));
      at := at + alts.used;
      size := size - alts.used;
      groups := groups + [alts.value];
      i := i + 1;
    }
    BodyTurn(View(buffer, at, size), 0, extra);
    OnwardLast(at - start, groups, 0, extra);
    return Parsed(at - start, Body(extra, groups));
  }

  /** What is parsed so far, in front of what is parsed from here. */
  function Onward(done: nat, groups: seq<seq<AltSetting>>, r: Outcome<Body>): Outcome<Body> {
    if r.Failed? then Failed else Parsed(done + r.used, Body(r.value.extra, groups + r.value.interfaces))
  }

  lemma OnwardStart(r: Outcome<Body>)
    ensures Onward(0, [], r) == r
  {
    if r.Parsed? {
      assert [] + r.value.interfaces == r.value.interfaces;
    }
  }

  lemma OnwardStep(done: nat, groups: seq<seq<AltSetting>>, used: nat, alts: seq<AltSetting>, r: Outcome<Body>)
    ensures Onward(done, groups, Onward(used, [alts], r)) == Onward(done + used, groups + [alts], r)
  {
    if r.Parsed? {
      assert groups + ([alts] + r.value.interfaces) == groups + [alts] + r.value.interfaces;
    }
  }

  lemma OnwardLast(done: nat, groups: seq<seq<AltSetting>>, used: nat, extra: seq<byte>)
    ensures Onward(done, groups, Parsed(used, Body(extra, []))) == Parsed(done + used, Body(extra, groups))
  {
    assert groups + [] == groups;
  }

  /** One turn of parse_configuration's loop in terms of what comes after it. */
  lemma BodyTurn(bs: seq<byte>, count: nat, extra: seq<byte>)
    ensures var row := Skip(bs);
            ParseBody(bs, count, extra) ==
              if count == 0 then Parsed(0, Body(extra, []))
              else if row.Bad? then Failed
              else if row.Short? then Parsed(row.used, Body(extra, []))
              else
                var kept, alts := if extra == [] then bs[..row.used] else extra, ParseInterface(bs[row.used..]);
                if alts.Failed? then Failed
                else if alts.used == 0 then Parsed(row.used, Body(kept, []))
                else Onward(row.used + alts.used, [alts.value], ParseBody(bs[row.used + alts.used..], count - 1, kept))
  {
    hide Skip, ParseInterface;
  }

  /** parse_configuration */
  method ParseConfigAt(buffer: seq<byte>, at: nat, size: nat) returns (r: Outcome<Config>)
    requires at + size <= |buffer|
    ensures r == ParseConfig(View(buffer, at, size))
  {
    hide ParseBody;
    if size < CONFIG_SIZE {
      return Failed;
    }
    var config := Config(buffer[at], buffer[at + 1], FromLittleEndian(buffer[at + 2], buffer[at + 3]), buffer[at + 4],
                         buffer[at + 5], buffer[at + 6], buffer[at + 7], buffer[at + 8], [], []);
    if config.bDescriptorType != DT_CONFIG || config.bLength < CONFIG_SIZE || config.bLength > size {
      return Failed;
    }
    if config.bNumInterfaces > MAX_INTERFACES {
      return Failed;
    }
    ViewTail(buffer, at, size, config.bLength);
    var body := ParseBodyAt(buffer, at + config.bLength, size - config.bLength, config.bNumInterfaces);
    if body == Failed {
      return Failed;
    }
    var n := config.bLength;
    config := config.(extra := body.value.extra, interfaces := body.value.interfaces,
                      bNumInterfaces := |body.value.interfaces|);
    return Parsed(n + body.used, config);
  }
}
