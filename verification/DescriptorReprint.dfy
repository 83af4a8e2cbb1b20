/** The way back: a parsed configuration that is well-formed and as long, written out, as what the parser used, was written
    out in just those octets. So nothing the parsers pass over goes unnoticed but for its length. */
module DescriptorReprint {
  import opened Bytes
  import opened Descriptors
  import opened DescriptorRoundTrip

  /** `printed` is no longer than the octets used, and if it is as long, it is them. */
  ghost predicate Prints(bs: seq<byte>, used: nat, printed: seq<byte>) {
    && used <= |bs| && |printed| <= used
    && (|printed| == used ==> printed == bs[..used])
  }

  lemma PrintsTogether(bs: seq<byte>, a: nat, b: nat, p: seq<byte>, q: seq<byte>)
    requires Prints(bs, a, p) && Prints(bs[a..], b, q)
    ensures Prints(bs, a + b, p + q)
  {
    assert bs[..a + b] == bs[..a] + bs[a..][..b];
  }

  /** Here stands no class-specific descriptor that could be skipped. */
  predicate Settled(bs: seq<byte>) {
    Skip(bs) == Stop(0) || Skip(bs) == Short(0)
  }

  lemma {:induction false} SkipSettles(bs: seq<byte>)
    requires !Skip(bs).Bad?
    ensures Skip(bs[Skip(bs).used..]) == (if Skip(bs).Stop? then Stop(0) else Short(0))
    decreases |bs|
  {
    var k := Skip(bs).used;
    if k == 0 {
      assert bs[0..] == bs;
    } else {
      var n := bs[0];
      SkipSettles(bs[n..]);
      assert bs[n..][k - n..] == bs[k..];
    }
  }

  lemma Behind(bs: seq<byte>, a: nat, b: nat)
    requires a + b <= |bs|
    ensures bs[a..][b..] == bs[a + b..]
  {
  }

  lemma SettledBehind(bs: seq<byte>, n: nat)
    requires n <= |bs| && !Skip(bs[n..]).Bad?
    ensures n + Skip(bs[n..]).used <= |bs| && Settled(bs[n + Skip(bs[n..]).used..])
  {
    SkipSettles(bs[n..]);
    hide Skip;
    Behind(bs, n, Skip(bs[n..]).used);
  }

  lemma EndpointSettles(bs: seq<byte>)
    requires ParseEndpoint(bs).Parsed? && ParseEndpoint(bs).value.Some?
    ensures Settled(bs[ParseEndpoint(bs).used..])
  {
    hide Skip, Settled;
    SettledBehind(bs, bs[0]);
  }

  lemma {:induction false} EndpointsSettle(bs: seq<byte>, count: nat)
    requires Settled(bs) && ParseEndpoints(bs, count).Parsed?
    ensures Settled(bs[ParseEndpoints(bs, count).used..])
    decreases count
  {
    hide ParseEndpoint, Settled;
    if count > 0 && ParseEndpoint(bs).value.Some? {
      var used := ParseEndpoint(bs).used;
      EndpointSettles(bs);
      EndpointsSettle(bs[used..], count - 1);
      var more := ParseEndpoints(bs[used..], count - 1).used;
      assert bs[used..][more..] == bs[used + more..];
    } else {
      assert bs[0..] == bs;
    }
  }

  lemma AltSettles(bs: seq<byte>)
    requires ParseAlt(bs).Parsed? && ParseAlt(bs).value.One?
    ensures Settled(bs[ParseAlt(bs).used..])
  {
    hide Skip, ParseEndpoints, Settled;
    var n := bs[0];
    var row := Skip(bs[n..]);
    SettledBehind(bs, n);
    if row.Stop? {
      EndpointsSettle(bs[n + row.used..], bs[4]);
      Behind(bs, n + row.used, ParseEndpoints(bs[n + row.used..], bs[4]).used);
    }
  }

  lemma {:induction false} InterfaceSettles(bs: seq<byte>)
    requires ParseInterface(bs).Parsed? && ParseInterface(bs).used > 0
    ensures Settled(bs[ParseInterface(bs).used..])
    decreases |bs|
  {
    hide ParseAlt, Settled;
    AltSettles(bs);
    var used := ParseAlt(bs).used;
    var rest := ParseInterface(bs[used..]);
    if ParseInterface(bs).used > used {
      InterfaceSettles(bs[used..]);
      assert bs[used..][rest.used..] == bs[used + rest.used..];
    }
  }

  // ---------------------------------------------------------------- printing what was parsed

  lemma WordForth(lo: byte, hi: byte)
    ensures LittleEndian(FromLittleEndian(lo, hi)) == [lo, hi]
  {
  }

  lemma EndpointHeaderForth(bs: seq<byte>)
    requires |bs| >= ENDPOINT_SIZE && |bs| >= bs[0] && (bs[0] == ENDPOINT_SIZE || bs[0] == AUDIO_ENDPOINT_SIZE)
    ensures EndpointHeader(EndpointFields(bs)) == bs[..bs[0]]
  {
    WordForth(bs[4], bs[5]);
  }

  lemma EndpointForth(bs: seq<byte>)
    requires ParseEndpoint(bs).Parsed? && ParseEndpoint(bs).value.Some? && GoodEndpoint(ParseEndpoint(bs).value.value)
    ensures Prints(bs, ParseEndpoint(bs).used, PrintEndpoint(ParseEndpoint(bs).value.value))
  {
    hide Skip, Blocks;
    var n, e := bs[0], ParseEndpoint(bs).value.value;
    EndpointHeaderForth(bs);
    assert EndpointHeader(e) == EndpointHeader(EndpointFields(bs));
    var row := Skip(bs[n..]);
    if row.Stop? {
      assert bs[..n + row.used] == bs[..n] + bs[n..n + row.used];
    }
  }

  lemma {:induction false} EndpointsForth(bs: seq<byte>, count: nat)
    requires ParseEndpoints(bs, count).Parsed?
    requires forall i :: 0 <= i < |ParseEndpoints(bs, count).value| ==> GoodEndpoint(ParseEndpoints(bs, count).value[i])
    ensures Prints(bs, ParseEndpoints(bs, count).used, PrintEndpoints(ParseEndpoints(bs, count).value))
    decreases count
  {
    hide ParseEndpoint, GoodEndpoint, Prints, PrintEndpoint;
    var es := ParseEndpoints(bs, count).value;
    if es == [] {
      PrintsNothing(bs);
    } else {
      var used := ParseEndpoint(bs).used;
      assert es[0] == ParseEndpoint(bs).value.value;
      EndpointForth(bs);
      assert es[1..] == ParseEndpoints(bs[used..], count - 1).value;
      EndpointsForth(bs[used..], count - 1);
      PrintsTogether(bs, used, ParseEndpoints(bs[used..], count - 1).used, PrintEndpoint(es[0]), PrintEndpoints(es[1..]));
    }
  }

  lemma PrintsNothing(bs: seq<byte>)
    ensures Prints(bs, 0, [])
  {
  }

  /** The alternate setting holds as many endpoints as its header promises. */
  predicate FullAlt(bs: seq<byte>) {
    && ParseAlt(bs).Parsed? && ParseAlt(bs).value.One? && !ParseAlt(bs).value.short
    && ParseAlt(bs).value.alt.bNumEndpoints == bs[4]
  }

  lemma AltForth(bs: seq<byte>)
    requires FullAlt(bs) && GoodAlt(ParseAlt(bs).value.alt)
    ensures Prints(bs, ParseAlt(bs).used, PrintAlt(ParseAlt(bs).value.alt))
  {
    hide Skip, Blocks, ParseEndpoints, PrintEndpoints, GoodEndpoint;
    var n, alt := bs[0], ParseAlt(bs).value.alt;
    var k := Skip(bs[n..]).used;
    var rest := bs[n + k..];
    EndpointsForth(rest, bs[4]);
    assert AltHeader(alt) == bs[..n];
    assert bs[..n + k] == bs[..n] + bs[n..n + k];
    PrintsTogether(bs, n + k, ParseEndpoints(rest, bs[4]).used, AltHeader(alt) + alt.extra, PrintEndpoints(alt.endpoints.value));
  }

  /** So do all alternate settings of the interface. */
  predicate FullInterface(bs: seq<byte>)
    decreases |bs|
  {
    && FullAlt(bs)
    && var first := ParseAlt(bs);
       (Alternate(bs[first.used..], first.value.alt.bInterfaceNumber) && ParseInterface(bs).Parsed?
        && ParseInterface(bs).used > first.used) ==> FullInterface(bs[first.used..])
  }

  lemma {:induction false} InterfaceForth(bs: seq<byte>)
    requires ParseInterface(bs).Parsed? && FullInterface(bs) && GoodInterface(ParseInterface(bs).value)
    ensures Prints(bs, ParseInterface(bs).used, PrintInterface(ParseInterface(bs).value))
    decreases |bs|
  {
    hide ParseAlt, GoodAlt, Prints, PrintAlt, Alternate;
    var alts, used := ParseInterface(bs).value, ParseAlt(bs).used;
    GoodHas(alts);
    assert GoodAlt(alts[0]) && alts[0] == ParseAlt(bs).value.alt;
    AltForth(bs);
    if |alts| == 1 {
      PrintsAlone(bs, used, PrintAlt(alts[0]));
    } else {
      var rest := ParseInterface(bs[used..]);
      assert alts[1..] == rest.value;
      InterfaceForth(bs[used..]);
      PrintsTogether(bs, used, rest.used, PrintAlt(alts[0]), PrintInterface(alts[1..]));
    }
  }

  lemma PrintsAlone(bs: seq<byte>, used: nat, p: seq<byte>)
    requires Prints(bs, used, p)
    ensures Prints(bs, used, p + [])
  {
    assert p + [] == p;
  }

  /** And the configuration holds as many interfaces as its header promises. */
  predicate FullBody(bs: seq<byte>, count: nat)
    decreases count
  {
    count > 0 ==>
      && Skip(bs).Stop?
      && var k := Skip(bs).used;
         FullInterface(bs[k..]) && ParseInterface(bs[k..]).Parsed?
         && FullBody(bs[k + ParseInterface(bs[k..]).used..], count - 1)
  }

  /** The first row of class-specific descriptors. */
  function FirstRow(bs: seq<byte>, count: nat): seq<byte>
    requires FullBody(bs, count)
  {
    if count == 0 then [] else bs[..Skip(bs).used]
  }

  lemma SettledRow(bs: seq<byte>, count: nat)
    requires Settled(bs) && FullBody(bs, count)
    ensures FirstRow(bs, count) == []
  {
  }

  lemma {:induction false} BodyForth(bs: seq<byte>, count: nat, extra: seq<byte>)
    requires ParseBody(bs, count, extra).Parsed? && FullBody(bs, count)
    requires forall i :: 0 <= i < |ParseBody(bs, count, extra).value.interfaces| ==>
               GoodInterface(ParseBody(bs, count, extra).value.interfaces[i])
    ensures var r := ParseBody(bs, count, extra);
            && |r.value.interfaces| == count
            && r.value.extra == (if extra == [] then FirstRow(bs, count) else extra)
            && Prints(bs, r.used, FirstRow(bs, count) + PrintInterfaces(r.value.interfaces))
    decreases count
  {
    hide ParseInterface, ParseBody, FullInterface, FullBody, FirstRow, GoodInterface, Skip, Prints, Settled,
         PrintInterface, PrintInterfaces;
    if count == 0 {
      NoBody(bs, extra);
    } else {
      var k, one, kept, rest := Turned(bs, count, extra);
      var r := ParseBody(rest, count - 1, kept);
      SettledRow(rest, count - 1);
      BodyForth(rest, count - 1, kept);
      assert ParseBody(bs, count, extra).value.interfaces[0] == one.value;
      InterfaceForth(bs[k..]);
      Printed(one.value, r.value.interfaces);
      assert [] + PrintInterfaces(r.value.interfaces) == PrintInterfaces(r.value.interfaces);
      PrintsBehind(bs, k, one.used, r.used, PrintInterface(one.value), PrintInterfaces(r.value.interfaces));
    }
  }

  lemma NoBody(bs: seq<byte>, extra: seq<byte>)
    requires FullBody(bs, 0)
    ensures ParseBody(bs, 0, extra) == Parsed(0, Body(extra, [])) && FirstRow(bs, 0) == []
    ensures Prints(bs, 0, FirstRow(bs, 0) + PrintInterfaces([]))
  {
  }

  /** One turn of parse_configuration's loop when nothing promised is missing. */
  lemma Turned(bs: seq<byte>, count: nat, extra: seq<byte>)
    returns (k: nat, one: Outcome<seq<AltSetting>>, kept: seq<byte>, rest: seq<byte>)
    requires count > 0 && ParseBody(bs, count, extra).Parsed? && FullBody(bs, count)
    ensures k <= |bs| && FirstRow(bs, count) == bs[..k] && kept == (if extra == [] then bs[..k] else extra)
    ensures one == ParseInterface(bs[k..]) && one.Parsed? && FullInterface(bs[k..]) && one.used > 0 && one.value != []
    ensures k + one.used <= |bs| && rest == bs[k + one.used..] && Settled(rest) && FullBody(rest, count - 1)
    ensures var r := ParseBody(rest, count - 1, kept);
            && r.Parsed?
            && ParseBody(bs, count, extra)
               == Parsed(k + one.used + r.used, Body(r.value.extra, [one.value] + r.value.interfaces))
            && ([one.value] + r.value.interfaces)[1..] == r.value.interfaces
  {
    hide Skip, ParseInterface, FullInterface, Settled;
    k := Skip(bs).used;
    one := ParseInterface(bs[k..]);
    kept, rest := if extra == [] then bs[..k] else extra, bs[k + one.used..];
    FullIsSome(bs[k..]);
    InterfaceSettles(bs[k..]);
    assert bs[k..][one.used..] == rest;
  }

  lemma Printed(alts: seq<AltSetting>, groups: seq<seq<AltSetting>>)
    requires GoodInterface(alts) && forall i :: 0 <= i < |groups| ==> GoodInterface(groups[i])
    ensures forall i :: 0 <= i < |[alts] + groups| ==> GoodInterface(([alts] + groups)[i])
    ensures forall i :: 0 <= i < |alts| ==> alts[i].endpoints.Some?
    ensures PrintInterfaces([alts] + groups) == PrintInterface(alts) + PrintInterfaces(groups)
  {
    assert ([alts] + groups)[1..] == groups;
  }

  lemma PrintsBehind(bs: seq<byte>, k: nat, a: nat, b: nat, p: seq<byte>, q: seq<byte>)
    requires k + a <= |bs| && Prints(bs[k..], a, p) && Prints(bs[k + a..], b, q)
    ensures Prints(bs, k + a + b, bs[..k] + (p + q))
  {
    assert bs[k..][a..] == bs[k + a..];
    PrintsTogether(bs[k..], a, b, p, q);
    PrintsRow(bs, k);
    PrintsTogether(bs, k, a + b, bs[..k], p + q);
  }

  lemma FullIsSome(bs: seq<byte>)
    requires FullInterface(bs) && ParseInterface(bs).Parsed?
    ensures ParseInterface(bs).used > 0
  {
  }

  lemma PrintsRow(bs: seq<byte>, k: nat)
    requires k <= |bs|
    ensures Prints(bs, k, bs[..k])
  {
  }

  /** When a configuration is parsed with every promised endpoint and interface, and the result is a well-formed tree,
      then writing it out never takes more octets than were used, and when it takes as many it gives exactly those. */
  lemma ConfigForth(bs: seq<byte>)
    requires ParseConfig(bs).Parsed? && GoodConfig(ParseConfig(bs).value) && FullBody(bs[bs[0]..], bs[4])
    ensures Prints(bs, ParseConfig(bs).used, PrintConfig(ParseConfig(bs).value))
  {
    hide ParseBody, FullBody, FirstRow, Prints, PrintInterfaces, GoodInterface, Blocks;
    var c, rest := ParseConfig(bs).value, bs[bs[0]..];
    var body := ParseBody(rest, bs[4], []);
    BodyForth(rest, bs[4], []);
    WordForth(bs[2], bs[3]);
    assert ConfigHeader(c) == bs[..CONFIG_SIZE];
    PrintsRow(bs, CONFIG_SIZE);
    PrintsTogether(bs, CONFIG_SIZE, body.used, ConfigHeader(c), c.extra + PrintInterfaces(c.interfaces));
    assert ConfigHeader(c) + (c.extra + PrintInterfaces(c.interfaces))
        == ConfigHeader(c) + c.extra + PrintInterfaces(c.interfaces);
  }
}
