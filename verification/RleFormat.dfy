/** The run-length format of RPUSBDISP_DISPCMD_BITBLT_RLE, read as the device reads it:
    a header octet whose top bit marks a run and whose low seven bits hold the length minus one,
    followed by one pixel (run) or by that many pixels (literal). */
module RleFormat {
  import opened Bytes

  const COMMON_BIT := 0x80
  const SIZE_BIT := 0x7f
  const SECTION_MAX := SIZE_BIT + 1

  datatype Section = Run(count: nat, value: word) | Literal(values: seq<word>)

  predicate Fits(s: Section) {
    match s
    case Run(n, _) => 1 <= n <= SECTION_MAX
    case Literal(vs) => 1 <= |vs| <= SECTION_MAX
  }

  predicate AllFit(ss: seq<Section>) {
    forall i :: 0 <= i < |ss| ==> Fits(ss[i])
  }

  function Header(s: Section): byte
    requires Fits(s)
  {
    match s
    case Run(n, _) => COMMON_BIT + (n - 1)
    case Literal(vs) => |vs| - 1
  }

  /** The pixels a section carries, as octets. */
  function Body(s: Section): (r: seq<byte>)
    ensures |r| == if s.Run? then 2 else 2 * |s.values|
  {
    if s.Run? then LittleEndian(s.value) else WordsToBytes(s.values)
  }

  function Encode(s: Section): (r: seq<byte>)
    requires Fits(s)
    ensures |r| == 1 + |Body(s)|
  {
    [Header(s)] + Body(s)
  }

  function EncodeAll(ss: seq<Section>): seq<byte>
    requires AllFit(ss)
  {
    if ss == [] then [] else Encode(ss[0]) + EncodeAll(ss[1..])
  }

  lemma {:induction false} EncodeAllAppend(ss: seq<Section>, s: Section)
    requires AllFit(ss) && Fits(s)
    ensures EncodeAll(ss + [s]) == EncodeAll(ss) + Encode(s)
  {
    if ss == [] {
      assert (ss + [s])[1..] == [];
    } else {
      assert (ss + [s])[1..] == ss[1..] + [s];
      EncodeAllAppend(ss[1..], s);
    }
  }

  function Repeat(p: word, n: nat): (r: seq<word>)
    ensures |r| == n && forall i :: 0 <= i < n ==> r[i] == p
  {
    seq(n, _ => p)
  }

  function Expand(s: Section): seq<word> {
    match s
    case Run(n, p) => Repeat(p, n)
    case Literal(vs) => vs
  }

  function ExpandAll(ss: seq<Section>): seq<word> {
    if ss == [] then [] else Expand(ss[0]) + ExpandAll(ss[1..])
  }

  lemma {:induction false} ExpandAllAppend(ss: seq<Section>, s: Section)
    ensures ExpandAll(ss + [s]) == ExpandAll(ss) + Expand(s)
  {
    if ss == [] {
      assert (ss + [s])[1..] == [];
    } else {
      assert (ss + [s])[1..] == ss[1..] + [s];
      ExpandAllAppend(ss[1..], s);
    }
  }

  /** Number of octets the section starting with this header occupies. */
  function SectionBytes(header: byte): nat {
    if header >= COMMON_BIT then 3 else 1 + 2 * (header + 1)
  }

  /** Cuts an octet string into sections; None when the last section is incomplete. */
  function Sections(bs: seq<byte>): Option<seq<Section>> {
    if bs == [] then Some([])
    else
      var n := SectionBytes(bs[0]);
      if |bs| < n then None
      else
        var s := if bs[0] >= COMMON_BIT then Run(bs[0] - COMMON_BIT + 1, FromLittleEndian(bs[1], bs[2]))
                 else Literal(BytesToWords(bs[1..n]));
        match Sections(bs[n..])
        case None => None
        case Some(rest) => Some([s] + rest)
  }

  /** What the device paints: the sections one after the other. */
  function Decode(bs: seq<byte>): Option<seq<word>> {
    match Sections(bs)
    case None => None
    case Some(ss) => Some(ExpandAll(ss))
  }

  lemma SectionsOfEncode(s: Section, rest: seq<byte>)
    requires Fits(s) && Sections(rest).Some?
    ensures Sections(Encode(s) + rest) == Some([s] + Sections(rest).value)
  {
    var bs := Encode(s) + rest;
    var n := SectionBytes(bs[0]);
    assert n == |Encode(s)| && bs[n..] == rest;
    if s.Literal? {
      assert bs[1..n] == WordsToBytes(s.values);
      WordsRoundTrip(s.values);
    }
  }

  lemma NoSections()
    ensures Sections([]) == Some([])
  {
  }

  /** The octets determine the sections, so encoding is injective on well-formed section lists. */
  lemma {:induction false} SectionsRoundTrip(ss: seq<Section>)
    requires AllFit(ss)
    ensures Sections(EncodeAll(ss)) == Some(ss)
  {
    hide Sections, Encode, Fits;
    if ss == [] {
      NoSections();
    } else {
      SectionsRoundTrip(ss[1..]);
      SectionsOfEncode(ss[0], EncodeAll(ss[1..]));
      assert [ss[0]] + ss[1..] == ss;
    }
  }

  lemma EncodeInjective(a: seq<Section>, b: seq<Section>)
    requires AllFit(a) && AllFit(b)
    ensures EncodeAll(a) == EncodeAll(b) <==> a == b
  {
    SectionsRoundTrip(a);
    SectionsRoundTrip(b);
  }
}
