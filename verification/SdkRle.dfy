/** rleCompress of the user-mode SDK: one pass over the pixels, section headers rewritten in place, and the
    write position moved back two octets when a pair of equal pixels ends a literal. */
module SdkRle {
  import opened Bytes
  import opened RleFormat
  import opened RleEncoders

  /** NotAligned is the exception; Overrun is a write outside the buffer, for which the source has no check. */
  datatype Result<+T> = Ok(value: T) | NotAligned | Overrun

  ghost function Pixels(buffer: array<byte>): seq<word>
    requires buffer.Length % 2 == 0
    reads buffer
  {
    BytesToWords(buffer[..])
  }

  /** The octets written so far are the sections of `st`, the open one starting at `header`. */
  ghost predicate Written(w: seq<byte>, header: nat, st: State) {
    && AllFit(st.closed) && Fits(st.open)
    && header < |w|
    && w[..header] == EncodeAll(st.closed)
    && w[header] == Header(st.open)
    && w[header + 1..] == Body(st.open)
  }

  lemma Split(w: seq<byte>, at: nat)
    requires at < |w|
    ensures w == w[..at] + ([w[at]] + w[at + 1..])
  {
  }

  lemma WrittenIs(w: seq<byte>, header: nat, st: State)
    requires Written(w, header, st)
    ensures w == EncodeAll(st.closed) + Encode(st.open) == EncodeAll(st.closed + [st.open])
    ensures |w| == StateCost(st)
  {
    Split(w, header);
    EncodeAllAppend(st.closed, st.open);
    CostIsLength(st.closed);
  }

  lemma WrittenMeans(w: seq<byte>, header: nat, ps: seq<word>)
    requires ps != [] && Written(w, header, Scan(Sdk, ps))
    ensures w == Compress(Sdk, ps) && Decode(w) == Some(ps)
  {
    ScanConsistent(Sdk, ps);
    WrittenIs(w, header, Scan(Sdk, ps));
    DecodeCompress(Sdk, ps);
  }

  /** Room for what the next pixel may need is there before it is written. */
  lemma RoomFor(ps: seq<word>, consumed: nat)
    requires consumed <= |ps|
    ensures StateCost(Scan(Sdk, ps[..consumed])) <= WorstCase(|ps|)
  {
    CompressBound(Sdk, ps[..consumed]);
    CompressLength(Sdk, ps[..consumed]);
    WorstCaseMonotone(consumed, |ps|);
  }

  lemma Appended(w: seq<byte>, h: byte, body: seq<byte>)
    ensures var w' := w + ([h] + body);
            w'[..|w|] == w && w'[|w|] == h && w'[|w| + 1..] == body
  {
  }

  /** Closing the open section and starting `open` at the end keeps the octets in step with the state. */
  lemma WrittenClose(w: seq<byte>, header: nat, st: State, open: Section)
    requires Written(w, header, st) && Fits(open)
    ensures Written(w + ([Header(open)] + Body(open)), |w|, State(st.closed + [st.open], open))
  {
    WrittenIs(w, header, st);
    Appended(w, Header(open), Body(open));
  }

  /** The written octets with the header of the open section replaced. */
  function Patched(w: seq<byte>, header: nat, h: byte): (r: seq<byte>)
    requires header < |w|
    ensures |r| == |w| && r[header] == h && r[..header] == w[..header] && r[header + 1..] == w[header + 1..]
  {
    w[..header] + [h] + w[header + 1..]
  }

  lemma BodyAppend(vs: seq<word>, p: word)
    ensures Body(Literal(vs + [p])) == Body(Literal(vs)) + LittleEndian(p)
    ensures Body(Literal([p])) == LittleEndian(p)
  {
    WordsToBytesAppend(vs, p);
    WordsToBytesAppend([], p);
    assert [] + [p] == [p];
  }

  /** The last pixel of a literal removed: header decremented, write position two octets back. */
  lemma LiteralShrinks(w: seq<byte>, header: nat, st: State, body: seq<word>, p: word)
    requires Written(w, header, st) && body != [] && st.open == Literal(body + [p])
    ensures header + 3 <= |w| - 2 && w[header] == |body|
    ensures Written(Patched(w, header, w[header] - 1)[..|w| - 2], header, State(st.closed, Literal(body)))
  {
    BodyAppend(body, p);
    var longer := Patched(w, header, w[header] - 1);
    var end := |w| - 2;
    assert longer[..end][header + 1..] == longer[header + 1..][..|Body(Literal(body))|];
    assert longer[..end][..header] == longer[..header];
  }

  /** A pixel appended to a literal: header incremented, two octets added. */
  lemma LiteralGrows(w: seq<byte>, header: nat, st: State, p: word)
    requires Written(w, header, st) && st.open.Literal? && |st.open.values| < SECTION_MAX
    ensures w[header] + 1 < 0x100
    ensures Written(Patched(w, header, w[header] + 1) + LittleEndian(p), header,
                    State(st.closed, Literal(st.open.values + [p])))
  {
    var vs := st.open.values;
    BodyAppend(vs, p);
    var w' := Patched(w, header, w[header] + 1);
    var grown := w' + LittleEndian(p);
    assert grown[..header] == w'[..header];
    assert grown[header + 1..] == w'[header + 1..] + LittleEndian(p);
  }

  // ---------------------------------------------------------------- the buffer

  method PutSection(out: array<byte>, pos: nat, header: byte, pixel: word) returns (end: nat)
    requires pos + 3 <= out.Length
    modifies out
    ensures end == pos + 3
    ensures out[..end] == old(out[..pos]) + ([header] + LittleEndian(pixel))
  {
    out[pos] := header;
    out[pos + 1] := pixel % 0x100;
    out[pos + 2] := pixel / 0x100;
    end := pos + 3;
  }

  method PutPixel(out: array<byte>, pos: nat, pixel: word) returns (end: nat)
    requires pos + 2 <= out.Length
    modifies out
    ensures end == pos + 2
    ensures out[..end] == old(out[..pos]) + LittleEndian(pixel)
  {
    out[pos] := pixel % 0x100;
    out[pos + 1] := pixel / 0x100;
    end := pos + 2;
  }

  method AddToHeader(out: array<byte>, header: nat, delta: int, ghost pos: nat)
    requires header < pos <= out.Length && 0 <= out[header] + delta < 0x100
    modifies out
    ensures out[..pos] == Patched(old(out[..pos]), header, old(out[header]) + delta)
  {
    out[header] := out[header] + delta;
  }

  /** One pixel while a run is open (the body of the first inner loop). */
  method AbsorbIntoRun(out: array<byte>, pos: nat, header: nat, last: word, current: word, ghost st: State)
    returns (end: nat, section: nat)
    requires pos <= out.Length && Written(out[..pos], header, st) && st.open.Run? && st.open.value == last
    requires StateCost(Step(Sdk, st, current)) <= out.Length
    modifies out
    ensures end <= out.Length && Written(out[..end], section, Step(Sdk, st, current))
    ensures Step(Sdk, st, current).open.Run? <==> current == last
  {
    ghost var w := out[..pos];
    WrittenIs(w, header, st);
    CostAfterStep(Sdk, st, current);
    assert out[header] == w[header];
    if current == last {
      if out[header] == 0x7f + 0x80 {
        section := pos;
        end := PutSection(out, pos, 0x80, current);
        WrittenClose(w, header, st, Run(1, current));
      } else {
        end, section := pos, header;
        AddToHeader(out, header, 1, pos);
      }
    } else {
      section := pos;
      end := PutSection(out, pos, 0, current);
      BodyAppend([], current);
      WrittenClose(w, header, st, Literal([current]));
    }
  }

  /** One pixel while a literal is open (the body of the second inner loop). */
  method AbsorbIntoLiteral(out: array<byte>, pos: nat, header: nat, last: word, current: word, ghost st: State)
    returns (end: nat, section: nat)
    requires pos <= out.Length && Written(out[..pos], header, st)
    requires st.open.Literal? && Last(st.open.values) == last
    requires StateCost(Step(Sdk, st, current)) <= out.Length
    modifies out
    ensures end <= out.Length && Written(out[..end], section, Step(Sdk, st, current))
    ensures Step(Sdk, st, current).open.Literal? <==> current != last
  {
    ghost var w := out[..pos];
    WrittenIs(w, header, st);
    CostAfterStep(Sdk, st, current);
    assert out[header] == w[header];
    if current == last {
      end, section := EndLiteral(out, pos, header, current, st);
    } else if out[header] == 0x7f {
      section := pos;
      end := PutSection(out, pos, 0, current);
      BodyAppend([], current);
      WrittenClose(w, header, st, Literal([current]));
    } else {
      section := header;
      LiteralGrows(w, header, st, current);
      AddToHeader(out, header, 1, pos);
      end := PutPixel(out, pos, current);
    }
  }

  /** A literal of one pixel becomes a run of two by its header alone. */
  method PromoteLiteral(out: array<byte>, pos: nat, header: nat, ghost st: State, ghost p: word)
    requires pos <= out.Length && Written(out[..pos], header, st) && st.open == Literal([p])
    modifies out
    ensures Written(out[..pos], header, State(st.closed, Run(2, p)))
  {
    BodyAppend([], p);
    assert out[header] == out[..pos][header];
    AddToHeader(out, header, 1, pos);
    assert out[header] == out[..pos][header];
    AddToHeader(out, header, 0x80, pos);
  }

  /** A literal of several pixels loses its last one: the write position moves back over it. */
  method ShrinkLiteral(out: array<byte>, pos: nat, header: nat, ghost st: State, ghost body: seq<word>, ghost p: word)
    returns (end: nat)
    requires pos <= out.Length && Written(out[..pos], header, st)
    requires body != [] && st.open == Literal(body + [p])
    modifies out
    ensures end == pos - 2 && Written(out[..end], header, State(st.closed, Literal(body)))
  {
    ghost var w := out[..pos];
    LiteralShrinks(w, header, st, body, p);
    assert out[header] == w[header];
    AddToHeader(out, header, -1, pos);
    end := pos - 2;
    assert out[..end] == out[..pos][..end];
  }

  /** What an open literal has in its header, and what is left of it without its last pixel. */
  lemma LiteralIs(w: seq<byte>, header: nat, st: State) returns (body: seq<word>)
    requires Written(w, header, st) && st.open.Literal?
    ensures header < |w| && |body| == w[header] == |st.open.values| - 1 && body == st.open.values[..|body|]
    ensures st.open.values == body + [Last(st.open.values)] && |body| < SECTION_MAX
  {
    hide EncodeAll, AllFit, Body;
    body := st.open.values[..|st.open.values| - 1];
  }

  /** The second of two equal pixels: the literal gives up its last pixel to a run of two. */
  method EndLiteral(out: array<byte>, pos: nat, header: nat, current: word, ghost st: State)
    returns (end: nat, section: nat)
    requires pos <= out.Length && Written(out[..pos], header, st)
    requires st.open.Literal? && Last(st.open.values) == current
    requires StateCost(Step(Sdk, st, current)) <= out.Length
    modifies out
    ensures end <= out.Length && Written(out[..end], section, Step(Sdk, st, current))
  {
    hide Written, StateCost;
    ghost var body := LiteralIs(out[..pos], header, st);
    WrittenIs(out[..pos], header, st);
    CostAfterStep(Sdk, st, current);
    assert out[header] == out[..pos][header];
    if out[header] == 0 {
      section, end := header, pos;
      PromoteLiteral(out, pos, header, st, current);
    } else {
      section := ShrinkLiteral(out, pos, header, st, body, current);
      ghost var shrunk := out[..section];
      end := PutSection(out, section, 0x80 + 1, current);
      WrittenClose(shrunk, header, State(st.closed, Literal(body)), Run(2, current));
    }
  }

  // ---------------------------------------------------------------- rleCompress

  /** What every loop point guarantees: the octets so far are the sections of the pixels consumed so far,
      and lie inside the estimated buffer. */
  ghost predicate Progress(out: seq<byte>, pos: nat, header: nat, last: word, ps: seq<word>, consumed: nat) {
    && 0 < consumed <= |ps| && last == ps[consumed - 1]
    && pos <= |out| == WorstCase(|ps|)
    && Written(out[..pos], header, Scan(Sdk, ps[..consumed]))
  }

  lemma ProgressMeans(out: seq<byte>, pos: nat, header: nat, last: word, ps: seq<word>, consumed: nat)
    requires Progress(out, pos, header, last, ps, consumed)
    ensures Decode(out[..pos]) == Some(ps[..consumed])
  {
    WrittenMeans(out[..pos], header, ps[..consumed]);
  }

  lemma ProgressStep(out: seq<byte>, pos: nat, header: nat, ps: seq<word>, consumed: nat)
    requires consumed < |ps| && |out| == WorstCase(|ps|) && pos <= |out|
    requires Written(out[..pos], header, Step(Sdk, Scan(Sdk, ps[..consumed]), ps[consumed]))
    ensures Progress(out, pos, header, ps[consumed], ps, consumed + 1)
    ensures Scan(Sdk, ps[..consumed + 1]) == Step(Sdk, Scan(Sdk, ps[..consumed]), ps[consumed])
  {
    hide Written, Scan, Step, WorstCase;
    assert ps[..consumed + 1] == ps[..consumed] + [ps[consumed]];
    ScanAppend(Sdk, ps[..consumed], ps[consumed]);
  }

  /** The room the next pixel needs. */
  lemma NextFits(ps: seq<word>, consumed: nat)
    requires consumed < |ps|
    ensures StateCost(Step(Sdk, Scan(Sdk, ps[..consumed]), ps[consumed])) <= WorstCase(|ps|)
  {
    assert ps[..consumed + 1] == ps[..consumed] + [ps[consumed]];
    ScanAppend(Sdk, ps[..consumed], ps[consumed]);
    RoomFor(ps, consumed + 1);
  }

  /** The header tells the kind of the open section, and the section ends with the last pixel. */
  lemma OpenSection(out: seq<byte>, pos: nat, header: nat, last: word, ps: seq<word>, consumed: nat)
    requires Progress(out, pos, header, last, ps, consumed)
    ensures var open := Scan(Sdk, ps[..consumed]).open;
            && header < pos && (out[header] >= 0x80 <==> open.Run?)
            && (if open.Run? then open.value == last else open.values != [] && Last(open.values) == last)
  {
    hide Scan, Consistent, Written, WorstCase;
    ScanConsistent(Sdk, ps[..consumed]);
    OpenEnds(Scan(Sdk, ps[..consumed]), ps[..consumed]);
    HeaderTells(out[..pos], header, Scan(Sdk, ps[..consumed]));
    assert out[header] == out[..pos][header];
  }

  lemma HeaderTells(w: seq<byte>, header: nat, st: State)
    requires Written(w, header, st)
    ensures header < |w| && (w[header] >= 0x80 <==> st.open.Run?)
  {
  }

  /** The octets of the initial setup: a literal of one pixel. */
  lemma FirstSection(out: seq<byte>, ps: seq<word>)
    requires ps != [] && |out| == WorstCase(|ps|) && 3 <= |out|
    requires out[..3] == [0] + LittleEndian(ps[0])
    ensures Progress(out, 3, 0, ps[0], ps, 1)
  {
    BodyAppend([], ps[0]);
    assert ps[..0] == [] && Step(Sdk, Start, ps[0]) == State([], Literal([ps[0]]));
    Appended([], 0, LittleEndian(ps[0]));
    assert out[..3] == [] + ([0] + LittleEndian(ps[0]));
    ProgressStep(out, 3, 0, ps, 0);
  }

  lemma Finished(out: seq<byte>, pos: nat, header: nat, last: word, ps: seq<word>)
    requires Progress(out, pos, header, last, ps, |ps|)
    ensures out[..pos] == Compress(Sdk, ps) && Decode(out[..pos]) == Some(ps)
  {
    assert ps[..|ps|] == ps;
    WrittenMeans(out[..pos], header, ps);
  }

  lemma PixelCount(buffer: array<byte>)
    requires buffer.Length % 2 == 0
    ensures |Pixels(buffer)| == buffer.Length / 2
  {
  }

  method ReadPixel(buffer: array<byte>, i: nat) returns (p: word)
    requires buffer.Length % 2 == 0 && i < buffer.Length / 2
    ensures p == Pixels(buffer)[i]
  {
    p := FromLittleEndian(buffer[2 * i], buffer[2 * i + 1]);
  }

  /** The first inner loop: pixels are taken while the open section stays a run. */
  method ConsumeRun(out: array<byte>, buffer: array<byte>, pos0: nat, header0: nat, last0: word, consumed0: nat,
                    ghost ps: seq<word>)
    returns (pos: nat, header: nat, last: word, consumed: nat)
    requires buffer.Length % 2 == 0 && out != buffer && ps == Pixels(buffer) && consumed0 < |ps|
    requires Progress(out[..], pos0, header0, last0, ps, consumed0)
    requires Scan(Sdk, ps[..consumed0]).open.Run?
    modifies out
    ensures consumed0 < consumed && Progress(out[..], pos, header, last, ps, consumed)
  {
    hide Scan, Step, Written, StateCost, WorstCase, Pixels, Decode;
    var total := buffer.Length / 2;
    PixelCount(buffer);
    pos, header, last, consumed := pos0, header0, last0, consumed0;
    while consumed < total
      invariant Progress(out[..], pos, header, last, ps, consumed)
      invariant Scan(Sdk, ps[..consumed]).open.Run? && consumed0 <= consumed
    {
      ghost var st := Scan(Sdk, ps[..consumed]);
      OpenSection(out[..], pos, header, last, ps, consumed);
      NextFits(ps, consumed);
      var current := ReadPixel(buffer, consumed);
      pos, header := AbsorbIntoRun(out, pos, header, last, current, st);
      ProgressStep(out[..], pos, header, ps, consumed);
      consumed := consumed + 1;
      if current != last {
        last := current;
        break;
      }
    }
  }

  /** The second inner loop: pixels are taken until a pair ends the literal. */
  method ConsumeLiteral(out: array<byte>, buffer: array<byte>, pos0: nat, header0: nat, last0: word, consumed0: nat,
                    ghost ps: seq<word>)
    returns (pos: nat, header: nat, last: word, consumed: nat)
    requires buffer.Length % 2 == 0 && out != buffer && ps == Pixels(buffer) && consumed0 < |ps|
    requires Progress(out[..], pos0, header0, last0, ps, consumed0)
    requires Scan(Sdk, ps[..consumed0]).open.Literal?
    modifies out
    ensures consumed0 < consumed && Progress(out[..], pos, header, last, ps, consumed)
  {
    hide Scan, Step, Written, StateCost, WorstCase, Pixels, Decode;
    var total := buffer.Length / 2;
    PixelCount(buffer);
    pos, header, last, consumed := pos0, header0, last0, consumed0;
    while consumed < total
      invariant Progress(out[..], pos, header, last, ps, consumed)
      invariant Scan(Sdk, ps[..consumed]).open.Literal? && consumed0 <= consumed
    {
      ghost var st := Scan(Sdk, ps[..consumed]);
      OpenSection(out[..], pos, header, last, ps, consumed);
      NextFits(ps, consumed);
      var current := ReadPixel(buffer, consumed);
      pos, header := AbsorbIntoLiteral(out, pos, header, last, current, st);
      ProgressStep(out[..], pos, header, ps, consumed);
      consumed := consumed + 1;
      if current == last {
        break;
      }
      last := current;
    }
  }

  /** The initial setup: a literal holding the first pixel. */
  method OpenFirst(out: array<byte>, buffer: array<byte>, ghost ps: seq<word>)
    returns (pos: nat, header: nat, last: word, consumed: nat)
    requires buffer.Length % 2 == 0 && buffer.Length > 0 && out != buffer && ps == Pixels(buffer)
    requires out.Length == WorstCase(buffer.Length / 2)
    modifies out
    ensures Progress(out[..], pos, header, last, ps, consumed)
  {
    header, consumed := 0, 1;
    last := ReadPixel(buffer, 0);
    pos := PutSection(out, 0, 0, last);
    assert out[..3] == [0] + LittleEndian(last);
    FirstSection(out[..], ps);
  }

  /** The outer loop: the header of the open section selects the inner loop. */
  method CompressInto(out: array<byte>, buffer: array<byte>, ghost ps: seq<word>) returns (pos: nat)
    requires buffer.Length % 2 == 0 && buffer.Length > 0 && out != buffer && ps == Pixels(buffer)
    requires out.Length == WorstCase(buffer.Length / 2)
    modifies out
    ensures pos <= out.Length && out[..pos] == Compress(Sdk, ps)
    ensures Decode(out[..pos]) == Some(ps)
  {
    hide Written, Scan, Pixels, WorstCase, Compress, Decode;
    var total := buffer.Length / 2;
    PixelCount(buffer);
    var header, last, consumed;
    pos, header, last, consumed := OpenFirst(out, buffer, ps);
    while consumed < total
      invariant Progress(out[..], pos, header, last, ps, consumed)
    {
      OpenSection(out[..], pos, header, last, ps, consumed);
      if out[header] >= 0x80 {
        pos, header, last, consumed := ConsumeRun(out, buffer, pos, header, last, consumed, ps);
      } else {
        pos, header, last, consumed := ConsumeLiteral(out, buffer, pos, header, last, consumed, ps);
      }
    }
    Finished(out[..], pos, header, last, ps);
  }

  /** rleCompress. Without a pixel it writes its first section into a buffer that has no room for it, which is where the model
      of it ends. */
  method RleCompress(buffer: array<byte>) returns (r: Result<array<byte>>)
    ensures r.NotAligned? <==> buffer.Length % 2 == 1
    ensures r.Overrun? <==> buffer.Length == 0
    ensures r.Ok? ==> r.value[..] == Compress(Sdk, Pixels(buffer)) && Decode(r.value[..]) == Some(Pixels(buffer))
    ensures r.Ok? ==> r.value.Length <= WorstCase(buffer.Length / 2)
  {
    hide Compress, Decode, Pixels;
    if buffer.Length % 2 == 1 {
      return NotAligned;
    }
    var estimate := buffer.Length + (buffer.Length / 2 + 0x7f) / 0x80;
    var out := new byte[estimate];
    if out.Length == 0 {
      return Overrun;
    }
    var size := CompressInto(out, buffer, Pixels(buffer));
    var result := new byte[size](i requires 0 <= i < size <= out.Length reads out => out[i]);
    assert result[..] == out[..size];
    r := Ok(result);
  }
}
