/** The two run-length encoders of the repository as state machines over pixels: the streaming one of the
    kernel driver and the batch one of the user-mode SDK. They share every transition but one, taken when a
    run section is full and the same pixel comes again. */
module RleEncoders {
  import opened Bytes
  import opened RleFormat

  datatype Encoder = Kernel | Sdk

  /** Sections already closed, and the open one; an empty literal stands for "nothing pending". */
  datatype State = State(closed: seq<Section>, open: Section)

  const Start := State([], Literal([]))

  function Last<T>(s: seq<T>): T
    requires s != []
  {
    s[|s| - 1]
  }

  function Step(e: Encoder, st: State, p: word): State {
    match st.open
    case Run(n, v) =>
      if p != v then State(st.closed + [st.open], Literal([p]))
      else if n == SECTION_MAX then State(st.closed + [st.open], if e.Kernel? then Literal([p]) else Run(1, p))
      else State(st.closed, Run(n + 1, v))
    case Literal(vs) =>
      if vs != [] && p == Last(vs) then
        State(if |vs| == 1 then st.closed else st.closed + [Literal(vs[..|vs| - 1])], Run(2, p))
      else if |vs| == SECTION_MAX then State(st.closed + [st.open], Literal([p]))
      else State(st.closed, Literal(vs + [p]))
  }

  function Scan(e: Encoder, ps: seq<word>): State {
    if ps == [] then Start else Step(e, Scan(e, ps[..|ps| - 1]), Last(ps))
  }

  lemma ScanAppend(e: Encoder, ps: seq<word>, p: word)
    ensures Scan(e, ps + [p]) == Step(e, Scan(e, ps), p)
  {
    assert (ps + [p])[..|ps|] == ps;
  }

  /** The section list once the pending section is flushed; an empty one is never flushed. */
  function Finish(st: State): seq<Section> {
    if st.open == Literal([]) then st.closed else st.closed + [st.open]
  }

  /** The last pixel of the open section is the last pixel consumed. */
  ghost predicate Consistent(st: State, ps: seq<word>) {
    && AllFit(st.closed)
    && (ps == [] <==> st.open == Literal([]))
    && (ps != [] ==> Fits(st.open) && Last(Expand(st.open)) == Last(ps))
    && ExpandAll(st.closed) + Expand(st.open) == ps
  }

  lemma CloseConsistent(st: State, ps: seq<word>, open: Section, p: word)
    requires Consistent(st, ps) && ps != []
    requires Fits(open) && Expand(open) == [p]
    ensures Consistent(State(st.closed + [st.open], open), ps + [p])
  {
    ExpandAllAppend(st.closed, st.open);
  }

  lemma GrowConsistent(st: State, ps: seq<word>, open: Section, p: word)
    requires Consistent(st, ps)
    requires Fits(open) && Expand(open) == Expand(st.open) + [p]
    ensures Consistent(State(st.closed, open), ps + [p])
  {
    assert ExpandAll(st.closed) + (Expand(st.open) + [p]) == ps + [p];
  }

  lemma PairTail(done: seq<word>, body: seq<word>, p: word)
    ensures done + (body + [p]) + [p] == (done + body) + [p, p]
  {
  }

  /** A literal section without its last pixel is closed, unless nothing is left of it. */
  lemma Shortened(closed: seq<Section>, body: seq<word>) returns (longer: seq<Section>)
    requires AllFit(closed) && |body| < SECTION_MAX
    ensures longer == if body == [] then closed else closed + [Literal(body)]
    ensures AllFit(longer) && ExpandAll(longer) == ExpandAll(closed) + body
  {
    longer := if body == [] then closed else closed + [Literal(body)];
    if body == [] {
      assert ExpandAll(closed) + body == ExpandAll(closed);
    } else {
      ExpandAllAppend(closed, Literal(body));
    }
  }

  lemma PairConsistent(st: State, ps: seq<word>, p: word)
    requires Consistent(st, ps) && st.open.Literal? && ps != [] && Last(ps) == p
    ensures Consistent(Step(Kernel, st, p), ps + [p])
  {
    var vs := st.open.values;
    var body := vs[..|vs| - 1];
    assert vs == body + [p];
    assert Expand(Run(2, p)) == [p, p];
    var longer := Shortened(st.closed, body);
    hide ExpandAll, AllFit;
    PairTail(ExpandAll(st.closed), body, p);
    assert Step(Kernel, st, p) == State(longer, Run(2, p));
  }

  lemma StepConsistent(e: Encoder, st: State, ps: seq<word>, p: word)
    requires Consistent(st, ps)
    ensures Consistent(Step(e, st, p), ps + [p])
  {
    match st.open
    case Run(n, v) =>
      if p == v && n < SECTION_MAX {
        assert Repeat(v, n + 1) == Repeat(v, n) + [p];
        GrowConsistent(st, ps, Run(n + 1, v), p);
      } else {
        CloseConsistent(st, ps, if p == v && e.Sdk? then Run(1, p) else Literal([p]), p);
      }
    case Literal(vs) =>
      if vs != [] && p == Last(vs) {
        PairConsistent(st, ps, p);
      } else if |vs| == SECTION_MAX {
        CloseConsistent(st, ps, Literal([p]), p);
      } else {
        GrowConsistent(st, ps, Literal(vs + [p]), p);
      }
  }

  lemma {:induction false} ScanConsistent(e: Encoder, ps: seq<word>)
    ensures Consistent(Scan(e, ps), ps)
  {
    if ps != [] {
      ScanConsistent(e, ps[..|ps| - 1]);
      StepConsistent(e, Scan(e, ps[..|ps| - 1]), ps[..|ps| - 1], Last(ps));
      assert ps[..|ps| - 1] + [Last(ps)] == ps;
    }
  }

  /** The section is within its limits and ends with this pixel. */
  predicate EndsWith(open: Section, last: word) {
    match open
    case Run(n, v) => v == last && 1 <= n <= SECTION_MAX
    case Literal(vs) => 1 <= |vs| <= SECTION_MAX && Last(vs) == last
  }

  lemma OpenEnds(st: State, ps: seq<word>)
    requires Consistent(st, ps) && ps != []
    ensures EndsWith(st.open, Last(ps))
  {
  }

  /** Both encoders stand for the pixels they were given, in sections the format can carry. */
  lemma FinishMeaning(e: Encoder, ps: seq<word>)
    ensures AllFit(Finish(Scan(e, ps))) && ExpandAll(Finish(Scan(e, ps))) == ps
  {
    ScanConsistent(e, ps);
    var st := Scan(e, ps);
    ExpandAllAppend(st.closed, st.open);
  }

  function Compress(e: Encoder, ps: seq<word>): seq<byte> {
    FinishMeaning(e, ps);
    EncodeAll(Finish(Scan(e, ps)))
  }

  /** Compression loses nothing, whichever encoder is used. */
  lemma DecodeCompress(e: Encoder, ps: seq<word>)
    ensures Decode(Compress(e, ps)) == Some(ps)
  {
    FinishMeaning(e, ps);
    SectionsRoundTrip(Finish(Scan(e, ps)));
  }

  // ---------------------------------------------------------------- what is out already

  /** The octets of the sections closed by the time `ps` is consumed. */
  function Closed(e: Encoder, ps: seq<word>): seq<byte> {
    ScanConsistent(e, ps);
    EncodeAll(Scan(e, ps).closed)
  }

  /** A closed section stays. */
  lemma {:induction false} ClosedStays(e: Encoder, ps: seq<word>, k: nat)
    requires k <= |ps|
    ensures Scan(e, ps[..k]).closed <= Scan(e, ps).closed
  {
    if k < |ps| {
      var init := ps[..|ps| - 1];
      assert init[..k] == ps[..k];
      ClosedStays(e, init, k);
    } else {
      assert ps[..k] == ps;
    }
  }

  lemma {:induction false} EncodePrefix(ss: seq<Section>, tt: seq<Section>)
    requires AllFit(tt) && ss <= tt
    ensures AllFit(ss) && EncodeAll(ss) <= EncodeAll(tt)
  {
    if ss != [] {
      EncodePrefix(ss[1..], tt[1..]);
    }
  }

  /** What is out at any moment is the beginning of what will be out later, and of the whole in the end. */
  lemma ClosedPrefix(e: Encoder, ps: seq<word>, k: nat)
    requires k <= |ps|
    ensures Closed(e, ps[..k]) <= Closed(e, ps) <= Compress(e, ps)
  {
    ClosedStays(e, ps, k);
    FinishMeaning(e, ps);
    ScanConsistent(e, ps);
    EncodePrefix(Scan(e, ps[..k]).closed, Scan(e, ps).closed);
    EncodePrefix(Scan(e, ps).closed, Finish(Scan(e, ps)));
  }

  // ---------------------------------------------------------------- size

  function Cost(s: Section): nat {
    if s.Run? then 3 else if s.values == [] then 0 else 1 + 2 * |s.values|
  }

  function CostAll(ss: seq<Section>): nat {
    if ss == [] then 0 else CostAll(ss[..|ss| - 1]) + Cost(Last(ss))
  }

  lemma CostAppend(ss: seq<Section>, s: Section)
    ensures CostAll(ss + [s]) == CostAll(ss) + Cost(s)
  {
    assert (ss + [s])[..|ss|] == ss;
  }

  lemma {:induction false} CostIsLength(ss: seq<Section>)
    requires AllFit(ss)
    ensures |EncodeAll(ss)| == CostAll(ss)
  {
    if ss != [] {
      var init := ss[..|ss| - 1];
      assert init + [Last(ss)] == ss;
      CostIsLength(init);
      EncodeAllAppend(init, Last(ss));
    }
  }

  function StateCost(st: State): nat {
    CostAll(st.closed) + Cost(st.open)
  }

  /** Octets produced if the input ended here. */
  lemma CompressLength(e: Encoder, ps: seq<word>)
    ensures |Compress(e, ps)| == StateCost(Scan(e, ps))
  {
    FinishMeaning(e, ps);
    var st := Scan(e, ps);
    CostIsLength(Finish(st));
    CostAppend(st.closed, st.open);
  }

  /** What one more pixel costs. */
  lemma CostAfterStep(e: Encoder, st: State, p: word)
    requires st.open.Literal? ==> |st.open.values| <= SECTION_MAX
    ensures StateCost(Step(e, st, p)) - StateCost(st) ==
            match st.open
            case Run(n, v) => if p == v && n != SECTION_MAX then 0 else 3
            case Literal(vs) =>
              if vs == [] || (|vs| == SECTION_MAX && p != Last(vs)) then 3
              else if p != Last(vs) then 2
              else if |vs| == 1 then 0 else 1
  {
    CostAppend(st.closed, st.open);
    if st.open.Literal? && st.open.values != [] {
      CostAppend(st.closed, Literal(st.open.values[..|st.open.values| - 1]));
    }
  }

  function PixelsOf(s: Section): nat {
    |Expand(s)|
  }

  /** Octets beyond two per pixel in the closed sections. */
  function Excess(st: State, consumed: nat): int {
    CostAll(st.closed) - 2 * (consumed - PixelsOf(st.open))
  }

  /** The charging argument: a short literal's extra header octet is paid for by the run that cut it short,
      a full literal's by its own 128 pixels, and a run of one by the full run before it. */
  ghost predicate Charged(st: State, consumed: nat) {
    var done := consumed - PixelsOf(st.open);
    done >= 0 && 128 * (Excess(st, consumed) + Slack(st.open)) <= done
  }

  function Slack(open: Section): int {
    if open.Literal? then 0 else if open.count == 1 then 1 else -1
  }

  /** A section is closed and another opened. */
  lemma CloseCharged(st: State, consumed: nat, closing: Section, open: Section)
    requires PixelsOf(closing) + PixelsOf(open) == PixelsOf(st.open) + 1
    requires Charged(st, consumed)
    requires var n, cost := PixelsOf(closing), Cost(closing);
             128 * (cost - 2 * n + Slack(open) - Slack(st.open)) <= n
    ensures Charged(State(st.closed + [closing], open), consumed + 1)
  {
    hide Cost, PixelsOf, Slack;
    CostAppend(st.closed, closing);
  }

  lemma RunCharges(n: nat, v: word, p: word)
    requires 1 <= n <= SECTION_MAX
    ensures Slack(Run(n, v)) == (if n == 1 then 1 else -1) && PixelsOf(Run(n, v)) == n
    ensures PixelsOf(Literal([p])) == 1 == PixelsOf(Run(1, p)) && Slack(Literal([p])) == 0 && Slack(Run(1, p)) == 1
  {
  }

  lemma StepCharged(e: Encoder, st: State, ps: seq<word>, p: word)
    requires Consistent(st, ps) && Charged(st, |ps|)
    ensures Charged(Step(e, st, p), |ps| + 1)
  {
    match st.open
    case Run(n, v) =>
      RunStepCharged(e, st, |ps|, p);
    case Literal(vs) =>
      LiteralStepCharged(e, st, |ps|, p);
  }

  lemma RunStepCharged(e: Encoder, st: State, consumed: nat, p: word)
    requires st.open.Run? && Fits(st.open) && Charged(st, consumed)
    ensures Charged(Step(e, st, p), consumed + 1)
  {
    var Run(n, v) := st.open;
    if p == v && n < SECTION_MAX {
      assert PixelsOf(Run(n + 1, v)) == PixelsOf(st.open) + 1;
    } else {
      RunCharges(n, v, p);
      hide Charged, PixelsOf, Slack;
      CloseCharged(st, consumed, st.open, if p == v && e.Sdk? then Run(1, p) else Literal([p]));
    }
  }

  lemma LiteralStepCharged(e: Encoder, st: State, consumed: nat, p: word)
    requires st.open.Literal? && (st.open.values != [] ==> Fits(st.open)) && Charged(st, consumed)
    ensures Charged(Step(e, st, p), consumed + 1)
  {
    var vs := st.open.values;
    if vs != [] && p == Last(vs) {
      if |vs| > 1 {
        assert PixelsOf(Literal(vs[..|vs| - 1])) == |vs| - 1 && PixelsOf(Run(2, p)) == 2;
        hide Charged;
        CloseCharged(st, consumed, Literal(vs[..|vs| - 1]), Run(2, p));
      }
    } else if |vs| == SECTION_MAX {
      hide Charged;
      CloseCharged(st, consumed, st.open, Literal([p]));
    }
  }

  lemma {:induction false} ScanCharged(e: Encoder, ps: seq<word>)
    ensures Charged(Scan(e, ps), |ps|)
  {
    if ps != [] {
      var init := ps[..|ps| - 1];
      ScanCharged(e, init);
      ScanConsistent(e, init);
      StepCharged(e, Scan(e, init), init, Last(ps));
    }
  }

  /** The estimate in both sources' comments: one extra octet per started block of 128 pixels. */
  function WorstCase(n: nat): nat {
    2 * n + (n + 0x7f) / 0x80
  }

  lemma CompressBound(e: Encoder, ps: seq<word>)
    ensures |Compress(e, ps)| <= WorstCase(|ps|)
  {
    ScanCharged(e, ps);
    ScanConsistent(e, ps);
    CompressLength(e, ps);
  }

  predicate NoPairs(ps: seq<word>) {
    forall i {:trigger ps[i]} :: 1 <= i < |ps| ==> ps[i] != ps[i - 1]
  }

  /** The open section is a literal that began at the last multiple of 128 pixels, and the estimate is reached. */
  predicate AllLiteral(st: State, n: nat) {
    && st.open.Literal? && |st.open.values| == (if n == 0 then 0 else (n - 1) % SECTION_MAX + 1)
    && StateCost(st) == WorstCase(n)
  }

  lemma AllLiteralStep(e: Encoder, st: State, n: nat, p: word)
    requires AllLiteral(st, n) && (st.open.values != [] ==> p != Last(st.open.values))
    ensures AllLiteral(Step(e, st, p), n + 1)
  {
    var vs := st.open.values;
    CostAfterStep(e, st, p);
    hide StateCost;
    assert WorstCase(n + 1) == WorstCase(n) + if n % SECTION_MAX == 0 then 3 else 2;
    assert n % SECTION_MAX == if |vs| == SECTION_MAX then 0 else |vs|;
  }

  lemma {:induction false} ScanNoPairs(e: Encoder, ps: seq<word>)
    requires NoPairs(ps)
    ensures AllLiteral(Scan(e, ps), |ps|)
  {
    if ps != [] {
      var init := ps[..|ps| - 1];
      ScanNoPairs(e, init);
      ScanConsistent(e, init);
      var open := Scan(e, init).open;
      assert open.values != [] ==> Last(open.values) == Last(init) == ps[|ps| - 2];
      hide AllLiteral, Consistent, Step;
      AllLiteralStep(e, Scan(e, init), |init|, Last(ps));
    }
  }

  /** The estimate cannot be improved: pixels of which no two neighbours are equal take all of it, in either encoder. */
  lemma NoPairsReachBound(e: Encoder, ps: seq<word>)
    requires NoPairs(ps)
    ensures |Compress(e, ps)| == WorstCase(|ps|)
  {
    ScanNoPairs(e, ps);
    CompressLength(e, ps);
  }

  lemma WorstCaseMonotone(m: nat, n: nat)
    requires m <= n
    ensures WorstCase(m) <= WorstCase(n)
  {
  }
}
