/** How the kernel driver's encoder and the SDK's compare on the same pixels: same meaning, the kernel's output
    never longer, and byte-for-byte equal except after a long run that leaves a single pixel over. */
module RleComparison {
  import opened Bytes
  import opened RleFormat
  import opened RleEncoders

  lemma SameMeaning(ps: seq<word>)
    ensures Decode(Compress(Kernel, ps)) == Decode(Compress(Sdk, ps)) == Some(ps)
  {
    DecodeCompress(Kernel, ps);
    DecodeCompress(Sdk, ps);
  }

  // ---------------------------------------------------------------- length

  /** The SDK never gets ahead. After a full run plus one pixel the SDK has spent a section on that pixel, and
      its literals then trail the kernel's by one pixel until the next pair realigns the two. */
  ghost predicate Trails(k: State, s: State) {
    var lead := StateCost(s) - StateCost(k);
    || (k.open == s.open && lead >= 0)
    || (s.open.Run? && s.open.count == 1 && k.open == Literal([s.open.value]) && lead >= 0)
    || (k.open.Literal? && s.open.Literal? && k.open.values != [] && s.open.values != []
        && Last(k.open.values) == Last(s.open.values)
        && |s.open.values| <= SECTION_MAX
        && if |k.open.values| == 1 then |s.open.values| == SECTION_MAX && lead >= 0
           else |k.open.values| == |s.open.values| + 1 && lead >= 1)
  }

  lemma StepTrails(k: State, s: State, p: word)
    requires Trails(k, s)
    requires k.open.Literal? ==> |k.open.values| <= SECTION_MAX
    requires k.open.Run? ==> 2 <= k.open.count <= SECTION_MAX
    ensures Trails(Step(Kernel, k, p), Step(Sdk, s, p))
  {
    CostAfterStep(Kernel, k, p);
    CostAfterStep(Sdk, s, p);
  }

  lemma {:induction false} KernelRunsAreLong(ps: seq<word>)
    ensures var st := Scan(Kernel, ps);
            && (forall i :: 0 <= i < |st.closed| && st.closed[i].Run? ==> st.closed[i].count >= 2)
            && (st.open.Run? ==> st.open.count >= 2)
  {
    if ps != [] {
      KernelRunsAreLong(ps[..|ps| - 1]);
    }
  }

  lemma {:induction false} ScanTrails(ps: seq<word>)
    ensures Trails(Scan(Kernel, ps), Scan(Sdk, ps))
  {
    if ps != [] {
      var init := ps[..|ps| - 1];
      ScanTrails(init);
      ScanConsistent(Kernel, init);
      KernelRunsAreLong(init);
      StepTrails(Scan(Kernel, init), Scan(Sdk, init), Last(ps));
    }
  }

  lemma KernelNeverLonger(ps: seq<word>)
    ensures |Compress(Kernel, ps)| <= |Compress(Sdk, ps)|
  {
    ScanTrails(ps);
    CompressLength(Kernel, ps);
    CompressLength(Sdk, ps);
  }

  // ---------------------------------------------------------------- equality

  /** Length of the run of equal pixels that ends the sequence. */
  function TrailingRun(ps: seq<word>): nat {
    if |ps| < 2 then |ps|
    else if ps[|ps| - 2] == Last(ps) then TrailingRun(ps[..|ps| - 1]) + 1
    else 1
  }

  predicate LeavesOne(length: nat) {
    length > SECTION_MAX && length % 0x80 == 1
  }

  /** A maximal run ends just before position j, is longer than a section, and leaves one pixel over. */
  ghost predicate OddRunEndsAt(ps: seq<word>, j: nat)
    requires 0 < j <= |ps|
  {
    (j < |ps| ==> ps[j] != ps[j - 1]) && LeavesOne(TrailingRun(ps[..j]))
  }

  ghost predicate HasOddRun(ps: seq<word>) {
    exists j :: 0 < j <= |ps| && OddRunEndsAt(ps, j)
  }

  ghost predicate HasOddRunBeforeEnd(ps: seq<word>) {
    exists j :: 0 < j < |ps| && OddRunEndsAt(ps, j)
  }

  lemma OddRunStep(ps: seq<word>, p: word)
    requires ps != []
    ensures HasOddRunBeforeEnd(ps + [p]) <==>
            HasOddRunBeforeEnd(ps) || (p != Last(ps) && LeavesOne(TrailingRun(ps)))
  {
    var qs := ps + [p];
    forall j | 0 < j <= |ps|
      ensures qs[..j] == ps[..j]
    {
    }
    assert ps[..|ps|] == ps;
    if HasOddRunBeforeEnd(ps) {
      var j :| 0 < j < |ps| && OddRunEndsAt(ps, j);
      assert OddRunEndsAt(qs, j);
    }
    if p != Last(ps) && LeavesOne(TrailingRun(ps)) {
      assert OddRunEndsAt(qs, |ps|);
    }
    if HasOddRunBeforeEnd(qs) {
      var j :| 0 < j < |qs| && OddRunEndsAt(qs, j);
      assert j < |ps| ==> OddRunEndsAt(ps, j);
    }
  }

  ghost predicate IsSingletonRun(s: Section) {
    s.Run? && s.count == 1
  }

  ghost predicate HasSingletonRun(ss: seq<Section>) {
    exists i :: 0 <= i < |ss| && IsSingletonRun(ss[i])
  }

  lemma SingletonAppend(ss: seq<Section>, s: Section)
    ensures HasSingletonRun(ss + [s]) <==> HasSingletonRun(ss) || IsSingletonRun(s)
  {
    if HasSingletonRun(ss) {
      var i :| 0 <= i < |ss| && IsSingletonRun(ss[i]);
      assert IsSingletonRun((ss + [s])[i]);
    }
    if IsSingletonRun(s) {
      assert IsSingletonRun((ss + [s])[|ss|]);
    }
  }

  /** What the open SDK section says about the run that ends the input. */
  ghost predicate Counts(open: Section, length: nat) {
    match open
    case Run(n, _) => 1 <= n <= SECTION_MAX && length % 0x80 == n % 0x80 && length >= 2
    case Literal(vs) => length == if vs == [] then 0 else 1
  }

  lemma TrailingRunStep(ps: seq<word>, p: word)
    requires ps != []
    ensures TrailingRun(ps + [p]) == if p == Last(ps) then TrailingRun(ps) + 1 else 1
  {
    assert (ps + [p])[..|ps|] == ps;
  }

  lemma ModNext(a: nat, b: nat)
    requires a % 0x80 == b % 0x80
    ensures (a + 1) % 0x80 == (b + 1) % 0x80
  {
  }

  lemma CountsStep(open: Section, closed: seq<Section>, last: word, length: nat, p: word)
    requires Counts(open, length) && EndsWith(open, last)
    ensures Counts(Step(Sdk, State(closed, open), p).open, if p == last then length + 1 else 1)
  {
    match open
    case Run(n, v) =>
      ModNext(length, n);
      if p == v && n == SECTION_MAX {
        assert Step(Sdk, State(closed, open), p).open == Run(1, p);
      }
    case Literal(vs) =>
  }

  lemma CountsFirst(p: word)
    ensures Counts(Scan(Sdk, [p]).open, TrailingRun([p]))
  {
    assert [p][..0] == [];
  }

  lemma {:induction false} SdkCounts(ps: seq<word>)
    ensures Counts(Scan(Sdk, ps).open, TrailingRun(ps))
  {
    if |ps| == 1 {
      CountsFirst(ps[0]);
      assert ps == [ps[0]];
    } else if ps != [] {
      var init := ps[..|ps| - 1];
      assert ps == init + [Last(ps)];
      SdkCounts(init);
      SdkCountsMore(init, Last(ps));
    }
  }

  lemma SdkCountsMore(ps: seq<word>, p: word)
    requires ps != [] && Counts(Scan(Sdk, ps).open, TrailingRun(ps))
    ensures Counts(Scan(Sdk, ps + [p]).open, TrailingRun(ps + [p]))
  {
    hide Consistent, TrailingRun, Scan, Step, Counts, EndsWith;
    ScanAppend(Sdk, ps, p);
    ScanConsistent(Sdk, ps);
    OpenEnds(Scan(Sdk, ps), ps);
    TrailingRunStep(ps, p);
    CountsStep(Scan(Sdk, ps).open, Scan(Sdk, ps).closed, Last(ps), TrailingRun(ps), p);
  }

  lemma {:induction false} SdkClosesSingletons(ps: seq<word>)
    ensures HasSingletonRun(Scan(Sdk, ps).closed) <==> HasOddRunBeforeEnd(ps)
  {
    if |ps| > 1 {
      var init, p := ps[..|ps| - 1], Last(ps);
      var st := Scan(Sdk, init);
      assert ps == init + [p];
      SdkClosesSingletons(init);
      OddRunStep(init, p);
      SdkStepCloses(init, p);
    }
  }

  /** A step closes a singleton run exactly when it cuts off a run that leaves one pixel over. */
  lemma SdkStepCloses(ps: seq<word>, p: word)
    requires ps != []
    ensures var st := Scan(Sdk, ps);
            HasSingletonRun(Step(Sdk, st, p).closed) <==>
            HasSingletonRun(st.closed) || (p != Last(ps) && LeavesOne(TrailingRun(ps)))
  {
    var st := Scan(Sdk, ps);
    SdkCounts(ps);
    ScanConsistent(Sdk, ps);
    OpenEnds(st, ps);
    hide Scan, Consistent, HasSingletonRun, TrailingRun;
    StepCloses(st, Last(ps), TrailingRun(ps), p);
  }

  lemma StepCloses(st: State, last: word, length: nat, p: word)
    requires Counts(st.open, length) && EndsWith(st.open, last)
    ensures HasSingletonRun(Step(Sdk, st, p).closed) <==> HasSingletonRun(st.closed) || (p != last && LeavesOne(length))
  {
    SingletonAppend(st.closed, st.open);
    if st.open.Literal? {
      var vs := st.open.values;
      SingletonAppend(st.closed, Literal(vs[..|vs| - 1]));
    }
    hide HasSingletonRun;
    assert st.open.Run? && p != last ==> (IsSingletonRun(st.open) <==> LeavesOne(length));
  }

  lemma OddRunAtEnd(ps: seq<word>)
    requires ps != []
    ensures HasOddRun(ps) <==> HasOddRunBeforeEnd(ps) || LeavesOne(TrailingRun(ps))
  {
    assert ps[..|ps|] == ps;
    if LeavesOne(TrailingRun(ps)) {
      assert OddRunEndsAt(ps, |ps|);
    }
    if HasOddRun(ps) {
      var j :| 0 < j <= |ps| && OddRunEndsAt(ps, j);
      assert j == |ps| ==> LeavesOne(TrailingRun(ps));
    }
  }

  lemma SdkSingletonIffOddRun(ps: seq<word>)
    ensures HasSingletonRun(Finish(Scan(Sdk, ps))) <==> HasOddRun(ps)
  {
    var st := Scan(Sdk, ps);
    SdkCounts(ps);
    SdkClosesSingletons(ps);
    SingletonAppend(st.closed, st.open);
    ScanConsistent(Sdk, ps);
    if ps != [] {
      OddRunAtEnd(ps);
    }
  }

  /** As long as the SDK has closed no singleton run the two states agree, up to a pending single pixel. */
  lemma {:induction false} StatesAgree(ps: seq<word>)
    requires !HasSingletonRun(Scan(Sdk, ps).closed)
    ensures var k, s := Scan(Kernel, ps), Scan(Sdk, ps);
            && k.closed == s.closed
            && (k.open == s.open || (IsSingletonRun(s.open) && k.open == Literal([s.open.value])))
  {
    if ps != [] {
      var init := ps[..|ps| - 1];
      var s := Scan(Sdk, init);
      SingletonAppend(s.closed, s.open);
      if s.open.Literal? && s.open.values != [] {
        SingletonAppend(s.closed, Literal(s.open.values[..|s.open.values| - 1]));
      }
      StatesAgree(init);
    }
  }

  /** The two encoders produce the same octets exactly when no maximal run longer than 128 pixels
      leaves a remainder of one. */
  lemma SameBytesIff(ps: seq<word>)
    ensures Compress(Kernel, ps) == Compress(Sdk, ps) <==> !HasOddRun(ps)
  {
    hide Scan, Step, EncodeAll, Expand, ExpandAll, HasOddRun, Fits;
    var k, s := Scan(Kernel, ps), Scan(Sdk, ps);
    FinishMeaning(Kernel, ps);
    FinishMeaning(Sdk, ps);
    EncodeInjective(Finish(k), Finish(s));
    SdkSingletonIffOddRun(ps);
    KernelRunsAreLong(ps);
    if HasOddRun(ps) {
      assert !HasSingletonRun(Finish(k));
    } else {
      SingletonAppend(s.closed, s.open);
      StatesAgree(ps);
    }
  }
}
