/** getopt's exchange: two adjacent blocks of the argument vector change places within the array, by swapping the shorter
    one with the far end of the longer one until nothing is left to swap. */
module Getopt {

  /** The blocks s[b..m] and s[m..t] exchanged. */
  function Exchanged<T>(s: seq<T>, b: nat, m: nat, t: nat): (r: seq<T>)
    requires b <= m <= t <= |s|
    ensures |r| == |s|
  {
    s[..b] + s[m..t] + s[b..m] + s[t..]
  }

  /** Where the element at k comes from. */
  function Source(b: nat, m: nat, t: nat, k: nat): nat
    requires b <= m <= t
  {
    if b <= k < b + (t - m) then k + (m - b)
    else if b + (t - m) <= k < t then k - (t - m)
    else k
  }

  lemma ExchangedAt<T>(s: seq<T>, b: nat, m: nat, t: nat, k: nat)
    requires b <= m <= t <= |s| && k < |s|
    ensures Source(b, m, t, k) < |s| && Exchanged(s, b, m, t)[k] == s[Source(b, m, t, k)]
  {
  }

  /** The order within each block is kept, and nothing else moves. */
  lemma BlocksKept<T>(s: seq<T>, b: nat, m: nat, t: nat)
    requires b <= m <= t <= |s|
    ensures var r := Exchanged(s, b, m, t);
            && r[b..b + (t - m)] == s[m..t] && r[b + (t - m)..t] == s[b..m]
            && r[..b] == s[..b] && r[t..] == s[t..]
            && multiset(r) == multiset(s)
  {
    assert s == s[..b] + s[b..m] + s[m..t] + s[t..];
  }

  /** Exchanging the blocks again, from where they are then, undoes it. */
  lemma ExchangeBack<T>(s: seq<T>, b: nat, m: nat, t: nat)
    requires b <= m <= t <= |s|
    ensures Exchanged(Exchanged(s, b, m, t), b, b + (t - m), t) == s
  {
    BlocksKept(s, b, m, t);
    assert s == s[..b] + s[b..m] + s[m..t] + s[t..];
  }

  /** The other of two indices when the blocks of `len` elements at x and y are swapped. */
  function Other(x: nat, y: nat, len: nat, k: nat): nat
    requires x + len <= y
  {
    if x <= k < x + len then k + (y - x) else if y <= k < y + len then k - (y - x) else k
  }

  /** With an empty block nothing is left to exchange. */
  lemma NothingLeft(b: nat, m: nat, t: nat)
    requires b <= m <= t && (b == m || m == t)
    ensures forall k {:trigger Source(b, m, t, k)} :: 0 <= k ==> Source(b, m, t, k) == k
  {
  }

  ghost predicate Swapped<T>(s: seq<T>, s': seq<T>, x: nat, y: nat, len: nat)
    requires x + len <= y && y + len <= |s|
  {
    |s'| == |s| && forall k {:trigger s'[k]} :: 0 <= k < |s| ==> s'[k] == s[Other(x, y, len, k)]
  }

  method SwapBlocks<T>(a: array<T>, x: nat, y: nat, len: nat)
    requires x + len <= y && y + len <= a.Length
    modifies a
    ensures Swapped(old(a[..]), a[..], x, y, len)
  {
    for i := 0 to len
      invariant forall k :: 0 <= k < a.Length ==> a[k] == old(a[Other(x, y, i, k)])
    {
      a[x + i], a[y + i] := a[y + i], a[x + i];
    }
  }

  /** What is left to exchange now gives what there was to exchange at first. */
  ghost predicate Relocated<T>(now: seq<T>, b: nat, m: nat, t: nat, was: seq<T>, b0: nat, m0: nat, t0: nat) {
    && b <= m <= t <= |now| == |was| && b0 <= m0 <= t0
    && forall k {:trigger Source(b, m, t, k)} {:trigger Source(b0, m0, t0, k)} :: 0 <= k < |was| ==>
         && Source(b, m, t, k) < |was| && Source(b0, m0, t0, k) < |was|
         && now[Source(b, m, t, k)] == was[Source(b0, m0, t0, k)]
  }

  lemma RelocatedAtFirst<T>(s: seq<T>, b: nat, m: nat, t: nat)
    requires b <= m <= t <= |s|
    ensures Relocated(s, b, m, t, s, b, m, t)
  {
  }

  /** With the short bottom block swapped to the far end of the top one, what is left is to exchange within the rest. */
  lemma BottomShort<T>(now: seq<T>, now': seq<T>, b: nat, m: nat, t: nat, was: seq<T>, b0: nat, m0: nat, t0: nat)
    requires Relocated(now, b, m, t, was, b0, m0, t0) && m + (m - b) <= t && Swapped(now, now', b, t - (m - b), m - b)
    ensures Relocated(now', b, m, t - (m - b), was, b0, m0, t0)
  {
    forall k | 0 <= k < |was|
      ensures Other(b, t - (m - b), m - b, Source(b, m, t - (m - b), k)) == Source(b, m, t, k)
    {
    }
  }

  /** The same with the short top block swapped to the far end of the bottom one. */
  lemma TopShort<T>(now: seq<T>, now': seq<T>, b: nat, m: nat, t: nat, was: seq<T>, b0: nat, m0: nat, t0: nat)
    requires Relocated(now, b, m, t, was, b0, m0, t0) && b + (t - m) <= m && Swapped(now, now', b, m, t - m)
    ensures Relocated(now', b + (t - m), m, t, was, b0, m0, t0)
  {
    forall k | 0 <= k < |was|
      ensures Other(b, m, t - m, Source(b + (t - m), m, t, k)) == Source(b, m, t, k)
    {
    }
  }

  class Scanner<T> {
    var firstNonopt: nat
    var lastNonopt: nat
    var optind: nat

    constructor (optind: nat)
      ensures this.optind == firstNonopt == lastNonopt == optind
    {
      firstNonopt, lastNonopt, this.optind := optind, optind, optind;
    }

    /** exchange */
    method Exchange(argv: array<T>)
      requires firstNonopt <= lastNonopt <= optind <= argv.Length
      modifies argv, this`firstNonopt, this`lastNonopt
      ensures argv[..] == Exchanged(old(argv[..]), old(firstNonopt), old(lastNonopt), optind)
      ensures firstNonopt <= lastNonopt == optind && lastNonopt - firstNonopt == old(lastNonopt - firstNonopt)
      ensures argv[firstNonopt..lastNonopt] == old(argv[firstNonopt..lastNonopt])
    {
      hide Source, Other, Exchanged, Swapped;
      ghost var was := argv[..];
      ghost var b, m, t := firstNonopt, lastNonopt, optind;
      RelocatedAtFirst(was, b, m, t);
      var bottom: nat, middle: nat, top: nat := firstNonopt, lastNonopt, optind;
      while top > middle && middle > bottom
        invariant bottom <= middle <= top <= argv.Length
        invariant Relocated(argv[..], bottom, middle, top, was, b, m, t)
        modifies argv
        decreases top - bottom
      {
        if top - middle > middle - bottom {
          var len := middle - bottom;
          ghost var now := argv[..];
          SwapBlocks(argv, bottom, top - len, len);
          BottomShort(now, argv[..], bottom, middle, top, was, b, m, t);
          top := top - len;
        } else {
          var len := top - middle;
          ghost var now := argv[..];
          SwapBlocks(argv, bottom, middle, len);
          TopShort(now, argv[..], bottom, middle, top, was, b, m, t);
          bottom := bottom + len;
        }
      }
      NothingLeft(bottom, middle, top);
      forall k | 0 <= k < argv.Length
        ensures argv[..][k] == Exchanged(was, b, m, t)[k]
      {
        ExchangedAt(was, b, m, t, k);
      }
      BlocksKept(was, b, m, t);
      firstNonopt := firstNonopt + (optind - lastNonopt);
      lastNonopt := optind;
    }
  }
}
