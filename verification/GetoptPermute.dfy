/** getopt's scan of the argument vector when options and other arguments may be mixed: it permutes the vector as it
    goes, so that in the end the options with their arguments come first and the rest follows, each group in its own order. */
module GetoptPermute {
  import opened Getopt

  /** NONOPTION_P: no leading dash, or nothing behind it. */
  predicate NonOption(s: string) {
    s == "" || s[0] != '-' || |s| == 1
  }

  /** What an element of the vector was taken for; Rest is what follows a `--`. */
  datatype Kind = Option | Argument | Other | Ender | Rest

  /** It goes to the front. */
  predicate Moves(k: Kind) {
    k != Other && k != Rest
  }

  /** What `x` is behind elements taken for `kinds`, of which `before` is the last: everything behind a `--` is passed over,
      an option that wants an argument takes the next element whatever it looks like, and otherwise the syntax tells. */
  function Next(kinds: seq<Kind>, before: string, x: string, withArgument: string -> bool): Kind {
    if kinds != [] && (kinds[|kinds| - 1] == Ender || kinds[|kinds| - 1] == Rest) then Rest
    else if kinds != [] && kinds[|kinds| - 1] == Option && withArgument(before) then Argument
    else if x == "--" then Ender
    else if NonOption(x) then Other
    else Option
  }

  /** What the elements of a vector are, its program name left out. */
  function Classify(s: seq<string>, withArgument: string -> bool): (kinds: seq<Kind>)
    ensures |kinds| == |s|
  {
    if s == [] then []
    else
      var n := |s| - 1;
      var kinds := Classify(s[..n], withArgument);
      kinds + [Next(kinds, if n == 0 then "" else s[n - 1], s[n], withArgument)]
  }

  lemma ClassifyMore(s: seq<string>, x: string, withArgument: string -> bool)
    ensures Classify(s + [x], withArgument)
         == Classify(s, withArgument)
            + [Next(Classify(s, withArgument), if s == [] then "" else s[|s| - 1], x, withArgument)]
  {
    assert (s + [x])[..|s|] == s;
  }

  /** What an element is depends on it and what stands before it. */
  lemma {:induction false} ClassifyPrefix(s: seq<string>, k: nat, withArgument: string -> bool)
    requires k <= |s|
    ensures Classify(s[..k], withArgument) == Classify(s, withArgument)[..k]
  {
    if k < |s| {
      ClassifyPrefix(s[..|s| - 1], k, withArgument);
      assert s[..|s| - 1][..k] == s[..k];
    } else {
      assert s[..k] == s;
    }
  }

  lemma ClassifyAt(s: seq<string>, i: nat, withArgument: string -> bool)
    requires i < |s|
    ensures var kinds := Classify(s, withArgument);
            kinds[i] == Next(kinds[..i], if i == 0 then "" else s[i - 1], s[i], withArgument)
  {
    hide Classify, Next;
    ClassifyPrefix(s, i, withArgument);
    ClassifyPrefix(s, i + 1, withArgument);
    assert s[..i + 1] == s[..i] + [s[i]];
    ClassifyMore(s[..i], s[i], withArgument);
    assert Classify(s, withArgument)[i] == Classify(s, withArgument)[..i + 1][i];
  }

  /** Exactly which elements are arguments: those behind an option that wants one. */
  lemma ArgumentIff(s: seq<string>, i: nat, withArgument: string -> bool)
    requires i < |s|
    ensures var kinds := Classify(s, withArgument);
            kinds[i] == Argument <==> i > 0 && kinds[i - 1] == Option && withArgument(s[i - 1])
  {
    hide Classify;
    ClassifyAt(s, i, withArgument);
  }

  /** Exactly which elements are passed over whatever they look like: those behind a `--` that is no argument. */
  lemma {:induction false} RestIff(s: seq<string>, i: nat, withArgument: string -> bool)
    requires i < |s|
    ensures var kinds := Classify(s, withArgument);
            kinds[i] == Rest <==> exists j :: 0 <= j < i && kinds[j] == Ender
    decreases i
  {
    hide Classify;
    ClassifyAt(s, i, withArgument);
    if i > 0 {
      RestIff(s, i - 1, withArgument);
    }
  }

  /** Exactly which of the other elements go to the front: those with a dash in front of something. */
  lemma MovesIff(s: seq<string>, i: nat, withArgument: string -> bool)
    requires i < |s|
    ensures var kinds := Classify(s, withArgument);
            kinds[i] != Argument && kinds[i] != Rest ==> (Moves(kinds[i]) <==> |s[i]| > 1 && s[i][0] == '-')
    ensures var kinds := Classify(s, withArgument);
            kinds[i] == Ender <==> s[i] == "--" && kinds[i] != Argument && kinds[i] != Rest
    ensures Classify(s, withArgument)[i] == Argument ==> Moves(Classify(s, withArgument)[i])
    ensures Classify(s, withArgument)[i] == Rest ==> !Moves(Classify(s, withArgument)[i])
  {
    hide Classify;
    ClassifyAt(s, i, withArgument);
  }

  /** Syntax tells what the element at `optind` is: nothing before it has a claim to it. */
  predicate Ready(orig: seq<string>, kinds: seq<Kind>, optind: nat, withArgument: string -> bool) {
    && 1 <= optind <= |orig| && |kinds| == optind - 1
    && (kinds != [] && optind < |orig| ==>
          var k := kinds[optind - 2];
          k == Argument || k == Other || (k == Option && !withArgument(orig[optind - 1])))
  }

  /** The elements so far are known for what they are. */
  predicate KnownTo(orig: seq<string>, kinds: seq<Kind>, optind: nat, withArgument: string -> bool) {
    1 <= optind <= |orig| && kinds == Classify(orig[1..optind], withArgument)
  }

  /** One more element is told. */
  lemma Told(orig: seq<string>, kinds: seq<Kind>, optind: nat, withArgument: string -> bool)
    requires KnownTo(orig, kinds, optind, withArgument) && optind < |orig|
    ensures KnownTo(orig, kinds + [Next(kinds, orig[optind - 1], orig[optind], withArgument)], optind + 1, withArgument)
  {
    assert orig[1..optind + 1] == orig[1..optind] + [orig[optind]];
    ClassifyMore(orig[1..optind], orig[optind], withArgument);
  }

  /** The elements that move, or those that do not, in order. */
  function Pick(s: seq<string>, kinds: seq<Kind>, moving: bool): seq<string>
    requires |s| == |kinds|
  {
    if s == [] then []
    else
      var n := |s| - 1;
      Pick(s[..n], kinds[..n], moving) + if Moves(kinds[n]) == moving then [s[n]] else []
  }

  lemma PickMore(s: seq<string>, kinds: seq<Kind>, x: string, k: Kind, moving: bool)
    requires |s| == |kinds|
    ensures Pick(s + [x], kinds + [k], moving) == Pick(s, kinds, moving) + if Moves(k) == moving then [x] else []
  {
    assert (s + [x])[..|s|] == s && (kinds + [k])[..|s|] == kinds;
  }

  /** Nothing is lost or made up. */
  lemma {:induction false} PickAll(s: seq<string>, kinds: seq<Kind>)
    requires |s| == |kinds|
    ensures multiset(Pick(s, kinds, true)) + multiset(Pick(s, kinds, false)) == multiset(s)
  {
    hide Pick, Moves;
    if s == [] {
      NothingPicked();
    } else {
      var n := |s| - 1;
      PickAll(s[..n], kinds[..n]);
      PickMore(s[..n], kinds[..n], s[n], kinds[n], true);
      PickMore(s[..n], kinds[..n], s[n], kinds[n], false);
      assert s == s[..n] + [s[n]] && kinds == kinds[..n] + [kinds[n]];
      OneElsewhere(Pick(s[..n], kinds[..n], true), Pick(s[..n], kinds[..n], false), s[n], Moves(kinds[n]));
    }
  }

  lemma NothingPicked()
    ensures Pick([], [], true) == Pick([], [], false) == []
  {
  }

  lemma OneElsewhere(a: seq<string>, b: seq<string>, x: string, first: bool)
    ensures multiset(a + if first == true then [x] else []) + multiset(b + if first == false then [x] else [])
         == multiset(a) + multiset(b) + multiset{x}
  {
    assert a + [] == a && b + [] == b;
  }

  /** The scan stands at `optind`: the options of orig[1..optind] are in front of `first` and behind `last`, in order, and
      the others between, in order; nothing from `optind` on has been touched. */
  ghost predicate Standing(argv: seq<string>, orig: seq<string>, kinds: seq<Kind>, first: nat, last: nat, optind: nat) {
    && 1 <= first <= last <= optind <= |argv| == |orig| && |kinds| == optind - 1
    && argv[..1] == orig[..1] && argv[optind..] == orig[optind..]
    && argv[1..first] + argv[last..optind] == Pick(orig[1..optind], kinds, true)
    && argv[first..last] == Pick(orig[1..optind], kinds, false)
  }

  lemma StandingAtFirst(orig: seq<string>)
    requires orig != []
    ensures Standing(orig, orig, [], 1, 1, 1)
  {
  }

  /** After an exchange everything moved so far is in front. */
  lemma StandingExchanged(argv: seq<string>, orig: seq<string>, kinds: seq<Kind>, first: nat, last: nat, optind: nat)
    requires Standing(argv, orig, kinds, first, last, optind)
    ensures Standing(Exchanged(argv, first, last, optind), orig, kinds, first + (optind - last), optind, optind)
  {
    var r, mid := Exchanged(argv, first, last, optind), first + (optind - last);
    BlocksKept(argv, first, last, optind);
    assert r[..first] == argv[..first] && r[first..mid] == argv[last..optind];
    assert r[1..mid] == argv[1..first] + argv[last..optind];
    assert r[1..mid] + r[optind..optind] == r[1..mid];
    assert r[optind..] == argv[optind..] && r[..1] == argv[..1];
  }

  /** With nothing skipped there is nothing to exchange. */
  lemma StandingForward(argv: seq<string>, orig: seq<string>, kinds: seq<Kind>, first: nat, optind: nat)
    requires Standing(argv, orig, kinds, first, first, optind)
    ensures Standing(argv, orig, kinds, optind, optind, optind)
  {
    assert argv[1..first] + argv[first..optind] == argv[1..optind] + argv[optind..optind];
    assert argv[first..first] == argv[optind..optind];
  }

  /** One more element is taken for what it is. */
  lemma Took(argv: seq<string>, orig: seq<string>, kinds: seq<Kind>, first: nat, last: nat, optind: nat, k: Kind)
    requires Standing(argv, orig, kinds, first, last, optind) && optind < |orig|
    requires Moves(k) || last == optind
    ensures Standing(argv, orig, kinds + [k], first, if Moves(k) then last else last + 1, optind + 1)
  {
    hide Pick, Moves;
    var x := orig[optind];
    Untouched(argv, orig, optind);
    assert orig[1..optind + 1] == orig[1..optind] + [x];
    PickMore(orig[1..optind], kinds, x, k, true);
    PickMore(orig[1..optind], kinds, x, k, false);
    if Moves(k) {
      assert argv[1..first] + argv[last..optind + 1] == (argv[1..first] + argv[last..optind]) + [x];
    } else {
      assert argv[first..optind + 1] == argv[first..optind] + [x];
      assert argv[last..optind] == [] == argv[optind + 1..optind + 1];
    }
  }

  lemma Untouched(argv: seq<string>, orig: seq<string>, optind: nat)
    requires optind < |argv| == |orig| && argv[optind..] == orig[optind..]
    ensures argv[optind] == orig[optind] && argv[optind + 1..] == orig[optind + 1..]
  {
    assert argv[optind] == argv[optind..][0];
    assert argv[optind + 1..] == argv[optind..][1..] == orig[optind..][1..];
  }

  /** What the program finds when the scan is over: its name, the options with their arguments in order, and from optind on
      the other arguments in order. */
  ghost predicate Permuted(argv: seq<string>, orig: seq<string>, kinds: seq<Kind>, optind: nat) {
    && orig != [] && |kinds| == |orig| - 1
    && argv == orig[..1] + Pick(orig[1..], kinds, true) + Pick(orig[1..], kinds, false)
    && optind == 1 + |Pick(orig[1..], kinds, true)|
  }

  lemma StandingAtEnd(argv: seq<string>, orig: seq<string>, kinds: seq<Kind>, first: nat, last: nat)
    requires Standing(argv, orig, kinds, first, last, |orig|) && (first == last || last == |orig|)
    ensures Permuted(argv, orig, kinds, if first != last then first else |orig|)
  {
    var n := |orig|;
    assert orig[1..n] == orig[1..];
    hide Pick;
    if first == last {
      assert argv[1..first] + argv[last..n] == argv[1..];
      assert argv == argv[..1] + argv[1..] + [];
    } else {
      assert argv[1..first] + argv[last..n] == argv[1..first];
      assert argv == argv[..1] + argv[1..first] + argv[first..n];
    }
  }

  class Permuter {
    const argv: array<string>
    const scan: Scanner<string>
    const withArgument: string -> bool     // which options the program gives the next element
    ghost var orig: seq<string>
    ghost var kinds: seq<Kind>

    /** _getopt_initialize in the permuting order, on a vector that holds at least the program's name. */
    constructor (argv: array<string>, withArgument: string -> bool)
      requires argv.Length > 0
      ensures this.argv == argv && this.withArgument == withArgument && fresh(scan) && orig == argv[..]
      ensures Valid() && Free()
    {
      this.argv, this.withArgument := argv, withArgument;
      scan := new Scanner<string>(1);
      orig, kinds := argv[..], [];
      new;
      StandingAtFirst(orig);
    }

    ghost predicate Valid()
      reads this, argv, scan
    {
      Standing(argv[..], orig, kinds, scan.firstNonopt, scan.lastNonopt, scan.optind) && Known()
    }

    ghost predicate Known()
      reads this, scan
    {
      KnownTo(orig, kinds, scan.optind, withArgument)
    }

    ghost predicate Free()
      reads this, scan
    {
      Ready(orig, kinds, scan.optind, withArgument)
    }

    /** Options processed since others were skipped change places with them; without any skipped, the others to come start
        here. */
    method Gather()
      requires Valid()
      modifies argv, scan`firstNonopt, scan`lastNonopt
      ensures Standing(argv[..], orig, kinds, scan.firstNonopt, scan.optind, scan.optind) && Known()
    {
      StandingBounds(argv[..], orig, kinds, scan.firstNonopt, scan.lastNonopt, scan.optind);
      hide Standing, Exchanged;
      if scan.firstNonopt != scan.lastNonopt && scan.lastNonopt != scan.optind {
        StandingExchanged(argv[..], orig, kinds, scan.firstNonopt, scan.lastNonopt, scan.optind);
        scan.Exchange(argv);
      } else if scan.lastNonopt != scan.optind {
        StandingForward(argv[..], orig, kinds, scan.firstNonopt, scan.optind);
        scan.firstNonopt := scan.optind;
      }
    }

    /** The others from here on are passed over. */
    method PassOver()
      requires Standing(argv[..], orig, kinds, scan.firstNonopt, scan.optind, scan.optind) && Known() && Free()
      modifies this`kinds, scan`optind, scan`lastNonopt
      ensures Valid() && Free() && scan.lastNonopt == scan.optind >= old(scan.optind)
      ensures scan.optind < argv.Length ==> !NonOption(argv[scan.optind])
    {
      hide Standing, Classify;
      StandingBounds(argv[..], orig, kinds, scan.firstNonopt, scan.optind, scan.optind);
      while scan.optind < argv.Length && NonOption(argv[scan.optind])
        invariant Standing(argv[..], orig, kinds, scan.firstNonopt, scan.optind, scan.optind) && Known() && Free()
        invariant old(scan.optind) <= scan.optind <= argv.Length
        decreases argv.Length - scan.optind
      {
        StandingBounds(argv[..], orig, kinds, scan.firstNonopt, scan.optind, scan.optind);
        Told(orig, kinds, scan.optind, withArgument);
        Took(argv[..], orig, kinds, scan.firstNonopt, scan.optind, scan.optind, Other);
        kinds := kinds + [Other];
        scan.optind := scan.optind + 1;
      }
      scan.lastNonopt := scan.optind;
    }

    /** A `--` is taken as the last thing that moves; all behind it stays where it is. */
    method EndOfOptions()
      requires Valid() && Free() && scan.lastNonopt == scan.optind < argv.Length && argv[scan.optind] == "--"
      modifies this`kinds, argv, scan
      ensures Valid() && scan.optind == scan.lastNonopt == argv.Length
    {
      hide Standing, Exchanged, Classify;
      StandingBounds(argv[..], orig, kinds, scan.firstNonopt, scan.lastNonopt, scan.optind);
      Told(orig, kinds, scan.optind, withArgument);
      Took(argv[..], orig, kinds, scan.firstNonopt, scan.lastNonopt, scan.optind, Ender);
      kinds := kinds + [Ender];
      scan.optind := scan.optind + 1;
      if scan.firstNonopt != scan.lastNonopt && scan.lastNonopt != scan.optind {
        StandingExchanged(argv[..], orig, kinds, scan.firstNonopt, scan.lastNonopt, scan.optind);
        scan.Exchange(argv);
      } else if scan.firstNonopt == scan.lastNonopt {
        StandingForward(argv[..], orig, kinds, scan.firstNonopt, scan.optind);
        scan.firstNonopt := scan.optind;
      }
      kinds := RestStays(argv[..], orig, kinds, scan.firstNonopt, scan.optind, withArgument);
      scan.lastNonopt := argv.Length;
      scan.optind := argv.Length;
    }

    /** The scan moves on to the next option, true, or to the end of the vector, false. */
    method Advance() returns (option: bool)
      requires Valid() && Free()
      modifies this`kinds, argv, scan
      ensures option ==> Valid() && Free() && old(scan.optind) <= scan.lastNonopt == scan.optind < argv.Length
      ensures option ==> !NonOption(argv[scan.optind]) && argv[scan.optind] != "--"
      ensures !option ==> kinds == Classify(orig[1..], withArgument) && Permuted(argv[..], orig, kinds, scan.optind)
    {
      hide Standing, NonOption, Permuted, Classify, Ready;
      Gather();
      PassOver();
      StandingBounds(argv[..], orig, kinds, scan.firstNonopt, scan.lastNonopt, scan.optind);
      if scan.optind != argv.Length && argv[scan.optind] == "--" {
        EndOfOptions();
      }
      StandingBounds(argv[..], orig, kinds, scan.firstNonopt, scan.lastNonopt, scan.optind);
      if scan.optind == argv.Length {
        assert orig[1..scan.optind] == orig[1..];
        StandingAtEnd(argv[..], orig, kinds, scan.firstNonopt, scan.lastNonopt);
        if scan.firstNonopt != scan.lastNonopt {
          scan.optind := scan.firstNonopt;
        }
        return false;
      }
      return true;
    }

    /** The option at hand is decoded, with the next element as its argument or not. */
    method Consume()
      requires Valid() && Free() && scan.optind < argv.Length && !NonOption(argv[scan.optind]) && argv[scan.optind] != "--"
      modifies this`kinds, scan`optind
      ensures Valid() && Free() && old(scan.optind) < scan.optind <= argv.Length
    {
      hide Standing, Classify, NonOption;
      StandingBounds(argv[..], orig, kinds, scan.firstNonopt, scan.lastNonopt, scan.optind);
      var wanted := withArgument(argv[scan.optind]);
      Told(orig, kinds, scan.optind, withArgument);
      Took(argv[..], orig, kinds, scan.firstNonopt, scan.lastNonopt, scan.optind, Option);
      kinds := kinds + [Option];
      scan.optind := scan.optind + 1;
      if wanted && scan.optind < argv.Length {
        Told(orig, kinds, scan.optind, withArgument);
        Took(argv[..], orig, kinds, scan.firstNonopt, scan.lastNonopt, scan.optind, Argument);
        kinds := kinds + [Argument];
        scan.optind := scan.optind + 1;
      }
    }
  }

  /** A program that asks for options until there are no more finds its vector permuted: which element went to the front
      depends on the vector and on the options it gives an argument, and on nothing else. */
  method ScanAll(argv: array<string>, withArgument: string -> bool) returns (optind: nat)
    requires argv.Length > 0
    modifies argv
    ensures Permuted(argv[..], old(argv[..]), Classify(old(argv[1..]), withArgument), optind)
  {
    hide Permuted, NonOption, Permuter.Valid, Permuter.Free, Classify;
    var p := new Permuter(argv, withArgument);
    var option := p.Advance();
    while option
      invariant p.argv == argv && fresh(p) && fresh(p.scan) && p.orig == old(argv[..]) && p.withArgument == withArgument
      invariant option ==> p.Valid() && p.Free() && p.scan.optind < argv.Length
      invariant option ==> !NonOption(argv[p.scan.optind]) && argv[p.scan.optind] != "--"
      invariant !option ==>
                  p.kinds == Classify(p.orig[1..], withArgument) && Permuted(argv[..], p.orig, p.kinds, p.scan.optind)
      decreases option, argv.Length - p.scan.optind
    {
      p.Consume();
      option := p.Advance();
    }
    assert old(argv[..])[1..] == old(argv[1..]);
    optind := p.scan.optind;
  }

  predicate Ended(kinds: seq<Kind>) {
    kinds != [] && (kinds[|kinds| - 1] == Ender || kinds[|kinds| - 1] == Rest)
  }

  lemma RestFollows(argv: seq<string>, orig: seq<string>, kinds: seq<Kind>, first: nat, optind: nat,
                    withArgument: string -> bool)
    requires Standing(argv, orig, kinds, first, optind, optind) && KnownTo(orig, kinds, optind, withArgument)
    requires Ended(kinds) && optind < |argv|
    ensures Standing(argv, orig, kinds + [Rest], first, optind + 1, optind + 1) && optind < |orig|
    ensures KnownTo(orig, kinds + [Rest], optind + 1, withArgument) && Ended(kinds + [Rest])
  {
    StandingBounds(argv, orig, kinds, first, optind, optind);
    hide Standing, Classify;
    Told(orig, kinds, optind, withArgument);
    Took(argv, orig, kinds, first, optind, optind, Rest);
  }

  /** All that is left is passed over behind a `--`. */
  lemma {:induction false} RestStays(argv: seq<string>, orig: seq<string>, kinds: seq<Kind>, first: nat, optind: nat,
                                     withArgument: string -> bool) returns (all: seq<Kind>)
    requires Standing(argv, orig, kinds, first, optind, optind) && KnownTo(orig, kinds, optind, withArgument)
    requires Ended(kinds)
    ensures Standing(argv, orig, all, first, |argv|, |argv|) && KnownTo(orig, all, |argv|, withArgument)
    decreases |argv| - optind
  {
    StandingBounds(argv, orig, kinds, first, optind, optind);
    hide *;
    if optind == |argv| {
      all := kinds;
    } else {
      RestFollows(argv, orig, kinds, first, optind, withArgument);
      all := RestStays(argv, orig, kinds + [Rest], first, optind + 1, withArgument);
    }
  }

  lemma StandingBounds(argv: seq<string>, orig: seq<string>, kinds: seq<Kind>, first: nat, last: nat, optind: nat)
    requires Standing(argv, orig, kinds, first, last, optind)
    ensures 1 <= first <= last <= optind <= |argv| == |orig|
    ensures forall i :: optind <= i < |argv| ==> argv[i] == orig[i]
  {
  }
}
