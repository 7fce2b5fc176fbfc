/** The verbose mode listing of `list`: which MonitorPanel modes are shown,
    how each is described, which one is marked current, and how the shown
    modes are grouped and ordered. */
module ModeListing {
  import opened Wrappers
  import opened MonitorPanel
  import opened Report
  import opened Rounding

  // ----- Describing one mode -----

  /** Print position of a flag. */
  function Rank(f: Flag): nat
  {
    match f
    case HiDpi => 0
    case Retina => 1
    case Native => 2
    case Default => 3
  }

  predicate HasFlag(m: Mode, f: Flag)
  {
    match f
    case HiDpi => m.isHiDpi
    case Retina => m.isRetina
    case Native => m.isNative
    case Default => m.isDefault
  }

  predicate StrictlyRanked(fs: seq<Flag>)
  {
    forall i, j :: 0 <= i < j < |fs| ==> Rank(fs[i]) < Rank(fs[j])
  }

  /** The flags of `fs` that `m` has, in the order of `fs`. */
  function KeepFlags(fs: seq<Flag>, m: Mode): (r: seq<Flag>)
    ensures forall f :: f in r <==> f in fs && HasFlag(m, f)
    ensures StrictlyRanked(fs) ==> StrictlyRanked(r)
  {
    if fs == [] then []
    else
      var rest := KeepFlags(fs[1..], m);
      assert StrictlyRanked(fs) ==> forall f :: f in fs[1..] ==> Rank(fs[0]) < Rank(f);
      if HasFlag(m, fs[0]) then [fs[0]] + rest else rest
  }

  /** The `[HiDPI, Retina, Native, Default]` suffix: exactly the set flags,
      in that fixed order (empty, and so omitted, when none is set). */
  function FlagList(m: Mode): (r: seq<Flag>)
    ensures HiDpi in r <==> m.isHiDpi
    ensures Retina in r <==> m.isRetina
    ensures Native in r <==> m.isNative
    ensures Default in r <==> m.isDefault
    ensures StrictlyRanked(r)
  {
    assert StrictlyRanked([HiDpi, Retina, Native, Default]);
    KeepFlags([HiDpi, Retina, Native, Default], m)
  }

  /** The printed line of a mode: the pixel suffix appears iff the pixel
      dimensions differ from the logical ones, the scale suffix iff the scale
      is not 1, and the line keeps the mode's number, size and refresh rate. */
  function Describe(m: Mode, current: bool): (r: ModeLine)
    ensures r.modeNumber == m.modeNumber && r.width == m.width && r.height == m.height
    ensures r.refreshRate == m.refreshRate && r.current == current
    ensures r.pixels.Some? <==> m.pixelsWide != m.width || m.pixelsHigh != m.height
    ensures r.pixels.Some? ==> r.pixels.value == (m.pixelsWide, m.pixelsHigh)
    ensures r.scale.Some? <==> m.scale != 1.0
    ensures r.scale.Some? ==> r.scale.value == m.scale
    ensures r.flags == FlagList(m)
  {
    ModeLine(
      m.modeNumber, m.width, m.height,
      if m.pixelsWide != m.width || m.pixelsHigh != m.height then Some((m.pixelsWide, m.pixelsHigh)) else None,
      m.refreshRate,
      if m.scale != 1.0 then Some(m.scale) else None,
      FlagList(m),
      current)
  }

  // ----- Which mode is current -----

  /** What is known about the current mode: MonitorPanel's own current mode
      number, if it reports a current mode, and the CoreGraphics current mode. */
  datatype CurrentSignal = CurrentSignal(reported: Option<i32>, cgMode: Option<CgMode>)

  function SignalOf(d: MpDisplay, cgMode: Option<CgMode>): (sig: CurrentSignal)
    ensures sig.reported.Some? <==> d.currentMode.Some?
    ensures sig.reported.Some? ==> sig.reported.value == d.currentMode.value.modeNumber
    ensures sig.cgMode == cgMode
  {
    CurrentSignal(if d.currentMode.Some? then Some(d.currentMode.value.modeNumber) else None, cgMode)
  }

  /** The fallback heuristic, in exact arithmetic: logical size within 0.1,
      refresh rate within 1 Hz, and pixel size within 1 of the CoreGraphics
      logical size times the mode's scale, rounded. */
  predicate GeometryMatches(cg: CgMode, m: Mode)
  {
    var refreshMatch := RealAbs(cg.refreshRate - m.refreshRate as real) < 1.0;
    var pixelsMatch :=
      RealAbs(ExpectedPixels(cg.width, m.scale) as real - m.pixelsWide as real) < 1.0
      && RealAbs(ExpectedPixels(cg.height, m.scale) as real - m.pixelsHigh as real) < 1.0;
    var logicalSizeMatch :=
      RealAbs(cg.width as real - m.width as real) < 0.1
      && RealAbs(cg.height as real - m.height as real) < 0.1;
    logicalSizeMatch && refreshMatch && pixelsMatch
  }

  /** `(logical * scale).round()`: the pixel count a logical size has at a scale. */
  function ExpectedPixels(logical: nat, scale: real): (px: int)
    ensures RealAbs(logical as real * scale - px as real) <= 0.5
    ensures scale == 1.0 ==> px == logical
  {
    RoundHalfAway(logical as real * scale)
  }

  /** Two integers closer than 1 are equal. */
  lemma CloseIntegersAreEqual(a: int, b: int)
    requires RealAbs(a as real - b as real) < 1.0
    ensures a == b
  {
  }

  /** On integer sizes the tolerances collapse to equalities: a matching mode
      has exactly the CoreGraphics logical size and exactly the rounded scaled
      pixel size. */
  lemma GeometryMatchPinsSize(cg: CgMode, m: Mode)
    requires GeometryMatches(cg, m)
    ensures m.width == cg.width && m.height == cg.height
    ensures m.pixelsWide == ExpectedPixels(cg.width, m.scale)
    ensures m.pixelsHigh == ExpectedPixels(cg.height, m.scale)
  {
    CloseIntegersAreEqual(cg.width, m.width);
    CloseIntegersAreEqual(cg.height, m.height);
    CloseIntegersAreEqual(ExpectedPixels(cg.width, m.scale), m.pixelsWide);
    CloseIntegersAreEqual(ExpectedPixels(cg.height, m.scale), m.pixelsHigh);
  }

  /** Two modes of the same scale that both match agree on every dimension,
      so HiDPI variants of one logical size are told apart by their scale. */
  lemma GeometryMatchSameScaleAgree(cg: CgMode, a: Mode, b: Mode)
    requires GeometryMatches(cg, a) && GeometryMatches(cg, b) && a.scale == b.scale
    ensures a.width == b.width && a.height == b.height
    ensures a.pixelsWide == b.pixelsWide && a.pixelsHigh == b.pixelsHigh
  {
    GeometryMatchPinsSize(cg, a);
    GeometryMatchPinsSize(cg, b);
  }

  /** The heuristic, both directions, on integer sizes: a mode matches iff its
      logical size is the CoreGraphics one, its refresh rate is within 1 Hz,
      and its pixel size is its own logical size times its own scale, rounded.
      The pixel test therefore rejects only modes whose pixel size disagrees
      with their own scale. */
  lemma GeometryMatchesIff(cg: CgMode, m: Mode)
    ensures GeometryMatches(cg, m) <==>
            m.width == cg.width && m.height == cg.height
            && RealAbs(cg.refreshRate - m.refreshRate as real) < 1.0
            && m.pixelsWide == ExpectedPixels(m.width, m.scale)
            && m.pixelsHigh == ExpectedPixels(m.height, m.scale)
  {
    if GeometryMatches(cg, m) {
      GeometryMatchPinsSize(cg, m);
    }
  }

  /** Both scale variants of one logical size match the same CoreGraphics
      mode: the 2x HiDPI 1440x900 mode and the 1x 1440x900 mode, at 60 Hz. */
  lemma ScaleVariantsBothMatch()
    ensures GeometryMatches(CgMode(1440, 900, 60.0),
                            Mode(1, 1440, 900, 2880, 1800, 60, 2.0, true, true, false, false, true))
    ensures GeometryMatches(CgMode(1440, 900, 60.0),
                            Mode(2, 1440, 900, 1440, 900, 60, 1.0, false, false, true, true, true))
  {
    RoundIntegerIsIdentity(2880);
    RoundIntegerIsIdentity(1800);
    RoundIntegerIsIdentity(1440);
    RoundIntegerIsIdentity(900);
    assert 1440 as real * 2.0 == 2880 as real && 900 as real * 2.0 == 1800 as real;
    assert 1440 as real * 1.0 == 1440 as real && 900 as real * 1.0 == 900 as real;
  }

  /** Whether a listed mode is marked `[Current]`: by mode number when
      MonitorPanel reports a current mode (the heuristic is then not consulted),
      else by the geometry heuristic when CoreGraphics reports a mode, else never. */
  function IsCurrent(m: Mode, sig: CurrentSignal): (r: bool)
    ensures sig.reported.Some? ==> (r <==> m.modeNumber == sig.reported.value)
    ensures sig.reported.None? && sig.cgMode.Some? ==> (r <==> GeometryMatches(sig.cgMode.value, m))
    ensures sig.reported.None? && sig.cgMode.None? ==> !r
  {
    match sig.reported
    case Some(n) => n == m.modeNumber
    case None => sig.cgMode.Some? && GeometryMatches(sig.cgMode.value, m)
  }

  // ----- Grouping -----

  /** HiDPI/Retina when either flag is set, Standard otherwise. */
  function GroupOf(m: Mode): (g: Group)
    ensures g == HiDpiRetina <==> m.isHiDpi || m.isRetina
  {
    if m.isHiDpi || m.isRetina then HiDpiRetina else Standard
  }

  /** The line printed for a mode under a current-mode signal. */
  function LineOf(m: Mode, sig: CurrentSignal): ModeLine
  {
    Describe(m, IsCurrent(m, sig))
  }

  /** The lines of the user-visible modes of group `g`, in enumeration order. */
  function Collect(modes: seq<Mode>, g: Group, sig: CurrentSignal): seq<ModeLine>
  {
    if modes == [] then []
    else
      var m := modes[|modes| - 1];
      Collect(modes[..|modes| - 1], g, sig)
      + (if m.isUserVisible && GroupOf(m) == g then [LineOf(m, sig)] else [])
  }

  /** The lines of all user-visible modes, in enumeration order. */
  function VisibleLines(modes: seq<Mode>, sig: CurrentSignal): seq<ModeLine>
  {
    if modes == [] then []
    else
      var m := modes[|modes| - 1];
      VisibleLines(modes[..|modes| - 1], sig)
      + (if m.isUserVisible then [LineOf(m, sig)] else [])
  }

  /** A line is in group `g` exactly when it describes a user-visible mode of
      that group: hidden modes never appear. */
  lemma CollectMembership(modes: seq<Mode>, g: Group, sig: CurrentSignal, l: ModeLine)
    ensures l in Collect(modes, g, sig) <==>
            exists i :: 0 <= i < |modes| && modes[i].isUserVisible && GroupOf(modes[i]) == g
                        && l == LineOf(modes[i], sig)
  {
    if l in Collect(modes, g, sig) {
      CollectComesFromMode(modes, g, sig, l);
    }
    if exists i :: 0 <= i < |modes| && modes[i].isUserVisible && GroupOf(modes[i]) == g && l == LineOf(modes[i], sig) {
      var i :| 0 <= i < |modes| && modes[i].isUserVisible && GroupOf(modes[i]) == g && l == LineOf(modes[i], sig);
      CollectHasMode(modes, g, sig, i);
    }
  }

  lemma {:induction false} CollectComesFromMode(modes: seq<Mode>, g: Group, sig: CurrentSignal, l: ModeLine)
    requires l in Collect(modes, g, sig)
    ensures exists i :: 0 <= i < |modes| && modes[i].isUserVisible && GroupOf(modes[i]) == g
                        && l == LineOf(modes[i], sig)
  {
    var n := |modes| - 1;
    var init := modes[..n];
    if l in Collect(init, g, sig) {
      CollectComesFromMode(init, g, sig, l);
      var i :| 0 <= i < |init| && init[i].isUserVisible && GroupOf(init[i]) == g && l == LineOf(init[i], sig);
      assert modes[i] == init[i];
    } else {
      assert modes[n].isUserVisible && GroupOf(modes[n]) == g && l == LineOf(modes[n], sig);
    }
  }

  lemma {:induction false} CollectHasMode(modes: seq<Mode>, g: Group, sig: CurrentSignal, i: nat)
    requires i < |modes| && modes[i].isUserVisible && GroupOf(modes[i]) == g
    ensures LineOf(modes[i], sig) in Collect(modes, g, sig)
  {
    var n := |modes| - 1;
    var init := modes[..n];
    if i < n {
      assert init[i] == modes[i];
      CollectHasMode(init, g, sig, i);
    } else {
      var c := Collect(modes, g, sig);
      assert c == Collect(init, g, sig) + [LineOf(modes[n], sig)];
      assert c[|c| - 1] == LineOf(modes[n], sig);
    }
  }

  /** Every visible mode lands in exactly one group: the two groups together
      are a permutation of the visible modes' lines. */
  lemma {:induction false} GroupsPartitionVisible(modes: seq<Mode>, sig: CurrentSignal)
    ensures multiset(Collect(modes, HiDpiRetina, sig)) + multiset(Collect(modes, Standard, sig))
            == multiset(VisibleLines(modes, sig))
  {
    if modes != [] {
      GroupsPartitionVisible(modes[..|modes| - 1], sig);
    }
  }

  /** With a reported current mode number, a line in either group is marked
      current iff its mode number equals it. */
  lemma CollectMarksReported(modes: seq<Mode>, g: Group, sig: CurrentSignal, l: ModeLine)
    requires sig.reported.Some?
    requires l in Collect(modes, g, sig)
    ensures l.current <==> l.modeNumber == sig.reported.value
  {
    CollectMembership(modes, g, sig, l);
  }

  /** With neither a reported mode nor a CoreGraphics mode, nothing is marked. */
  lemma CollectMarksNothingWithoutSignal(modes: seq<Mode>, g: Group, sig: CurrentSignal, l: ModeLine)
    requires sig.reported.None? && sig.cgMode.None?
    requires l in Collect(modes, g, sig)
    ensures !l.current
  {
    CollectMembership(modes, g, sig, l);
  }

  /** The push loop of the listing: each user-visible mode's line is appended
      to the HiDPI/Retina list or to the Standard list. */
  method PartitionModes(modes: seq<Mode>, sig: CurrentSignal) returns (hidpi: seq<ModeLine>, standard: seq<ModeLine>)
    ensures hidpi == Collect(modes, HiDpiRetina, sig)
    ensures standard == Collect(modes, Standard, sig)
  {
    hidpi, standard := [], [];
    var i := 0;
    while i < |modes|
      invariant 0 <= i <= |modes|
      invariant hidpi == Collect(modes[..i], HiDpiRetina, sig)
      invariant standard == Collect(modes[..i], Standard, sig)
    {
      var m := modes[i];
      assert modes[..i + 1][..i] == modes[..i];
      if m.isUserVisible {
        var line := Describe(m, IsCurrent(m, sig));
        if m.isHiDpi || m.isRetina {
          hidpi := hidpi + [line];
        } else {
          standard := standard + [line];
        }
      }
      i := i + 1;
    }
    assert modes[..|modes|] == modes;
  }

  // ----- Sorting (`sort_by_key` on the mode number, a stable sort) -----

  predicate SortedByNumber(s: seq<ModeLine>)
  {
    forall i, j :: 0 <= i < j < |s| ==> s[i].modeNumber <= s[j].modeNumber
  }

  /** The lines with mode number `k`, in order: a stable sort keeps each of
      these subsequences unchanged. */
  function WithNumber(s: seq<ModeLine>, k: int): seq<ModeLine>
  {
    if s == [] then []
    else (if s[0].modeNumber == k then [s[0]] else []) + WithNumber(s[1..], k)
  }

  function Insert(x: ModeLine, s: seq<ModeLine>): seq<ModeLine>
  {
    if s == [] then [x]
    else if x.modeNumber <= s[0].modeNumber then [x] + s
    else [s[0]] + Insert(x, s[1..])
  }

  function SortByNumber(s: seq<ModeLine>): seq<ModeLine>
  {
    if s == [] then [] else Insert(s[0], SortByNumber(s[1..]))
  }

  lemma {:induction false} InsertPermutes(x: ModeLine, s: seq<ModeLine>)
    ensures multiset(Insert(x, s)) == multiset(s) + multiset{x}
  {
    if s != [] && x.modeNumber > s[0].modeNumber {
      InsertPermutes(x, s[1..]);
      assert s == [s[0]] + s[1..];
    }
  }

  lemma {:induction false} InsertSorted(x: ModeLine, s: seq<ModeLine>)
    requires SortedByNumber(s)
    ensures SortedByNumber(Insert(x, s))
  {
    if s != [] && x.modeNumber > s[0].modeNumber {
      InsertSorted(x, s[1..]);
      InsertPermutes(x, s[1..]);
      var t := Insert(x, s[1..]);
      forall i | 0 <= i < |t| ensures s[0].modeNumber <= t[i].modeNumber {
        assert t[i] in multiset(t);
      }
    }
  }

  lemma {:induction false} InsertStable(x: ModeLine, s: seq<ModeLine>, k: int)
    requires SortedByNumber(s)
    ensures WithNumber(Insert(x, s), k) == (if x.modeNumber == k then [x] else []) + WithNumber(s, k)
  {
    var xs := if x.modeNumber == k then [x] else [];
    if s == [] {
      assert [x][1..] == [];
      assert WithNumber([x], k) == xs + WithNumber([], k);
    } else if x.modeNumber <= s[0].modeNumber {
      assert Insert(x, s) == [x] + s;
      assert ([x] + s)[1..] == s;
      assert WithNumber([x] + s, k) == xs + WithNumber(s, k);
    } else {
      var t := s[1..];
      var hs := if s[0].modeNumber == k then [s[0]] else [];
      InsertStable(x, t, k);
      var u := Insert(x, t);
      assert Insert(x, s) == [s[0]] + u;
      assert ([s[0]] + u)[1..] == u;
      assert WithNumber(Insert(x, s), k) == hs + WithNumber(u, k);
      assert WithNumber(s, k) == hs + WithNumber(t, k);
      if xs == [] {
        assert WithNumber(u, k) == WithNumber(t, k);
      } else {
        assert hs == [];
      }
    }
  }

  /** The sort's result is ascending by mode number, is a permutation of its
      input, and keeps lines with equal mode numbers in input order. */
  lemma {:induction false} SortByNumberCorrect(s: seq<ModeLine>)
    ensures SortedByNumber(SortByNumber(s))
    ensures multiset(SortByNumber(s)) == multiset(s)
    ensures forall k :: WithNumber(SortByNumber(s), k) == WithNumber(s, k)
  {
    if s != [] {
      SortByNumberCorrect(s[1..]);
      InsertSorted(s[0], SortByNumber(s[1..]));
      InsertPermutes(s[0], SortByNumber(s[1..]));
      assert s == [s[0]] + s[1..];
      forall k ensures WithNumber(SortByNumber(s), k) == WithNumber(s, k) {
        InsertStable(s[0], SortByNumber(s[1..]), k);
      }
    }
  }

  /** Sorting an already sorted list changes nothing, so sorting is idempotent. */
  lemma {:induction false} SortOfSortedIsIdentity(s: seq<ModeLine>)
    requires SortedByNumber(s)
    ensures SortByNumber(s) == s
  {
    if s != [] {
      SortOfSortedIsIdentity(s[1..]);
      assert SortByNumber(s[1..]) == s[1..];
      if |s| > 1 {
        assert s[0].modeNumber <= s[1].modeNumber;
        assert s == [s[0]] + s[1..];
      }
    }
  }

  lemma SortIdempotent(s: seq<ModeLine>)
    ensures SortByNumber(SortByNumber(s)) == SortByNumber(s)
  {
    SortByNumberCorrect(s);
    SortOfSortedIsIdentity(SortByNumber(s));
  }

  lemma {:induction false} WithNumberMembers(s: seq<ModeLine>, k: int, x: ModeLine)
    ensures x in WithNumber(s, k) <==> x in s && x.modeNumber == k
  {
    if s != [] {
      WithNumberMembers(s[1..], k, x);
      assert s == [s[0]] + s[1..];
    }
  }

  /** In a sorted list no line has a number below the first line's. */
  lemma WithNumberBelowHeadIsEmpty(s: seq<ModeLine>, k: int)
    requires SortedByNumber(s) && s != [] && k < s[0].modeNumber
    ensures WithNumber(s, k) == []
  {
    if WithNumber(s, k) != [] {
      var x := WithNumber(s, k)[0];
      WithNumberMembers(s, k, x);
    }
  }

  /** The first line of a list is in its own number's run. */
  lemma HeadRun(s: seq<ModeLine>)
    requires s != []
    ensures WithNumber(s, s[0].modeNumber) != []
  {
  }

  /** Two ascending lists with the same equal-number runs start with the
      same line and, after it, still have the same runs. */
  lemma SameRunsSameHead(r: seq<ModeLine>, t: seq<ModeLine>)
    requires SortedByNumber(r) && SortedByNumber(t) && r != [] && t != []
    requires forall k :: WithNumber(r, k) == WithNumber(t, k)
    ensures r[0] == t[0]
    ensures forall k :: WithNumber(r[1..], k) == WithNumber(t[1..], k)
  {
    var a, b := r[0].modeNumber, t[0].modeNumber;
    assert WithNumber(r, a) != [] && WithNumber(t, b) != [];
    if a < b {
      WithNumberBelowHeadIsEmpty(t, a);
      assert false;
    } else if b < a {
      WithNumberBelowHeadIsEmpty(r, b);
      assert false;
    }
    assert WithNumber(r, a)[0] == r[0] && WithNumber(t, a)[0] == t[0];
    forall k ensures WithNumber(r[1..], k) == WithNumber(t[1..], k) {
      if k == a {
        assert WithNumber(r[1..], a) == WithNumber(r, a)[1..];
        assert WithNumber(t[1..], a) == WithNumber(t, a)[1..];
      } else {
        assert WithNumber(r, k) == WithNumber(r[1..], k);
        assert WithNumber(t, k) == WithNumber(t[1..], k);
      }
    }
  }

  /** A list that is ascending by mode number and keeps every equal-number
      run is determined by those runs: two such lists are the same list. */
  lemma {:induction false} SortedByRunsUnique(r: seq<ModeLine>, t: seq<ModeLine>)
    requires SortedByNumber(r) && SortedByNumber(t)
    requires forall k :: WithNumber(r, k) == WithNumber(t, k)
    ensures r == t
    decreases |r|
  {
    if r == [] || t == [] {
      if r != [] { HeadRun(r); }
      if t != [] { HeadRun(t); }
    } else {
      SameRunsSameHead(r, t);
      var r', t' := r[1..], t[1..];
      assert SortedByNumber(r') && SortedByNumber(t');
      SortedByRunsUnique(r', t');
      assert r == [r[0]] + r' && t == [t[0]] + t';
    }
  }

  /** Any stable ascending sort by mode number, whatever its algorithm,
      returns what SortByNumber returns. */
  lemma StableSortIsSortByNumber(s: seq<ModeLine>, r: seq<ModeLine>)
    requires SortedByNumber(r)
    requires forall k :: WithNumber(r, k) == WithNumber(s, k)
    ensures r == SortByNumber(s)
  {
    SortByNumberCorrect(s);
    SortedByRunsUnique(r, SortByNumber(s));
  }

  // ----- The printed listing -----

  /** One printed line per mode line, in order. */
  function ModeEntries(ls: seq<ModeLine>): (r: seq<Line>)
    ensures |r| == |ls|
    ensures forall i :: 0 <= i < |ls| ==> r[i] == ModeEntry(ls[i])
  {
    seq(|ls|, i requires 0 <= i < |ls| => ModeEntry(ls[i]))
  }

  /** A group's block: nothing at all for an empty group, else its heading and
      its lines, followed by a blank line for the HiDPI/Retina group. */
  function GroupBlock(g: Group, ls: seq<ModeLine>): (r: seq<Line>)
    ensures ls == [] <==> r == []
  {
    if ls == [] then []
    else [GroupHeading(g)] + ModeEntries(ls) + (if g == HiDpiRetina then [Gap] else [])
  }

  /** The listing of a display's modes: the total count (hidden modes
      included), then the sorted HiDPI/Retina group, then the sorted Standard group. */
  function ModeListingLines(modes: seq<Mode>, sig: CurrentSignal): (r: seq<Line>)
    ensures |r| >= 1 && r[0] == TotalModes(|modes|)
  {
    Layout(|modes|, SortByNumber(Collect(modes, HiDpiRetina, sig)), SortByNumber(Collect(modes, Standard, sig)))
  }

  /** The count `n`, then the HiDPI/Retina block of `hi`, then the Standard block of `st`. */
  function Layout(n: nat, hi: seq<ModeLine>, st: seq<ModeLine>): seq<Line>
  {
    [TotalModes(n)] + GroupBlock(HiDpiRetina, hi) + GroupBlock(Standard, st)
  }

  /** A line printed in the HiDPI/Retina group carries the HiDPI or Retina flag. */
  predicate IsHiDpiLine(l: ModeLine)
  {
    HiDpi in l.flags || Retina in l.flags
  }

  /** What every line of a sorted group is: a line of that group, hence of a
      visible mode of it, flagged HiDPI or Retina iff the group is
      HiDPI/Retina, and marked by number when a current number is reported. */
  lemma SortedGroupMember(modes: seq<Mode>, g: Group, sig: CurrentSignal, l: ModeLine)
    requires l in SortByNumber(Collect(modes, g, sig))
    ensures exists k :: 0 <= k < |modes| && modes[k].isUserVisible && GroupOf(modes[k]) == g
                        && l == LineOf(modes[k], sig)
    ensures IsHiDpiLine(l) <==> g == HiDpiRetina
    ensures sig.reported.Some? ==> (l.current <==> l.modeNumber == sig.reported.value)
  {
    SortByNumberCorrect(Collect(modes, g, sig));
    assert l in multiset(SortByNumber(Collect(modes, g, sig)));
    CollectMembership(modes, g, sig, l);
  }

  /** Where the mode lines sit in the layout: the count, one block per group. */
  lemma LayoutEntryAt(n: nat, hi: seq<ModeLine>, st: seq<ModeLine>, i: nat)
    requires var L := Layout(n, hi, st);
             i < |L| && L[i].ModeEntry?
    ensures var L := Layout(n, hi, st);
            var off := 2 + |GroupBlock(HiDpiRetina, hi)|;
            (2 <= i < 2 + |hi| && L[i].line == hi[i - 2]) || (off <= i < off + |st| && L[i].line == st[i - off])
  {
    var hb := GroupBlock(HiDpiRetina, hi);
    var sb := GroupBlock(Standard, st);
    var L := [TotalModes(n)] + hb + sb;
    if i < 1 + |hb| {
      assert L[i] == hb[i - 1];
      assert hb == [GroupHeading(HiDpiRetina)] + ModeEntries(hi) + [Gap];
      assert 1 <= i - 1 <= |hi|;
      assert hb[i - 1] == ModeEntries(hi)[i - 2];
    } else {
      assert L[i] == sb[i - 1 - |hb|];
      assert sb == [GroupHeading(Standard)] + ModeEntries(st);
      assert sb[i - 1 - |hb|] == ModeEntries(st)[i - 2 - |hb|];
    }
  }

  /** The order of the layout when `hi` and `st` are ascending and only `hi`
      holds HiDPI/Retina lines. */
  lemma LayoutOrder(n: nat, hi: seq<ModeLine>, st: seq<ModeLine>, i: nat, j: nat)
    requires SortedByNumber(hi) && SortedByNumber(st)
    requires forall l :: l in hi ==> IsHiDpiLine(l)
    requires forall l :: l in st ==> !IsHiDpiLine(l)
    requires i < j < |Layout(n, hi, st)|
    requires Layout(n, hi, st)[i].ModeEntry? && Layout(n, hi, st)[j].ModeEntry?
    ensures var a := Layout(n, hi, st)[i].line;
            var b := Layout(n, hi, st)[j].line;
            (IsHiDpiLine(b) ==> IsHiDpiLine(a))
            && (IsHiDpiLine(a) == IsHiDpiLine(b) ==> a.modeNumber <= b.modeNumber)
  {
    LayoutEntryAt(n, hi, st, i);
    LayoutEntryAt(n, hi, st, j);
    var off := 2 + |GroupBlock(HiDpiRetina, hi)|;
    var a := Layout(n, hi, st)[i].line;
    var b := Layout(n, hi, st)[j].line;
    if 2 <= i < 2 + |hi| {
      assert a in hi;
      if 2 <= j < 2 + |hi| {
        assert b in hi;
      } else {
        assert b in st;
      }
    } else {
      assert a in st && b in st;
    }
  }

  /** The sorted groups of a mode list: ascending, and only the HiDPI/Retina
      group holds lines flagged HiDPI or Retina. */
  lemma SortedGroupsShape(modes: seq<Mode>, sig: CurrentSignal)
    ensures SortedByNumber(SortByNumber(Collect(modes, HiDpiRetina, sig)))
    ensures SortedByNumber(SortByNumber(Collect(modes, Standard, sig)))
    ensures forall l :: l in SortByNumber(Collect(modes, HiDpiRetina, sig)) ==> IsHiDpiLine(l)
    ensures forall l :: l in SortByNumber(Collect(modes, Standard, sig)) ==> !IsHiDpiLine(l)
  {
    SortByNumberCorrect(Collect(modes, HiDpiRetina, sig));
    SortByNumberCorrect(Collect(modes, Standard, sig));
    forall l | l in SortByNumber(Collect(modes, HiDpiRetina, sig)) ensures IsHiDpiLine(l) {
      SortedGroupMember(modes, HiDpiRetina, sig, l);
    }
    forall l | l in SortByNumber(Collect(modes, Standard, sig)) ensures !IsHiDpiLine(l) {
      SortedGroupMember(modes, Standard, sig, l);
    }
  }

  /** The printed order: every HiDPI/Retina line comes before every Standard
      line, and within each group mode numbers ascend. */
  lemma ListingOrder(modes: seq<Mode>, sig: CurrentSignal, i: nat, j: nat)
    requires i < j < |ModeListingLines(modes, sig)|
    requires ModeListingLines(modes, sig)[i].ModeEntry? && ModeListingLines(modes, sig)[j].ModeEntry?
    ensures var a := ModeListingLines(modes, sig)[i].line;
            var b := ModeListingLines(modes, sig)[j].line;
            (IsHiDpiLine(b) ==> IsHiDpiLine(a))
            && (IsHiDpiLine(a) == IsHiDpiLine(b) ==> a.modeNumber <= b.modeNumber)
  {
    var hi := SortByNumber(Collect(modes, HiDpiRetina, sig));
    var st := SortByNumber(Collect(modes, Standard, sig));
    assert ModeListingLines(modes, sig) == Layout(|modes|, hi, st);
    SortedGroupsShape(modes, sig);
    LayoutOrder(|modes|, hi, st, i, j);
  }

  /** Each mode line of the layout is a line of one of the two groups. */
  lemma LayoutEntryIn(n: nat, hi: seq<ModeLine>, st: seq<ModeLine>, i: nat)
    requires i < |Layout(n, hi, st)| && Layout(n, hi, st)[i].ModeEntry?
    ensures Layout(n, hi, st)[i].line in hi || Layout(n, hi, st)[i].line in st
  {
    LayoutEntryAt(n, hi, st, i);
  }

  /** With a reported current mode number, a printed mode line is marked
      `[Current]` iff its mode number equals it. */
  lemma ListingMarksReported(modes: seq<Mode>, sig: CurrentSignal, i: nat)
    requires sig.reported.Some?
    requires i < |ModeListingLines(modes, sig)| && ModeListingLines(modes, sig)[i].ModeEntry?
    ensures var l := ModeListingLines(modes, sig)[i].line;
            l.current <==> l.modeNumber == sig.reported.value
  {
    var hi := SortByNumber(Collect(modes, HiDpiRetina, sig));
    var st := SortByNumber(Collect(modes, Standard, sig));
    assert ModeListingLines(modes, sig) == Layout(|modes|, hi, st);
    LayoutEntryIn(|modes|, hi, st, i);
    var l := ModeListingLines(modes, sig)[i].line;
    if l in hi {
      SortedGroupMember(modes, HiDpiRetina, sig, l);
    } else {
      SortedGroupMember(modes, Standard, sig, l);
    }
  }

  /** Every printed mode line describes a user-visible mode of the list.
      The count line, first, counts all modes, hidden ones included. */
  lemma ListingShowsOnlyVisibleModes(modes: seq<Mode>, sig: CurrentSignal, i: nat)
    requires i < |ModeListingLines(modes, sig)| && ModeListingLines(modes, sig)[i].ModeEntry?
    ensures ModeListingLines(modes, sig)[0] == TotalModes(|modes|)
    ensures exists k :: 0 <= k < |modes| && modes[k].isUserVisible
                        && ModeListingLines(modes, sig)[i].line == LineOf(modes[k], sig)
  {
    var hi := SortByNumber(Collect(modes, HiDpiRetina, sig));
    var st := SortByNumber(Collect(modes, Standard, sig));
    assert ModeListingLines(modes, sig) == Layout(|modes|, hi, st);
    LayoutEntryIn(|modes|, hi, st, i);
    var l := ModeListingLines(modes, sig)[i].line;
    if l in hi {
      SortedGroupMember(modes, HiDpiRetina, sig, l);
    } else {
      SortedGroupMember(modes, Standard, sig, l);
    }
  }

  /** The `j`-th HiDPI/Retina line is printed right after the count and the group heading. */
  lemma LayoutShowsHiDpi(n: nat, hi: seq<ModeLine>, st: seq<ModeLine>, j: nat)
    requires j < |hi|
    ensures 2 + j < |Layout(n, hi, st)| && Layout(n, hi, st)[2 + j] == ModeEntry(hi[j])
  {
    var hb := GroupBlock(HiDpiRetina, hi);
    assert hb == [GroupHeading(HiDpiRetina)] + ModeEntries(hi) + [Gap];
    assert hb[1 + j] == ModeEntry(hi[j]);
  }

  /** The `j`-th Standard line is printed after the HiDPI/Retina block and the group heading. */
  lemma LayoutShowsStandard(n: nat, hi: seq<ModeLine>, st: seq<ModeLine>, j: nat)
    requires j < |st|
    ensures var off := 2 + |GroupBlock(HiDpiRetina, hi)|;
            off + j < |Layout(n, hi, st)| && Layout(n, hi, st)[off + j] == ModeEntry(st[j])
  {
    var sb := GroupBlock(Standard, st);
    assert sb == [GroupHeading(Standard)] + ModeEntries(st);
    assert sb[1 + j] == ModeEntry(st[j]);
  }

  /** A visible mode's line is in its group once the group is sorted. */
  lemma VisibleInSortedGroup(modes: seq<Mode>, sig: CurrentSignal, k: nat)
    requires k < |modes| && modes[k].isUserVisible
    ensures LineOf(modes[k], sig) in SortByNumber(Collect(modes, GroupOf(modes[k]), sig))
  {
    var c := Collect(modes, GroupOf(modes[k]), sig);
    CollectHasMode(modes, GroupOf(modes[k]), sig, k);
    SortByNumberCorrect(c);
    assert LineOf(modes[k], sig) in multiset(c);
  }

  /** Every user-visible mode of the list is printed, hidden ones are not
      (see `ListingShowsOnlyVisibleModes`). */
  lemma ListingShowsEveryVisibleMode(modes: seq<Mode>, sig: CurrentSignal, k: nat)
    requires k < |modes| && modes[k].isUserVisible
    ensures ModeEntry(LineOf(modes[k], sig)) in ModeListingLines(modes, sig)
  {
    var l := LineOf(modes[k], sig);
    VisibleInSortedGroup(modes, sig, k);
    var hi := SortByNumber(Collect(modes, HiDpiRetina, sig));
    var st := SortByNumber(Collect(modes, Standard, sig));
    assert ModeListingLines(modes, sig) == Layout(|modes|, hi, st);
    if GroupOf(modes[k]) == HiDpiRetina {
      var j :| 0 <= j < |hi| && hi[j] == l;
      LayoutShowsHiDpi(|modes|, hi, st, j);
    } else {
      var j :| 0 <= j < |st| && st[j] == l;
      LayoutShowsStandard(|modes|, hi, st, j);
    }
  }

  /** The layout prints a group's heading iff that group has lines. */
  lemma LayoutHeadings(n: nat, hi: seq<ModeLine>, st: seq<ModeLine>)
    ensures var L := Layout(n, hi, st);
            (GroupHeading(HiDpiRetina) in L <==> hi != []) && (GroupHeading(Standard) in L <==> st != [])
  {
    var hb := GroupBlock(HiDpiRetina, hi);
    var sb := GroupBlock(Standard, st);
    var L := [TotalModes(n)] + hb + sb;
    assert forall l :: l in ModeEntries(hi) ==> l.ModeEntry?;
    assert forall l :: l in ModeEntries(st) ==> l.ModeEntry?;
    assert GroupHeading(Standard) !in hb;
    assert GroupHeading(HiDpiRetina) !in sb;
    if hi != [] { assert L[1] == GroupHeading(HiDpiRetina); }
    if st != [] { assert L[1 + |hb|] == GroupHeading(Standard); }
  }

  /** A group heading is printed iff the group has a visible mode. */
  lemma ListingHeadings(modes: seq<Mode>, sig: CurrentSignal)
    ensures GroupHeading(HiDpiRetina) in ModeListingLines(modes, sig) <==> Collect(modes, HiDpiRetina, sig) != []
    ensures GroupHeading(Standard) in ModeListingLines(modes, sig) <==> Collect(modes, Standard, sig) != []
  {
    var hc := Collect(modes, HiDpiRetina, sig);
    var sc := Collect(modes, Standard, sig);
    SortByNumberCorrect(hc);
    SortByNumberCorrect(sc);
    assert hc == [] <==> SortByNumber(hc) == [] by {
      if SortByNumber(hc) == [] { assert multiset(hc) == multiset{}; }
    }
    assert sc == [] <==> SortByNumber(sc) == [] by {
      if SortByNumber(sc) == [] { assert multiset(sc) == multiset{}; }
    }
    LayoutHeadings(|modes|, SortByNumber(hc), SortByNumber(sc));
  }
}
