/** isResolutionFine of core/modules/run-virt/winres/src/winres.c: greedy matching
    of the active screens against the expected ones, marking matches with -1. */
module Screens {

  const EAGAIN: int := 11
  const MAX_SCREENS: nat := 16

  datatype Resolution = Resolution(w: int, h: int)

  /** Position and size of an active screen. */
  datatype Mode = Mode(x: int, w: int, h: int)

  /** What EnumDisplaySettings reports: nothing for a disconnected screen. */
  datatype Screen = Disconnected | Connected(mode: Mode)

  // ----- The expected layout -----

  function Offset(res: seq<Resolution>, i: nat): int
    requires i <= |res|
  {
    if i == 0 then 0 else Offset(res, i - 1) + res[i - 1].w
  }

  function Expected(res: seq<Resolution>): (r: seq<Mode>)
    ensures |r| == |res| && forall i :: 0 <= i < |res| ==> r[i] == Mode(Offset(res, i), res[i].w, res[i].h)
  {
    seq(|res|, i requires 0 <= i < |res| => Mode(Offset(res, i), res[i].w, res[i].h))
  }

  ghost predicate Wide(res: seq<Resolution>) {
    forall i :: 0 <= i < |res| ==> res[i].w >= 320
  }

  lemma {:induction false} OffsetsIncrease(res: seq<Resolution>, i: nat, j: nat)
    requires Wide(res) && i <= j <= |res|
    ensures 0 <= Offset(res, i) && Offset(res, i) + 320 * (j - i) <= Offset(res, j)
    decreases j
  {
    if i < j {
      OffsetsIncrease(res, i, j - 1);
    } else if i > 0 {
      OffsetsIncrease(res, i - 1, j - 1);
    }
  }

  lemma ExpectedDistinct(res: seq<Resolution>)
    requires Wide(res)
    ensures Distinct(Expected(res))
    ensures forall i :: 0 <= i < |res| ==> Expected(res)[i].x >= 0
    ensures forall i, j :: 0 <= i < |res| && 0 <= j < |res| && Offset(res, i) == Offset(res, j) ==> i == j
  {
    forall i, j | 0 <= i < j < |res|
      ensures Offset(res, i) < Offset(res, j)
    {
      OffsetsIncrease(res, i, j);
    }
    forall i | 0 <= i < |res|
      ensures Offset(res, i) >= 0
    {
      OffsetsIncrease(res, i, i);
    }
  }

  // ----- What a fine layout is -----

  ghost predicate Distinct(s: seq<Mode>) {
    forall i, j :: 0 <= i < j < |s| ==> s[i] != s[j]
  }

  function Placed(modes: seq<Mode>): seq<Mode> {
    if modes == [] then []
    else
      var m := modes[|modes| - 1];
      Placed(modes[..|modes| - 1]) + if m.x != -1 then [m] else []
  }

  /** Some screen of the same size, not at -1, comes earlier. */
  ghost predicate Preceded(modes: seq<Mode>, j: nat)
    requires j < |modes|
  {
    exists i :: 0 <= i < j && modes[i].x != -1 && modes[i].w == modes[j].w && modes[i].h == modes[j].h
  }

  /** The screens not at x = -1 are a permutation of the expected ones, and any
      screen at -1 follows one of its size. */
  ghost predicate Accepted(res: seq<Resolution>, modes: seq<Mode>) {
    && multiset(Placed(modes)) == multiset(Expected(res))
    && forall j :: 0 <= j < |modes| && modes[j].x == -1 ==> Preceded(modes, j)
  }

  /** Each screen so far has a slot of its own. */
  ghost predicate Matching(res: seq<Resolution>, modes: seq<Mode>) {
    && (forall j :: 0 <= j < |modes| && modes[j].x != -1 ==> modes[j] in Expected(res))
    && (forall i, j :: 0 <= i < j < |modes| && modes[i].x != -1 ==> modes[i] != modes[j])
    && (forall j :: 0 <= j < |modes| && modes[j].x == -1 ==> Preceded(modes, j))
  }

  lemma {:induction false} DistinctCount(s: seq<Mode>, m: Mode)
    requires Distinct(s)
    ensures multiset(s)[m] == if m in s then 1 else 0
    decreases |s|
  {
    if s != [] {
      var front, last := s[..|s| - 1], s[|s| - 1];
      DistinctCount(front, m);
      assert s == front + [last];
    }
  }

  lemma {:induction false} PlacedMembers(modes: seq<Mode>, m: Mode)
    ensures m in Placed(modes) <==> m in modes && m.x != -1
    decreases |modes|
  {
    if modes != [] {
      PlacedMembers(modes[..|modes| - 1], m);
      assert modes == modes[..|modes| - 1] + [modes[|modes| - 1]];
    }
  }

  lemma {:induction false} PlacedDistinct(modes: seq<Mode>)
    ensures Distinct(Placed(modes)) <==>
            forall i, j :: 0 <= i < j < |modes| && modes[i].x != -1 ==> modes[i] != modes[j]
    decreases |modes|
  {
    if modes != [] {
      var front, last := modes[..|modes| - 1], modes[|modes| - 1];
      PlacedDistinct(front);
      PlacedMembers(front, last);
      if last.x != -1 && last in Placed(front) {
        var p := Placed(modes);
        var i :| 0 <= i < |Placed(front)| && Placed(front)[i] == last;
        assert p[i] == p[|p| - 1];
        var k :| 0 <= k < |front| && front[k] == last;
        assert modes[k] == modes[|modes| - 1];
      }
      if last.x != -1 && last !in Placed(front) {
        assert forall i :: 0 <= i < |front| ==> modes[i] == front[i] && modes[i] != last;
        PlacedExtends(modes);
      }
      if last.x == -1 {
        assert forall i :: 0 <= i < |front| ==> modes[i] == front[i];
        assert Placed(modes) == Placed(front);
      }
    }
  }

  lemma PlacedExtends(modes: seq<Mode>)
    requires modes != [] && modes[|modes| - 1].x != -1 && modes[|modes| - 1] !in Placed(modes[..|modes| - 1])
    ensures Distinct(Placed(modes)) <==> Distinct(Placed(modes[..|modes| - 1]))
  {
    DistinctSnoc(Placed(modes[..|modes| - 1]), modes[|modes| - 1]);
  }

  lemma DistinctSnoc(s: seq<Mode>, m: Mode)
    requires m !in s
    ensures Distinct(s + [m]) <==> Distinct(s)
  {
    assert forall i :: 0 <= i < |s| ==> (s + [m])[i] == s[i];
  }

  /** Permutations of a distinct sequence are the distinct ones with its members. */
  lemma SameMultiset(p: seq<Mode>, e: seq<Mode>)
    requires Distinct(e)
    ensures multiset(p) == multiset(e) <==> Distinct(p) && forall m :: m in p <==> m in e
  {
    if multiset(p) == multiset(e) {
      CountDistinct(p, e);
      assert forall m :: m in p <==> m in multiset(p);
      assert forall m :: m in e <==> m in multiset(e);
    }
    if Distinct(p) && forall m :: m in p <==> m in e {
      forall m
        ensures multiset(p)[m] == multiset(e)[m]
      {
        DistinctCount(p, m);
        DistinctCount(e, m);
      }
    }
  }

  lemma PlacedSame(res: seq<Resolution>, modes: seq<Mode>)
    requires Wide(res)
    ensures (forall m :: m in Placed(modes) <==> m in Expected(res)) <==>
            (forall j :: 0 <= j < |modes| && modes[j].x != -1 ==> modes[j] in Expected(res)) &&
            (forall e :: e in Expected(res) ==> e in modes)
  {
    ExpectedDistinct(res);
    forall m
      ensures m in Placed(modes) <==> m in modes && m.x != -1
    {
      PlacedMembers(modes, m);
    }
  }

  lemma AcceptedIsMatching(res: seq<Resolution>, modes: seq<Mode>)
    requires Wide(res)
    ensures Accepted(res, modes) <==> Matching(res, modes) && forall e :: e in Expected(res) ==> e in modes
  {
    ExpectedDistinct(res);
    PlacedDistinct(modes);
    SameMultiset(Placed(modes), Expected(res));
    PlacedSame(res, modes);
  }

  /** A sequence with the elements of a distinct one, counted, is distinct. */
  lemma CountDistinct(p: seq<Mode>, e: seq<Mode>)
    requires Distinct(e) && multiset(p) == multiset(e)
    ensures Distinct(p)
  {
    forall i, j | 0 <= i < j < |p|
      ensures p[i] != p[j]
    {
      if p[i] == p[j] {
        assert p == p[..i] + [p[i]] + p[i + 1..j] + [p[j]] + p[j + 1..];
        assert multiset(p)[p[i]] >= 2;
        DistinctCount(e, p[i]);
        assert false;
      }
    }
  }

  // ----- The C function -----

  /** Slot i of the offsets while the screens in `modes` are matched. */
  ghost function Slot(res: seq<Resolution>, modes: seq<Mode>, i: nat): int
    requires i < |res|
  {
    if Expected(res)[i] in modes then -1 else Offset(res, i)
  }

  ghost predicate Fits(res: seq<Resolution>, modes: seq<Mode>, i: nat, m: Mode)
    requires i < |res|
  {
    Slot(res, modes, i) == m.x && res[i].w == m.w && res[i].h == m.h
  }

  /** Matching one more screen succeeds exactly when some slot fits it. */
  lemma NextMatches(res: seq<Resolution>, modes: seq<Mode>, m: Mode)
    requires Wide(res) && Matching(res, modes)
    ensures Matching(res, modes + [m]) <==> exists i :: 0 <= i < |res| && Fits(res, modes, i, m)
  {
    if m.x == -1 {
      MarkerMatches(res, modes, m);
    } else {
      PlacedMatches(res, modes, m);
      PlacedFits(res, modes, m);
    }
  }

  lemma PlacedMatches(res: seq<Resolution>, modes: seq<Mode>, m: Mode)
    requires Matching(res, modes) && m.x != -1
    ensures Matching(res, modes + [m]) <==> m in Expected(res) && m !in modes
  {
    var next := modes + [m];
    PrecededStays(modes, m);
    assert next[|modes|] == m;
    assert forall j :: 0 <= j < |modes| ==> next[j] == modes[j];
  }

  lemma PlacedFits(res: seq<Resolution>, modes: seq<Mode>, m: Mode)
    requires Wide(res) && m.x != -1
    ensures m in Expected(res) && m !in modes <==> exists i :: 0 <= i < |res| && Fits(res, modes, i, m)
  {
    ExpectedDistinct(res);
    forall i | 0 <= i < |res|
      ensures Fits(res, modes, i, m) <==> Expected(res)[i] == m && m !in modes
    {
    }
  }

  lemma PrecededStays(modes: seq<Mode>, m: Mode)
    ensures forall j :: 0 <= j < |modes| && Preceded(modes, j) ==> Preceded(modes + [m], j)
    ensures forall j :: 0 <= j < |modes| && Preceded(modes + [m], j) ==> Preceded(modes, j)
  {
    var next := modes + [m];
    forall j | 0 <= j < |modes|
      ensures Preceded(modes, j) <==> Preceded(next, j)
    {
      if i :| 0 <= i < j && modes[i].x != -1 && modes[i].w == modes[j].w && modes[i].h == modes[j].h {
        assert next[i].x != -1;
      }
      if i :| 0 <= i < j && next[i].x != -1 && next[i].w == next[j].w && next[i].h == next[j].h {
        assert modes[i].x != -1;
      }
    }
  }

  lemma MarkerMatches(res: seq<Resolution>, modes: seq<Mode>, m: Mode)
    requires Wide(res) && Matching(res, modes) && m.x == -1
    ensures Matching(res, modes + [m]) <==> exists i :: 0 <= i < |res| && Fits(res, modes, i, m)
  {
    MarkerPreceded(res, modes, m);
    var next := modes + [m];
    if Preceded(next, |modes|) {
      var k :| 0 <= k < |modes| && next[k].x != -1 && next[k].w == m.w && next[k].h == m.h;
      assert modes[k] in Expected(res);
      var i :| 0 <= i < |res| && Expected(res)[i] == modes[k];
      assert Fits(res, modes, i, m);
    }
    if i :| 0 <= i < |res| && Fits(res, modes, i, m) {
      MarkerFits(res, modes, m, i);
    }
  }

  lemma MarkerPreceded(res: seq<Resolution>, modes: seq<Mode>, m: Mode)
    requires Matching(res, modes) && m.x == -1
    ensures Matching(res, modes + [m]) <==> Preceded(modes + [m], |modes|)
  {
    var next := modes + [m];
    assert next[|modes|] == m && forall j :: 0 <= j < |modes| ==> next[j] == modes[j];
    if Preceded(next, |modes|) {
      forall j | 0 <= j < |next| && next[j].x == -1 ensures Preceded(next, j) {
        if j < |modes| {
          PrecededStays(modes, m);
        }
      }
    }
  }

  lemma MarkerFits(res: seq<Resolution>, modes: seq<Mode>, m: Mode, i: nat)
    requires Wide(res) && m.x == -1 && i < |res| && Fits(res, modes, i, m)
    ensures Preceded(modes + [m], |modes|)
  {
    ExpectedDistinct(res);
    var next := modes + [m];
    var k :| 0 <= k < |modes| && modes[k] == Expected(res)[i];
    assert next[k] == modes[k] && next[|modes|] == m;
  }

  /** Marking a slot that fits accounts for exactly that screen. */
  lemma MarkSlot(res: seq<Resolution>, modes: seq<Mode>, m: Mode, i: nat)
    requires Wide(res) && i < |res| && Fits(res, modes, i, m)
    ensures forall j :: 0 <= j < |res| ==> Slot(res, modes + [m], j) == if j == i then -1 else Slot(res, modes, j)
  {
    ExpectedDistinct(res);
    forall j | 0 <= j < |res|
      ensures Slot(res, modes + [m], j) == if j == i then -1 else Slot(res, modes, j)
    {
      var e := Expected(res)[j];
      assert e in modes + [m] <==> e in modes || e == m;
    }
  }

  lemma MatchingPrefix(res: seq<Resolution>, all: seq<Mode>, modes: seq<Mode>)
    requires Matching(res, all) && modes <= all
    ensures Matching(res, modes)
  {
    assert forall j :: 0 <= j < |modes| ==> modes[j] == all[j];
    forall j | 0 <= j < |modes| && modes[j].x == -1 ensures Preceded(modes, j) {
      assert Preceded(all, j);
      var i :| 0 <= i < j && all[i].x != -1 && all[i].w == all[j].w && all[i].h == all[j].h;
      assert modes[i] == all[i];
    }
  }

  function Active(screens: seq<Screen>): seq<Mode> {
    if screens == [] then []
    else
      var s := screens[|screens| - 1];
      Active(screens[..|screens| - 1]) + if s.Connected? && s.mode.w != 0 then [s.mode] else []
  }

  /** The active screens are the connected ones with a width, in order. */
  lemma {:induction false} ActiveScreens(a: seq<Screen>, s: Screen, b: seq<Screen>)
    ensures Active(a + [s] + b) == Active(a) + (if s.Connected? && s.mode.w != 0 then [s.mode] else []) + Active(b)
    decreases |b|
  {
    var all := a + [s] + b;
    if b == [] {
      assert all[..|all| - 1] == a && all[|all| - 1] == s;
    } else {
      var n := |b| - 1;
      assert all[..|all| - 1] == a + [s] + b[..n] && all[|all| - 1] == b[n];
      ActiveScreens(a, s, b[..n]);
    }
  }

  lemma {:induction false} ActivePrefix(screens: seq<Screen>, k: nat)
    requires k <= |screens|
    ensures Active(screens[..k]) <= Active(screens)
    decreases |screens|
  {
    if k < |screens| {
      ActivePrefix(screens[..|screens| - 1], k);
      assert screens[..|screens| - 1][..k] == screens[..k];
    } else {
      assert screens[..k] == screens;
    }
  }

  predicate Meets(offset: int, r: Resolution, m: Mode) {
    offset == m.x && r.w == m.w && r.h == m.h
  }

  /** The search for a slot that fits one screen, and its marking; -1 if there is none. */
  method FindSlot(res: seq<Resolution>, offsets: array<int>, m: Mode) returns (slot: int)
    requires |res| <= offsets.Length
    modifies offsets
    ensures -1 <= slot < |res|
    ensures slot == -1 ==> (forall i :: 0 <= i < |res| ==> !Meets(offsets[i], res[i], m)) && offsets[..] == old(offsets[..])
    ensures slot != -1 ==> Meets(old(offsets[slot]), res[slot], m) && offsets[..] == old(offsets[..])[slot := -1]
  {
    for i := 0 to |res|
      invariant forall j :: 0 <= j < i ==> !Meets(offsets[j], res[j], m)
      invariant offsets[..] == old(offsets[..])
    {
      if Meets(offsets[i], res[i], m) {
        offsets[i] := -1;
        return i;
      }
    }
    slot := -1;
  }

  /** The offsets once the screens in `modes` are matched. */
  ghost predicate Marked(res: seq<Resolution>, modes: seq<Mode>, offsets: seq<int>) {
    |res| <= |offsets| && forall i :: 0 <= i < |res| ==> offsets[i] == Slot(res, modes, i)
  }

  lemma FoundSlot(res: seq<Resolution>, modes: seq<Mode>, offsets: seq<int>, m: Mode, i: nat)
    requires Wide(res) && Matching(res, modes) && Marked(res, modes, offsets)
    requires i < |res| && Meets(offsets[i], res[i], m)
    ensures Matching(res, modes + [m]) && Marked(res, modes + [m], offsets[i := -1])
  {
    assert Fits(res, modes, i, m);
    NextMatches(res, modes, m);
    MarkSlot(res, modes, m, i);
  }

  lemma NoSlot(res: seq<Resolution>, modes: seq<Mode>, offsets: seq<int>, m: Mode)
    requires Wide(res) && Matching(res, modes) && Marked(res, modes, offsets)
    requires forall i :: 0 <= i < |res| ==> !Meets(offsets[i], res[i], m)
    ensures !Matching(res, modes + [m])
  {
    NextMatches(res, modes, m);
  }

  /** The list of expected offsets. */
  method ExpectedOffsets(res: seq<Resolution>) returns (offsets: array<int>)
    requires |res| <= MAX_SCREENS
    ensures fresh(offsets) && Marked(res, [], offsets[..])
  {
    offsets := new int[MAX_SCREENS](_ => 0);
    var i := 1;
    while i < |res|
      invariant 1 <= i && forall j :: 0 <= j < i && j < |res| ==> offsets[j] == Offset(res, j)
    {
      offsets[i] := offsets[i - 1] + res[i - 1].w;
      i := i + 1;
    }
  }

  /** One screen: find its slot and mark it. */
  method MatchOne(res: seq<Resolution>, offsets: array<int>, m: Mode, ghost modes: seq<Mode>) returns (found: bool)
    requires Wide(res) && Matching(res, modes) && Marked(res, modes, offsets[..])
    modifies offsets
    ensures found <==> Matching(res, modes + [m])
    ensures found ==> Marked(res, modes + [m], offsets[..])
  {
    ghost var was := offsets[..];
    var slot := FindSlot(res, offsets, m);
    if slot == -1 {
      NoSlot(res, modes, was, m);
      return false;
    }
    FoundSlot(res, modes, was, m, slot);
    return true;
  }

  lemma ActiveStep(screens: seq<Screen>, k: nat)
    requires k < |screens|
    ensures var s := screens[k];
            Active(screens[..k + 1]) == Active(screens[..k]) + if s.Connected? && s.mode.w != 0 then [s.mode] else []
  {
    assert screens[..k + 1][..k] == screens[..k];
  }

  /** The loop over all screens; false when one has no slot. */
  method MatchScreens(res: seq<Resolution>, offsets: array<int>, screens: seq<Screen>) returns (ok: bool)
    requires Wide(res) && Marked(res, [], offsets[..])
    modifies offsets
    ensures ok <==> Matching(res, Active(screens))
    ensures ok ==> Marked(res, Active(screens), offsets[..])
  {
    for k := 0 to |screens|
      invariant Matching(res, Active(screens[..k]))
      invariant Marked(res, Active(screens[..k]), offsets[..])
    {
      ActiveStep(screens, k);
      if screens[k].Disconnected? || screens[k].mode.w == 0 {
        assert Active(screens[..k]) + [] == Active(screens[..k]);
        continue;
      }
      var found := MatchOne(res, offsets, screens[k].mode, Active(screens[..k]));
      if !found {
        NoWayBack(res, screens, k + 1);
        return false;
      }
    }
    assert screens[..|screens|] == screens;
    return true;
  }

  /** isResolutionFine with multi-screen support: 0 when the layout is as expected. */
  method IsResolutionFine(res: seq<Resolution>, screens: seq<Screen>) returns (code: int)
    requires Wide(res) && |res| <= MAX_SCREENS
    ensures code == 0 || code == EAGAIN
    ensures code == 0 <==> Accepted(res, Active(screens))
  {
    var offsets := ExpectedOffsets(res);
    AcceptedIsMatching(res, Active(screens));
    var ok := MatchScreens(res, offsets, screens);
    if !ok {
      return EAGAIN;
    }
    code := AllMarked(res, offsets, Active(screens));
  }

  lemma NoWayBack(res: seq<Resolution>, screens: seq<Screen>, k: nat)
    requires k <= |screens| && !Matching(res, Active(screens[..k]))
    ensures !Matching(res, Active(screens))
  {
    ActivePrefix(screens, k);
    var part, all := Active(screens[..k]), Active(screens);
    if Matching(res, all) {
      MatchingPrefix(res, all, part);
    }
  }

  /** The final loop: every expected screen was found. */
  method AllMarked(res: seq<Resolution>, offsets: array<int>, ghost modes: seq<Mode>) returns (code: int)
    requires Wide(res) && Marked(res, modes, offsets[..])
    ensures code == 0 || code == EAGAIN
    ensures code == 0 <==> forall e :: e in Expected(res) ==> e in modes
  {
    ExpectedDistinct(res);
    for i := 0 to |res|
      invariant forall j :: 0 <= j < i ==> Expected(res)[j] in modes
    {
      if offsets[i] != -1 {
        assert Expected(res)[i] !in modes;
        return EAGAIN;
      }
    }
    return 0;
  }

  /** Without a screen at -1 the check accepts exactly the permutations. */
  lemma AcceptedIsPermutation(res: seq<Resolution>, modes: seq<Mode>)
    requires forall j :: 0 <= j < |modes| ==> modes[j].x != -1
    ensures Accepted(res, modes) <==> multiset(modes) == multiset(Expected(res))
  {
    PlacedAll(modes);
  }

  /** Screens of the expected sizes, laid edge to edge from 0 on, are accepted. */
  lemma EdgeToEdge(res: seq<Resolution>, modes: seq<Mode>)
    requires Wide(res) && |modes| == |res|
    requires forall i :: 0 <= i < |res| ==> modes[i].w == res[i].w && modes[i].h == res[i].h
    requires forall i :: 0 <= i < |res| ==> modes[i].x == if i == 0 then 0 else modes[i - 1].x + modes[i - 1].w
    ensures Accepted(res, modes)
  {
    forall i | 0 <= i < |res| ensures modes[i] == Expected(res)[i] && modes[i].x != -1 {
      EdgeIsOffset(res, modes, i);
      OffsetsIncrease(res, i, i);
    }
    assert modes == Expected(res);
    AcceptedIsPermutation(res, modes);
  }

  lemma {:induction false} EdgeIsOffset(res: seq<Resolution>, modes: seq<Mode>, i: nat)
    requires |modes| == |res| && i < |res|
    requires forall j :: 0 <= j < |res| ==> modes[j].w == res[j].w
    requires forall j :: 0 <= j < |res| ==> modes[j].x == if j == 0 then 0 else modes[j - 1].x + modes[j - 1].w
    ensures modes[i].x == Offset(res, i)
    decreases i
  {
    if i > 0 {
      EdgeIsOffset(res, modes, i - 1);
    }
  }

  lemma {:induction false} PlacedAll(modes: seq<Mode>)
    requires forall j :: 0 <= j < |modes| ==> modes[j].x != -1
    ensures Placed(modes) == modes
    decreases |modes|
  {
    if modes != [] {
      PlacedAll(modes[..|modes| - 1]);
    }
  }

  /** A screen at -1 can stand for a marked slot: two screens pass for one. */
  lemma MarkerScreenPasses()
    ensures var res := [Resolution(640, 480)]; var modes := [Mode(0, 640, 480), Mode(-1, 640, 480)];
            Wide(res) && Accepted(res, modes) && multiset(modes) != multiset(Expected(res))
  {
    var res, modes := [Resolution(640, 480)], [Mode(0, 640, 480), Mode(-1, 640, 480)];
    assert Expected(res) == [Mode(0, 640, 480)];
    assert modes[..1] == [Mode(0, 640, 480)];
    assert Placed(modes[..1]) == [Mode(0, 640, 480)] by {
      PlacedAll(modes[..1]);
    }
    assert modes[0].x != -1;
    assert Preceded(modes, 1);
    assert |multiset(modes)| == 2;
  }
}
