/** The module walk of core/bin/setup_target: a depth-first walk over
    REQUIRED_MODULES whose visited set is one string, PROCESSED_MODULES. */
module ModuleWalk {

  // ----- The visited set, encoded as a string -----

  function Mark(name: string): string {
    "!" + name + "!"
  }

  function Encode(names: seq<string>): string {
    if names == [] then "" else Encode(names[..|names| - 1]) + Mark(names[|names| - 1])
  }

  predicate OccursAt(text: string, pattern: string, at: nat) {
    at + |pattern| <= |text| && text[at..at + |pattern|] == pattern
  }

  /** The shell test `[[ "$text" == *"$pattern"* ]]`. */
  predicate Contains(text: string, pattern: string) {
    exists at :: 0 <= at <= |text| && OccursAt(text, pattern, at)
  }

  predicate Plain(name: string) {
    '!' !in name
  }

  lemma MarkChars(name: string)
    requires name != "" && Plain(name)
    ensures forall j :: 0 <= j < |Mark(name)| ==> (Mark(name)[j] == '!' <==> j == 0 || j == |name| + 1)
  {
    forall j | 0 < j <= |name|
      ensures Mark(name)[j] == name[j - 1]
    {
    }
  }

  lemma OccursChars(text: string, pattern: string, at: nat)
    requires OccursAt(text, pattern, at)
    ensures forall q :: at <= q < at + |pattern| ==> text[q] == pattern[q - at]
  {
    forall q | at <= q < at + |pattern|
      ensures text[q] == pattern[q - at]
    {
      assert text[q] == text[at..at + |pattern|][q - at];
    }
  }

  /** An occurrence of a mark in a concatenation never straddles the seam. */
  lemma ContainsConcat(a: string, b: string, name: string)
    requires name != "" && Plain(name)
    requires a != "" ==> a[|a| - 1] == '!'
    requires b != "" && b[0] == '!'
    ensures Contains(a + b, Mark(name)) <==> Contains(a, Mark(name)) || Contains(b, Mark(name))
  {
    var pat, ab := Mark(name), a + b;
    MarkChars(name);
    assert ab[|a|] == '!' && (a != "" ==> ab[|a| - 1] == '!');
    forall at | 0 <= at <= |a| && OccursAt(a, pat, at)
      ensures OccursAt(ab, pat, at)
    {
      assert ab[at..at + |pat|] == a[at..at + |pat|];
    }
    forall at | 0 <= at <= |b| && OccursAt(b, pat, at)
      ensures OccursAt(ab, pat, |a| + at)
    {
      assert ab[|a| + at..|a| + at + |pat|] == b[at..at + |pat|];
    }
    forall at | 0 <= at <= |ab| && OccursAt(ab, pat, at)
      ensures Contains(a, pat) || Contains(b, pat)
    {
      OccursChars(ab, pat, at);
      assert at + |pat| <= |a| || |a| <= at;
      if at + |pat| <= |a| {
        assert a[at..at + |pat|] == ab[at..at + |pat|];
        assert OccursAt(a, pat, at);
      } else {
        assert b[at - |a|..at - |a| + |pat|] == ab[at..at + |pat|];
        assert OccursAt(b, pat, at - |a|);
      }
    }
  }

  lemma EncodeEnds(names: seq<string>)
    ensures Encode(names) != "" ==> Encode(names)[|Encode(names)| - 1] == '!'
  {
  }

  /** What the substring test decides for a '!'-free name, whatever was added. */
  lemma {:induction false} VisitedTestExact(names: seq<string>, name: string)
    requires name != "" && Plain(name)
    ensures Contains(Encode(names), Mark(name)) <==>
            exists i :: 0 <= i < |names| && Contains(Mark(names[i]), Mark(name))
  {
    if names == [] {
    } else {
      var front, last := names[..|names| - 1], names[|names| - 1];
      VisitedTestExact(front, name);
      EncodeEnds(front);
      ContainsConcat(Encode(front), Mark(last), name);
      assert forall i :: 0 <= i < |front| ==> front[i] == names[i];
    }
  }

  lemma MarkInMark(added: string, name: string)
    requires name != "" && Plain(name) && Plain(added)
    ensures Contains(Mark(added), Mark(name)) <==> added == name
  {
    var text, pat := Mark(added), Mark(name);
    if added == name {
      assert OccursAt(text, pat, 0);
    }
    forall at | 0 <= at <= |text| && OccursAt(text, pat, at)
      ensures added == name
    {
      OccursChars(text, pat, at);
      assert text[at] == '!' && text[at + |name| + 1] == '!';
      assert forall j :: 0 < j <= |added| ==> text[j] == added[j - 1];
      assert at == 0 && |name| == |added|;
      assert text[at..at + |pat|] == text;
      assert name == text[1..|text| - 1] == added;
    }
  }

  /** On '!'-free names the string is exactly a set of names. */
  lemma VisitedTest(names: seq<string>, name: string)
    requires name != "" && Plain(name)
    requires forall n :: n in names ==> Plain(n)
    ensures Contains(Encode(names), Mark(name)) <==> name in names
  {
    VisitedTestExact(names, name);
    forall i | 0 <= i < |names|
      ensures Contains(Mark(names[i]), Mark(name)) <==> names[i] == name
    {
      MarkInMark(names[i], name);
    }
  }

  /** Whatever the names are, a name that was added is found. */
  lemma {:induction false} AddedIsFound(names: seq<string>, name: string)
    requires name in names
    ensures Contains(Encode(names), Mark(name))
    decreases |names|
  {
    var front, last := names[..|names| - 1], names[|names| - 1];
    var text := Encode(front) + Mark(last);
    if last == name {
      assert text[|Encode(front)|..|Encode(front)| + |Mark(name)|] == Mark(name);
      assert OccursAt(text, Mark(name), |Encode(front)|);
    } else {
      AddedIsFound(front, name);
      var at :| 0 <= at <= |Encode(front)| && OccursAt(Encode(front), Mark(name), at);
      assert text[at..at + |Mark(name)|] == Encode(front)[at..at + |Mark(name)|];
      assert OccursAt(text, Mark(name), at);
    }
  }

  /** A '!' on either side misleads the test: after "a!b" it claims "a", and after
      "a" and "b" it claims "a!!b". */
  lemma VisitedTestNeedsPlainNames()
    ensures Contains(Encode(["a!b"]), Mark("a")) && "a" !in ["a!b"]
    ensures Contains(Encode(["a", "b"]), Mark("a!!b")) && "a!!b" !in ["a", "b"]
  {
    assert ["a!b"][..0] == [] && Encode(["a!b"]) == "!a!b!";
    assert "!a!b!"[0..3] == Mark("a") && OccursAt("!a!b!", Mark("a"), 0);
    assert ["a", "b"][..1] == ["a"] && ["a"][..0] == [];
    assert Encode(["a"]) == "!a!" && Encode(["a", "b"]) == "!a!!b!";
    assert "!a!!b!"[0..6] == Mark("a!!b") && OccursAt("!a!!b!", Mark("a!!b"), 0);
  }

  // ----- Dependency graphs -----

  /** REQUIRED_MODULES of every module whose directory exists. */
  type Graph = map<string, seq<string>>

  ghost predicate Edge(g: Graph, a: string, b: string) {
    a in g && b in g[a]
  }

  ghost predicate PlainGraph(g: Graph) {
    forall a, b :: Edge(g, a, b) ==> Plain(b)
  }

  ghost predicate PlainNames(g: Graph, modules: seq<string>) {
    PlainGraph(g) && forall m :: m in modules ==> Plain(m)
  }

  ghost predicate Path(g: Graph, a: string, steps: seq<string>, b: string)
    decreases |steps|
  {
    if steps == [] then a == b else Edge(g, a, steps[0]) && Path(g, steps[0], steps[1..], b)
  }

  ghost predicate Reaches(g: Graph, a: string, b: string) {
    exists steps :: Path(g, a, steps, b)
  }

  ghost predicate Acyclic(g: Graph) {
    forall a, b :: Edge(g, a, b) ==> !Reaches(g, b, a)
  }

  lemma ReachesSelf(g: Graph, a: string)
    ensures Reaches(g, a, a)
  {
    assert Path(g, a, [], a);
  }

  lemma ReachesStep(g: Graph, a: string, b: string, c: string)
    requires Edge(g, a, b) && Reaches(g, b, c)
    ensures Reaches(g, a, c)
  {
    var steps :| Path(g, b, steps, c);
    assert ([b] + steps)[1..] == steps;
    assert Path(g, a, [b] + steps, c);
  }

  lemma ReachesThrough(g: Graph, a: string, b: string)
    requires Edge(g, a, b)
    ensures forall c :: Reaches(g, b, c) ==> Reaches(g, a, c)
  {
    forall c | Reaches(g, b, c)
      ensures Reaches(g, a, c)
    {
      ReachesStep(g, a, b, c);
    }
  }

  /** The measure of the recursion: modules that are not marked yet. */
  lemma FewerLeft(g: Graph, m: string, before: seq<string>, after: seq<string>)
    requires m in g && m !in before && before + [m] <= after
    ensures (g.Keys - set x | x in after) < (g.Keys - set x | x in before)
  {
    assert after[|before|] == m;
    assert forall i :: 0 <= i < |before| ==> before[i] == after[i];
    assert m in g.Keys - set x | x in before;
  }

  lemma {:induction false} PathStaysIn(g: Graph, closed: set<string>, a: string, steps: seq<string>, b: string)
    requires Path(g, a, steps, b) && a in closed
    requires forall x, y :: x in closed && Edge(g, x, y) ==> y in closed
    ensures b in closed
    decreases |steps|
  {
    if steps == [] {
    } else {
      PathStaysIn(g, closed, steps[0], steps[1..], b);
    }
  }

  ghost predicate ReachableFrom(g: Graph, roots: seq<string>, x: string) {
    exists r :: r in roots && Reaches(g, r, x)
  }

  /** process_module gets past its own checks: a name, a directory, and a
      versioned target for names ending in '@'. */
  predicate Buildable(g: Graph, versioned: bool, m: string) {
    m != "" && m in g && (m[|m| - 1] == '@' ==> versioned)
  }

  // ----- Snapshots of a walk -----

  /** `marked`: modules in PROCESSED_MODULES; `copied`: modules whose post_copy ran. */
  datatype Walk = Walk(marked: seq<string>, copied: seq<string>)

  ghost predicate Distinct(s: seq<string>) {
    forall i, j :: 0 <= i < j < |s| ==> s[i] != s[j]
  }

  ghost predicate Sound(w: Walk) {
    && Distinct(w.marked)
    && Distinct(w.copied)
    && forall x :: x in w.copied ==> x in w.marked
  }

  /** Marked, but still waiting for its own dependencies. */
  ghost predicate Open(w: Walk, x: string) {
    x in w.marked && x !in w.copied
  }

  ghost predicate Extends(w0: Walk, w1: Walk) {
    && w0.marked <= w1.marked
    && w0.copied <= w1.copied
    && forall x :: Open(w0, x) ==> x !in w1.copied
  }

  ghost predicate NewReachedFrom(g: Graph, m: string, w0: Walk, w1: Walk) {
    forall x :: x in w1.marked && x !in w0.marked ==> Reaches(g, m, x)
  }

  /** Dependency d of the i-th copied module came first, or was already open
      when the walk started, or depends in turn on that module. */
  ghost predicate DepSettled(g: Graph, w0: Walk, w1: Walk, i: nat, d: string)
    requires i < |w1.copied|
  {
    d in w1.marked && (d in w1.copied[..i] || Open(w0, d) || Reaches(g, d, w1.copied[i]))
  }

  ghost predicate Settled(g: Graph, versioned: bool, w0: Walk, w1: Walk) {
    && (forall x :: x in w1.marked && x !in w0.marked ==> x in w1.copied && Buildable(g, versioned, x))
    && (forall i, d :: |w0.copied| <= i < |w1.copied| && Edge(g, w1.copied[i], d) ==> DepSettled(g, w0, w1, i, d))
  }

  lemma SettledTrans(g: Graph, versioned: bool, w0: Walk, w1: Walk, w2: Walk)
    requires Extends(w0, w1) && Extends(w1, w2) && Sound(w1)
    requires Settled(g, versioned, w0, w1) && Settled(g, versioned, w1, w2)
    ensures Extends(w0, w2) && Settled(g, versioned, w0, w2)
  {
    assert forall x :: x in w1.copied ==> x in w2.copied;
    forall i, d | |w0.copied| <= i < |w2.copied| && Edge(g, w2.copied[i], d)
      ensures DepSettled(g, w0, w2, i, d)
    {
      if i < |w1.copied| {
        assert w2.copied[i] == w1.copied[i] && w2.copied[..i] == w1.copied[..i];
        assert DepSettled(g, w0, w1, i, d);
      } else {
        assert DepSettled(g, w1, w2, i, d);
        assert Open(w1, d) ==> Open(w0, d);
      }
    }
  }

  /** Copying m last, once everything below it is settled, settles m too. */
  lemma SettledFinish(g: Graph, versioned: bool, m: string, w0: Walk, w: Walk)
    requires Sound(w0) && m !in w0.marked && Buildable(g, versioned, m)
    requires Sound(w) && Extends(Walk(w0.marked + [m], w0.copied), w)
    requires Settled(g, versioned, Walk(w0.marked + [m], w0.copied), w)
    requires NewReachedFrom(g, m, w0, w)
    requires forall d :: Edge(g, m, d) ==> d in w.marked
    ensures var w' := Walk(w.marked, w.copied + [m]);
            Sound(w') && Extends(w0, w') && Settled(g, versioned, w0, w')
  {
    var wm := Walk(w0.marked + [m], w0.copied);
    var w' := Walk(w.marked, w.copied + [m]);
    assert Open(wm, m);
    forall i, d | |w0.copied| <= i < |w'.copied| && Edge(g, w'.copied[i], d)
      ensures DepSettled(g, w0, w', i, d)
    {
      ReachesSelf(g, m);
      if i < |w.copied| {
        assert w'.copied[..i] == w.copied[..i];
        assert DepSettled(g, wm, w, i, d);
        if Open(wm, d) && d == m {
          NewCopiedIsNewMarked(wm, w, i);
        }
      } else {
        assert w'.copied[..i] == w.copied;
        assert d in w.marked;
        if d !in w.copied {
          assert d in wm.marked;
        }
      }
    }
  }

  lemma ExtendsTrans(w0: Walk, w1: Walk, w2: Walk)
    requires Extends(w0, w1) && Extends(w1, w2) && Sound(w1)
    ensures Extends(w0, w2)
  {
  }

  lemma ExtendsMark(m: string, w0: Walk)
    requires Sound(w0) && m !in w0.marked
    ensures Extends(w0, Walk(w0.marked + [m], w0.copied)) && Sound(Walk(w0.marked + [m], w0.copied))
  {
  }

  /** Copying m keeps the bookkeeping sound, whatever its dependencies are. */
  lemma CopyKeepsSound(m: string, w0: Walk, w: Walk)
    requires Sound(w0) && m !in w0.marked && Sound(w) && Extends(Walk(w0.marked + [m], w0.copied), w)
    ensures var w' := Walk(w.marked, w.copied + [m]); Sound(w') && Extends(w0, w')
  {
    var wm := Walk(w0.marked + [m], w0.copied);
    assert Open(wm, m);
    assert forall x :: Open(w0, x) ==> Open(wm, x);
  }

  lemma NewCopiedIsNewMarked(w0: Walk, w1: Walk, i: nat)
    requires Sound(w1) && Extends(w0, w1) && |w0.copied| <= i < |w1.copied|
    ensures w1.copied[i] in w1.marked && w1.copied[i] !in w0.marked
  {
    assert forall j :: 0 <= j < |w0.copied| ==> w0.copied[j] == w1.copied[j] != w1.copied[i];
    assert !Open(w0, w1.copied[i]);
  }

  /** What a finished walk from an empty state means, for every graph. */
  ghost predicate Complete(g: Graph, roots: seq<string>, copied: seq<string>) {
    && Distinct(copied)
    && (forall x :: x in copied <==> ReachableFrom(g, roots, x))
    && (forall i, d :: 0 <= i < |copied| && Edge(g, copied[i], d) ==>
          d in copied[..i] || Reaches(g, d, copied[i]))
  }

  lemma WalkIsComplete(g: Graph, versioned: bool, roots: seq<string>, w: Walk)
    requires Sound(w) && Settled(g, versioned, Walk([], []), w)
    requires forall r :: r in roots ==> r in w.marked
    requires forall x :: x in w.marked ==> ReachableFrom(g, roots, x)
    ensures Complete(g, roots, w.copied)
    ensures forall x :: ReachableFrom(g, roots, x) ==> Buildable(g, versioned, x)
  {
    var done := set x | x in w.copied;
    forall x, y | x in done && Edge(g, x, y)
      ensures y in done
    {
      var i :| 0 <= i < |w.copied| && w.copied[i] == x;
      assert DepSettled(g, Walk([], []), w, i, y);
    }
    forall x | ReachableFrom(g, roots, x)
      ensures x in done
    {
      var r :| r in roots && Reaches(g, r, x);
      var steps :| Path(g, r, steps, x);
      PathStaysIn(g, done, r, steps, x);
    }
    forall i, d | 0 <= i < |w.copied| && Edge(g, w.copied[i], d)
      ensures d in w.copied[..i] || Reaches(g, d, w.copied[i])
    {
      assert DepSettled(g, Walk([], []), w, i, d);
    }
  }

  // ----- Order of what is listed one after the other -----

  /** `part` holds what was there before and what the roots reach. */
  ghost predicate Exactly(g: Graph, before: seq<string>, part: seq<string>, roots: seq<string>) {
    forall x :: x in part <==> x in before || ReachableFrom(g, roots, x)
  }

  /** Some first part of `copied` holds exactly what was there before and what the roots reach. */
  ghost predicate Cut(g: Graph, before: seq<string>, copied: seq<string>, roots: seq<string>) {
    exists n :: |before| <= n <= |copied| && Exactly(g, before, copied[..n], roots)
  }

  /** For every j, what the first j roots reach is copied before anything else is added. */
  ghost predicate InOrder(g: Graph, before: seq<string>, copied: seq<string>, roots: seq<string>) {
    forall j :: 0 <= j <= |roots| ==> Cut(g, before, copied, roots[..j])
  }

  /** m was copied last, after its dependencies in the order listed. */
  ghost predicate LastInOrder(g: Graph, before: seq<string>, copied: seq<string>, m: string) {
    && m in g && before <= copied && |before| < |copied| && copied[|copied| - 1] == m
    && InOrder(g, before, copied[..|copied| - 1], g[m])
  }

  /** A requested module that no earlier one reaches is copied right after what the
      earlier ones reach and its own dependencies, these in the order listed. */
  ghost predicate RootInOrder(g: Graph, copied: seq<string>, modules: seq<string>, k: nat)
    requires k < |modules|
  {
    ReachableFrom(g, modules[..k], modules[k]) ||
    exists n, p :: 0 <= n <= p <= |copied| && Exactly(g, [], copied[..n], modules[..k])
                   && LastInOrder(g, copied[..n], copied[..p], modules[k])
  }

  lemma RootStaysInOrder(g: Graph, copied: seq<string>, more: seq<string>, modules: seq<string>, k: nat)
    requires k < |modules| && RootInOrder(g, copied, modules, k) && copied <= more
    ensures RootInOrder(g, more, modules, k)
  {
    if !ReachableFrom(g, modules[..k], modules[k]) {
      var n, p :| 0 <= n <= p <= |copied| && Exactly(g, [], copied[..n], modules[..k])
                  && LastInOrder(g, copied[..n], copied[..p], modules[k]);
      assert more[..n] == copied[..n] && more[..p] == copied[..p];
    }
  }

  lemma RootComesInOrder(g: Graph, before: seq<string>, copied: seq<string>, modules: seq<string>, k: nat)
    requires k < |modules| && before <= copied && Exactly(g, [], before, modules[..k])
    requires LastInOrder(g, before, copied, modules[k])
    ensures RootInOrder(g, copied, modules, k)
  {
    var n, p := |before|, |copied|;
    assert copied[..n] == before && copied[..p] == copied;
    assert LastInOrder(g, copied[..n], copied[..p], modules[k]);
  }

  lemma NoRoots(g: Graph, before: seq<string>)
    ensures InOrder(g, before, before, [])
  {
    var none: seq<string> := [];
    assert none[..0] == none && before[..|before|] == before;
    assert Exactly(g, before, before[..|before|], none[..0]);
  }

  lemma NextRoot(g: Graph, before: seq<string>, copied: seq<string>, more: seq<string>, roots: seq<string>, r: string)
    requires before <= copied <= more && InOrder(g, before, copied, roots) && Exactly(g, before, more, roots + [r])
    ensures InOrder(g, before, more, roots + [r])
  {
    var all := roots + [r];
    forall j | 0 <= j <= |all|
      ensures Cut(g, before, more, all[..j])
    {
      if j <= |roots| {
        assert all[..j] == roots[..j];
        assert Cut(g, before, copied, roots[..j]);
        var n :| |before| <= n <= |copied| && Exactly(g, before, copied[..n], roots[..j]);
        assert more[..n] == copied[..n];
        assert Exactly(g, before, more[..n], all[..j]);
      } else {
        assert all[..j] == all && more[..|more|] == more;
        assert Exactly(g, before, more[..|more|], all[..j]);
      }
    }
  }

  lemma ReachesTrans(g: Graph, a: string, b: string, c: string)
    requires Reaches(g, a, b) && Reaches(g, b, c)
    ensures Reaches(g, a, c)
  {
    var steps :| Path(g, a, steps, b);
    PathThen(g, a, steps, b, c);
  }

  lemma {:induction false} PathThen(g: Graph, a: string, steps: seq<string>, b: string, c: string)
    requires Path(g, a, steps, b) && Reaches(g, b, c)
    ensures Reaches(g, a, c)
    decreases |steps|
  {
    if steps != [] {
      PathThen(g, steps[0], steps[1..], b, c);
      ReachesStep(g, a, steps[0], c);
    }
  }

  /** Dependencies of copied modules are marked. */
  ghost predicate Closed(g: Graph, w: Walk) {
    forall x, d :: x in w.copied && Edge(g, x, d) ==> d in w.marked
  }

  lemma ClosedKept(g: Graph, versioned: bool, w0: Walk, w1: Walk)
    requires Closed(g, w0) && Extends(w0, w1) && Settled(g, versioned, w0, w1)
    ensures Closed(g, w1)
  {
    forall x, d | x in w1.copied && Edge(g, x, d) ensures d in w1.marked {
      var i :| 0 <= i < |w1.copied| && w1.copied[i] == x;
      if i < |w0.copied| {
        assert w0.copied[i] == x;
      } else {
        assert DepSettled(g, w0, w1, i, d);
      }
    }
  }

  /** Every module that waits for its dependencies depends on m. */
  ghost predicate OpenAbove(g: Graph, w: Walk, m: string) {
    forall x :: Open(w, x) ==> Reaches(g, x, m)
  }

  /** Without cycles a processed dependency leaves nothing behind it unfinished. */
  lemma DependencyFinished(g: Graph, w: Walk, m: string, d: string)
    requires Acyclic(g) && Closed(g, w) && OpenAbove(g, w, m) && Edge(g, m, d) && d in w.marked
    ensures forall x :: Reaches(g, d, x) ==> x in w.copied
  {
    ReachesSelf(g, d);
    NotOpenBelow(g, w, m, d, d);
    forall x | Reaches(g, d, x) ensures x in w.copied {
      var steps :| Path(g, d, steps, x);
      FinishedAlong(g, w, m, d, d, steps, x);
    }
  }

  lemma NotOpenBelow(g: Graph, w: Walk, m: string, d: string, x: string)
    requires Acyclic(g) && OpenAbove(g, w, m) && Edge(g, m, d) && Reaches(g, d, x)
    ensures !Open(w, x)
  {
    if Open(w, x) {
      ReachesTrans(g, d, x, m);
      assert false;
    }
  }

  lemma {:induction false} FinishedAlong(g: Graph, w: Walk, m: string, d: string, a: string, steps: seq<string>, x: string)
    requires Acyclic(g) && Closed(g, w) && OpenAbove(g, w, m) && Edge(g, m, d)
    requires Reaches(g, d, a) && a in w.copied && Path(g, a, steps, x)
    ensures x in w.copied
    decreases |steps|
  {
    if steps != [] {
      var b := steps[0];
      ReachesSelf(g, b);
      ReachesStep(g, a, b, b);
      ReachesTrans(g, d, a, b);
      NotOpenBelow(g, w, m, d, b);
      FinishedAlong(g, w, m, d, b, steps[1..], x);
    }
  }

  /** Processing one more dependency adds exactly what it reaches. */
  lemma DependencyAdds(g: Graph, before: seq<string>, w1: Walk, w2: Walk, m: string, roots: seq<string>, d: string)
    requires Exactly(g, before, w1.copied, roots) && Sound(w2) && Extends(w1, w2) && NewReachedFrom(g, d, w1, w2)
    requires forall x :: Reaches(g, d, x) ==> x in w2.copied
    ensures Exactly(g, before, w2.copied, roots + [d])
  {
    assert d in roots + [d];
    forall x ensures x in w2.copied <==> x in before || ReachableFrom(g, roots + [d], x) {
      if x in w2.copied && x !in w1.copied {
        var i :| 0 <= i < |w2.copied| && w2.copied[i] == x;
        assert i >= |w1.copied|;
        NewCopiedIsNewMarked(w1, w2, i);
      }
      ReachableSnoc(g, roots, d, x);
    }
  }

  /** The first k dependencies are done. */
  ghost predicate DepsDone(g: Graph, versioned: bool, wm: Walk, w: Walk, deps: seq<string>, k: nat)
    requires k <= |deps|
  {
    Settled(g, versioned, wm, w) && forall j :: 0 <= j < k ==> deps[j] in w.marked
  }

  ghost predicate DepsInOrder(g: Graph, wm: Walk, w: Walk, deps: seq<string>, k: nat)
    requires k <= |deps|
  {
    InOrder(g, wm.copied, w.copied, deps[..k]) && Exactly(g, wm.copied, w.copied, deps[..k])
  }

  lemma NextDepDone(g: Graph, versioned: bool, wm: Walk, w1: Walk, w2: Walk, deps: seq<string>, k: nat)
    requires k < |deps| && DepsDone(g, versioned, wm, w1, deps, k)
    requires Settled(g, versioned, wm, w2) && Extends(w1, w2) && deps[k] in w2.marked
    ensures DepsDone(g, versioned, wm, w2, deps, k + 1)
  {
    forall j | 0 <= j < k + 1 ensures deps[j] in w2.marked {
      assert j < k ==> deps[j] in w1.marked;
    }
  }

  /** One round of the loop over dependencies, as seen from the whole loop. */
  lemma NextDependency(g: Graph, versioned: bool, wm: Walk, w1: Walk, w2: Walk, m: string, deps: seq<string>, k: nat)
    requires k < |deps| && Edge(g, m, deps[k]) && DepsInOrder(g, wm, w1, deps, k) && DepsDone(g, versioned, wm, w2, deps, k + 1)
    requires Acyclic(g) && Closed(g, wm) && OpenAbove(g, wm, m)
    requires Sound(w1) && Sound(w2) && Extends(wm, w1) && Extends(w1, w2) && Extends(wm, w2)
    requires NewReachedFrom(g, deps[k], w1, w2)
    ensures DepsInOrder(g, wm, w2, deps, k + 1)
  {
    var roots, d := deps[..k], deps[k];
    assert deps[..k + 1] == roots + [d];
    ClosedKept(g, versioned, wm, w2);
    OpenAboveKept(g, versioned, wm, w2, m);
    DependencyFinished(g, w2, m, d);
    DependencyAdds(g, wm.copied, w1, w2, m, roots, d);
    NextRoot(g, wm.copied, w1.copied, w2.copied, roots, d);
  }

  lemma OpenAboveKept(g: Graph, versioned: bool, w0: Walk, w1: Walk, m: string)
    requires OpenAbove(g, w0, m) && Extends(w0, w1) && Settled(g, versioned, w0, w1)
    ensures OpenAbove(g, w1, m)
  {
    forall x | Open(w1, x) ensures Reaches(g, x, m) {
      assert Open(w0, x);
    }
  }

  /** Marking m keeps everything open above m. */
  lemma MarkIsOrderly(g: Graph, m: string, w: Walk)
    ensures OpenAbove(g, w, m) ==> OpenAbove(g, Walk(w.marked + [m], w.copied), m)
    ensures Closed(g, w) ==> Closed(g, Walk(w.marked + [m], w.copied))
  {
    ReachesSelf(g, m);
  }

  lemma ReachableSnoc(g: Graph, roots: seq<string>, d: string, x: string)
    ensures ReachableFrom(g, roots + [d], x) <==> ReachableFrom(g, roots, x) || Reaches(g, d, x)
  {
    if ReachableFrom(g, roots, x) {
      var r :| r in roots && Reaches(g, r, x);
      assert r in roots + [d];
    }
    if Reaches(g, d, x) {
      assert d in roots + [d];
    }
  }

  // ----- The shell functions -----

  class TargetBuild {
    const required: Graph
    const versioned: bool
    var processed: string
    var copied: seq<string>
    ghost var marked: seq<string>

    ghost predicate Valid()
      reads this
    {
      Sound(Now()) && processed == Encode(marked)
    }

    /** No name in play contains a '!'. */
    ghost predicate AllPlain()
      reads this
    {
      PlainGraph(required) && forall x :: x in marked ==> Plain(x)
    }

    /** Nothing on a way back to m, so that its dependencies can all be finished. */
    ghost predicate Orderly(m: string)
      reads this
    {
      AllPlain() && Acyclic(required) && Closed(required, Now()) && OpenAbove(required, Now(), m)
    }

    ghost function Now(): Walk
      reads this
    {
      Walk(marked, copied)
    }

    constructor (required: Graph, versioned: bool)
      ensures Valid() && copied == [] && marked == []
      ensures this.required == required && this.versioned == versioned
    {
      this.required := required;
      this.versioned := versioned;
      processed, copied, marked := "", [], [];
    }

    /** process_module; `ok` is false when perror ends the build. */
    method ProcessModule(m: string) returns (ok: bool)
      requires Valid()
      modifies this
      ensures Valid()
      ensures Extends(old(Now()), Now())
      ensures NewReachedFrom(required, m, old(Now()), Now())
      ensures old(AllPlain()) && Plain(m) ==> AllPlain()
      ensures ok && old(AllPlain()) && Plain(m) ==> m in marked && Settled(required, versioned, old(Now()), Now())
      ensures ok && old(Orderly(m)) && Plain(m) && m !in old(marked) ==> LastInOrder(required, old(copied), copied, m)
      ensures !ok ==> exists x :: Reaches(required, m, x) && !Buildable(required, versioned, x)
      decreases required.Keys - set x | x in marked
    {
      ReachesSelf(required, m);
      if m == "" {
        return false;
      }
      if AllPlain() && Plain(m) {
        VisitedTest(marked, m);
      }
      if Contains(processed, Mark(m)) {
        return true;
      }
      assert m !in marked by {
        if m in marked {
          AddedIsFound(marked, m);
        }
      }
      ghost var w0 := Now();
      processed := processed + Mark(m);
      marked := marked + [m];
      assert marked[..|marked| - 1] == w0.marked;
      MarkIsOrderly(required, m, w0);
      ok := BuildMarked(m, w0);
    }

    /** The rest of process_module, after marking. */
    method BuildMarked(m: string, ghost w0: Walk) returns (ok: bool)
      requires Valid() && m != "" && m !in w0.marked && Sound(w0)
      requires Now() == Walk(w0.marked + [m], w0.copied)
      modifies this
      ensures Valid()
      ensures Extends(w0, Now())
      ensures NewReachedFrom(required, m, w0, Now())
      ensures old(AllPlain()) ==> AllPlain()
      ensures ok && old(AllPlain()) ==> m in marked && Settled(required, versioned, w0, Now())
      ensures ok && old(Orderly(m)) ==> LastInOrder(required, old(copied), copied, m)
      ensures !ok ==> exists x :: Reaches(required, m, x) && !Buildable(required, versioned, x)
      decreases required.Keys - (set x | x in w0.marked), 2
    {
      ReachesSelf(required, m);
      ExtendsMark(m, w0);
      if m[|m| - 1] == '@' && !versioned {
        return false;
      }
      if m !in required {
        return false;
      }
      ghost var wm := Now();
      ok := ProcessRequired(m, w0);
      ExtendsTrans(w0, wm, Now());
      if ok {
        if old(AllPlain()) {
          SettledFinish(required, versioned, m, w0, Now());
        }
        CopyKeepsSound(m, w0, Now());
        ghost var deps := copied;
        copied := copied + [m];
        assert copied[..|copied| - 1] == deps;
      }
    }

    /** The loop of process_module over the module's REQUIRED_MODULES. On a graph
        without cycles, dependency after dependency, in the order listed. */
    method ProcessRequired(m: string, ghost w0: Walk) returns (ok: bool)
      requires Valid() && m in required && m !in w0.marked && Sound(w0)
      requires Now() == Walk(w0.marked + [m], w0.copied)
      modifies this
      ensures Valid()
      ensures Extends(old(Now()), Now())
      ensures NewReachedFrom(required, m, w0, Now())
      ensures old(AllPlain()) ==> AllPlain()
      ensures ok && old(AllPlain()) ==>
                Settled(required, versioned, old(Now()), Now()) && forall d :: Edge(required, m, d) ==> d in marked
      ensures ok && old(Orderly(m)) ==> InOrder(required, old(copied), copied, required[m])
      ensures !ok ==> exists x :: Reaches(required, m, x) && !Buildable(required, versioned, x)
      decreases required.Keys - (set x | x in w0.marked), 1
    {
      ghost var wm := Now();
      ReachesSelf(required, m);
      var deps := required[m];
      NoRoots(required, copied);
      for k := 0 to |deps|
        invariant Valid() && Extends(wm, Now()) && NewReachedFrom(required, m, w0, Now())
        invariant old(AllPlain()) ==> AllPlain() && DepsDone(required, versioned, wm, Now(), deps, k)
        invariant old(Orderly(m)) ==> DepsInOrder(required, wm, Now(), deps, k)
      {
        assert Edge(required, m, deps[k]);
        ghost var w1 := Now();
        ok := ProcessDependency(m, deps[k], w0, wm);
        if !ok {
          return false;
        }
        if old(AllPlain()) {
          NextDepDone(required, versioned, wm, w1, Now(), deps, k);
        }
        if old(Orderly(m)) {
          NextDependency(required, versioned, wm, w1, Now(), m, deps, k);
        }
      }
      assert deps[..|deps|] == deps;
      return true;
    }

    /** One round of that loop. */
    method ProcessDependency(m: string, d: string, ghost w0: Walk, ghost wm: Walk) returns (ok: bool)
      requires Valid() && Edge(required, m, d) && m !in w0.marked && w0.marked + [m] <= marked
      requires Extends(wm, Now()) && NewReachedFrom(required, m, w0, Now())
      modifies this
      ensures Valid()
      ensures Extends(old(Now()), Now()) && Extends(wm, Now()) && NewReachedFrom(required, m, w0, Now())
      ensures old(AllPlain()) ==> AllPlain()
      ensures NewReachedFrom(required, d, old(Now()), Now())
      ensures ok && old(AllPlain()) ==> d in marked
      ensures ok && old(AllPlain()) && Settled(required, versioned, wm, old(Now())) ==> Settled(required, versioned, wm, Now())
      ensures !ok ==> exists x :: Reaches(required, m, x) && !Buildable(required, versioned, x)
      decreases required.Keys - (set x | x in w0.marked), 0
    {
      ghost var w1 := Now();
      FewerLeft(required, m, w0.marked, marked);
      ok := ProcessModule(d);
      ReachesThrough(required, m, d);
      ExtendsTrans(wm, w1, Now());
      if ok && old(AllPlain()) && Settled(required, versioned, wm, w1) {
        SettledTrans(required, versioned, wm, w1, Now());
      }
    }

    /** generate_target_real: check that the requested modules exist, then
        process each of them in turn. For any names nothing is copied twice, nothing
        unreachable is copied, and an error has its reason; for names without '!'
        success, order among the requested modules and order of dependencies are exact. */
    method GenerateTarget(modules: seq<string>) returns (ok: bool)
      requires Valid() && marked == [] && copied == []
      modifies this
      ensures Distinct(copied) && forall x :: x in copied ==> ReachableFrom(required, modules, x)
      ensures (exists m :: m in modules && m !in required) ==> !ok && copied == []
      ensures !ok ==> exists x :: ReachableFrom(required, modules, x) && !Buildable(required, versioned, x)
      ensures PlainNames(required, modules) ==>
                (ok <==> forall x :: ReachableFrom(required, modules, x) ==>
                                     x != "" && x in required && (x[|x| - 1] == '@' ==> versioned))
      ensures ok && PlainNames(required, modules) ==> Complete(required, modules, copied)
      ensures ok && PlainNames(required, modules) ==> InOrder(required, [], copied, modules)
      ensures ok && PlainNames(required, modules) && Acyclic(required) ==>
                forall k :: 0 <= k < |modules| ==> RootInOrder(required, copied, modules, k)
      ensures ok && PlainNames(required, modules) && Acyclic(required) ==>
              forall i, d :: 0 <= i < |copied| && Edge(required, copied[i], d) ==> d in copied[..i]
    {
      for k := 0 to |modules|
        invariant marked == [] && copied == [] && Valid()
        invariant forall j :: 0 <= j < k ==> modules[j] in required
      {
        if modules[k] !in required {
          ReachesSelf(required, modules[k]);
          assert ReachableFrom(required, modules, modules[k]);
          return false;
        }
      }
      ok := ProcessAll(modules);
      if ok && PlainNames(required, modules) {
        WalkIsComplete(required, versioned, modules, Now());
        assert forall x :: ReachableFrom(required, modules, x) ==> Buildable(required, versioned, x);
      }
    }

    /** The loop over the requested modules. */
    method ProcessAll(modules: seq<string>) returns (ok: bool)
      requires Valid() && marked == [] && copied == []
      modifies this
      ensures Valid() && forall x :: x in marked ==> ReachableFrom(required, modules, x)
      ensures !ok ==> exists x :: ReachableFrom(required, modules, x) && !Buildable(required, versioned, x)
      ensures ok && PlainNames(required, modules) ==>
                && Settled(required, versioned, Walk([], []), Now())
                && (forall m :: m in modules ==> m in marked)
                && InOrder(required, [], copied, modules)
                && (Acyclic(required) ==> forall k :: 0 <= k < |modules| ==> RootInOrder(required, copied, modules, k))
    {
      NoRoots(required, []);
      for k := 0 to |modules|
        invariant Valid() && forall x :: x in marked ==> ReachableFrom(required, modules[..k], x)
        invariant PlainNames(required, modules) ==> AllPlain() && DoneUpTo(required, versioned, Now(), modules, k)
      {
        ghost var w1 := Now();
        assert modules[k] in modules;
        BetweenRoots(required, versioned, w1, modules[k]);
        ok := ProcessModule(modules[k]);
        RootsGrow(required, modules, k, w1, Now());
        if !ok {
          return false;
        }
        if PlainNames(required, modules) {
          DoneNext(required, versioned, w1, Now(), modules, k);
        }
      }
      assert modules[..|modules|] == modules;
      return true;
    }
  }

  /** The first k requested modules are done, in order. */
  ghost predicate DoneUpTo(g: Graph, versioned: bool, w: Walk, modules: seq<string>, k: nat)
    requires k <= |modules|
  {
    && Settled(g, versioned, Walk([], []), w)
    && (forall j :: 0 <= j < k ==> modules[j] in w.marked)
    && InOrder(g, [], w.copied, modules[..k]) && Exactly(g, [], w.copied, modules[..k])
    && (Acyclic(g) ==> forall j :: 0 <= j < k ==> RootInOrder(g, w.copied, modules, j))
  }

  lemma DoneNext(g: Graph, versioned: bool, w1: Walk, w2: Walk, modules: seq<string>, k: nat)
    requires k < |modules| && DoneUpTo(g, versioned, w1, modules, k)
    requires Sound(w1) && Sound(w2) && Extends(w1, w2) && Settled(g, versioned, w1, w2) && modules[k] in w2.marked
    requires forall x :: x in w2.marked ==> ReachableFrom(g, modules[..k + 1], x)
    requires Acyclic(g) && modules[k] !in w1.marked ==> LastInOrder(g, w1.copied, w2.copied, modules[k])
    ensures DoneUpTo(g, versioned, w2, modules, k + 1)
  {
    assert modules[..k + 1] == modules[..k] + [modules[k]];
    SettledTrans(g, versioned, Walk([], []), w1, w2);
    MarkedSoFar(w1, w2, modules, k);
    CompleteSoFar(g, versioned, w2, modules[..k + 1]);
    NextRoot(g, [], w1.copied, w2.copied, modules[..k], modules[k]);
    if Acyclic(g) {
      BetweenRoots(g, versioned, w1, modules[k]);
      NextRootInOrder(g, w1, w2, modules, k);
    }
  }

  lemma MarkedSoFar(w1: Walk, w2: Walk, modules: seq<string>, k: nat)
    requires k < |modules| && Extends(w1, w2) && modules[k] in w2.marked
    requires forall j :: 0 <= j < k ==> modules[j] in w1.marked
    ensures forall j :: 0 <= j < k + 1 ==> modules[j] in w2.marked
    ensures forall r :: r in modules[..k + 1] ==> r in w2.marked
  {
    forall j | 0 <= j < k + 1 ensures modules[j] in w2.marked {
      assert j < k ==> modules[j] in w1.marked;
    }
  }

  lemma CompleteSoFar(g: Graph, versioned: bool, w: Walk, roots: seq<string>)
    requires Sound(w) && Settled(g, versioned, Walk([], []), w)
    requires forall r :: r in roots ==> r in w.marked
    requires forall x :: x in w.marked ==> ReachableFrom(g, roots, x)
    ensures Exactly(g, [], w.copied, roots)
  {
    WalkIsComplete(g, versioned, roots, w);
  }

  /** Between requested modules nothing is open. */
  lemma BetweenRoots(g: Graph, versioned: bool, w: Walk, m: string)
    ensures Settled(g, versioned, Walk([], []), w) ==>
              Closed(g, w) && OpenAbove(g, w, m) && forall x :: x in w.marked ==> x in w.copied
  {
    if Settled(g, versioned, Walk([], []), w) {
      ClosedFromStart(g, versioned, w);
    }
  }

  lemma ClosedFromStart(g: Graph, versioned: bool, w: Walk)
    requires Settled(g, versioned, Walk([], []), w)
    ensures Closed(g, w)
  {
    forall x, d | x in w.copied && Edge(g, x, d) ensures d in w.marked {
      var i :| 0 <= i < |w.copied| && w.copied[i] == x;
      assert DepSettled(g, Walk([], []), w, i, d);
    }
  }

  /** The order of the requested modules so far, with one more of them. */
  lemma NextRootInOrder(g: Graph, w1: Walk, w2: Walk, modules: seq<string>, k: nat)
    requires k < |modules| && w1.copied <= w2.copied && Exactly(g, [], w1.copied, modules[..k])
    requires forall x :: x in w1.marked ==> x in w1.copied
    requires modules[k] !in w1.marked ==> LastInOrder(g, w1.copied, w2.copied, modules[k])
    requires forall j :: 0 <= j < k ==> RootInOrder(g, w1.copied, modules, j)
    ensures forall j :: 0 <= j < k + 1 ==> RootInOrder(g, w2.copied, modules, j)
  {
    forall j | 0 <= j < k + 1 ensures RootInOrder(g, w2.copied, modules, j) {
      if j < k {
        RootStaysInOrder(g, w1.copied, w2.copied, modules, j);
      } else if modules[k] !in w1.marked {
        RootComesInOrder(g, w1.copied, w2.copied, modules, k);
      }
    }
  }

  lemma RootsGrow(g: Graph, modules: seq<string>, k: nat, w1: Walk, w2: Walk)
    requires k < |modules| && NewReachedFrom(g, modules[k], w1, w2)
    requires forall x :: x in w1.marked ==> ReachableFrom(g, modules[..k], x)
    ensures forall x :: x in w2.marked ==> ReachableFrom(g, modules[..k + 1], x) && ReachableFrom(g, modules, x)
    ensures forall x :: Reaches(g, modules[k], x) ==> ReachableFrom(g, modules, x)
  {
    assert modules[..k + 1] == modules[..k] + [modules[k]];
    forall x ensures ReachableFrom(g, modules[..k + 1], x) <==> ReachableFrom(g, modules[..k], x) || Reaches(g, modules[k], x) {
      ReachableSnoc(g, modules[..k], modules[k], x);
    }
    forall x | ReachableFrom(g, modules[..k + 1], x) ensures ReachableFrom(g, modules, x) {
      var r :| r in modules[..k + 1] && Reaches(g, r, x);
      assert r in modules;
    }
    assert modules[k] in modules;
  }
}
