/** The CPU topology option and the CPU transformation of the QEMU plugin:
    CommandLineArgs.getCpuTopology and TransformationGenericCpu.transform. */
module CpuTopology {
  import opened Bits

  type Topology = seq<seq<nat>>

  // ----- Java's String.split on one character -----

  function Pieces(s: string, sep: char): (r: seq<string>)
    ensures r != []
  {
    if s == "" then [""]
    else
      var rest := Pieces(s[1..], sep);
      if s[0] == sep then [""] + rest else [[s[0]] + rest[0]] + rest[1..]
  }

  function DropTrailing(pieces: seq<string>): seq<string> {
    if pieces == [] || pieces[|pieces| - 1] != "" then pieces else DropTrailing(pieces[..|pieces| - 1])
  }

  /** Trailing empty strings are dropped; a text without the separator is returned whole. */
  function Split(s: string, sep: char): seq<string> {
    if sep in s then DropTrailing(Pieces(s, sep)) else [s]
  }

  function Join(parts: seq<string>, sep: char): string {
    if parts == [] then ""
    else if |parts| == 1 then parts[0]
    else parts[0] + [sep] + Join(parts[1..], sep)
  }

  lemma {:induction false} PiecesOfPlain(s: string, sep: char)
    requires sep !in s
    ensures Pieces(s, sep) == [s]
    decreases |s|
  {
    if s != "" {
      PiecesOfPlain(s[1..], sep);
      assert [s[0]] + s[1..] == s;
    }
  }

  lemma {:induction false} PiecesOfConcat(s: string, rest: string, sep: char)
    requires sep !in s
    ensures Pieces(s + [sep] + rest, sep) == [s] + Pieces(rest, sep)
    decreases |s|
  {
    var all := s + [sep] + rest;
    if s == "" {
      assert all[1..] == rest;
    } else {
      assert all[1..] == s[1..] + [sep] + rest;
      PiecesOfConcat(s[1..], rest, sep);
      assert [s[0]] + s[1..] == s;
    }
  }

  lemma {:induction false} PiecesOfJoin(parts: seq<string>, sep: char)
    requires parts != [] && forall i :: 0 <= i < |parts| ==> sep !in parts[i]
    ensures Pieces(Join(parts, sep), sep) == parts
    decreases |parts|
  {
    if |parts| == 1 {
      PiecesOfPlain(parts[0], sep);
    } else {
      PiecesOfConcat(parts[0], Join(parts[1..], sep), sep);
      PiecesOfJoin(parts[1..], sep);
    }
  }

  /** Splitting undoes joining for parts without the separator, the last one not empty. */
  lemma SplitOfJoin(parts: seq<string>, sep: char)
    requires parts != [] && parts[|parts| - 1] != "" && forall i :: 0 <= i < |parts| ==> sep !in parts[i]
    ensures Split(Join(parts, sep), sep) == parts
  {
    var s := Join(parts, sep);
    PiecesOfJoin(parts, sep);
    if sep !in s {
      PiecesOfPlain(s, sep);
    }
  }

  // ----- Numbers -----

  const INT_MAX: int := 0x7FFF_FFFF

  predicate IsDigit(c: char) {
    '0' <= c <= '9'
  }

  function DigitsValue(s: string): nat
    requires forall i :: 0 <= i < |s| ==> IsDigit(s[i])
  {
    if s == "" then 0
    else
      assert IsDigit(s[|s| - 1]);
      DigitsValue(s[..|s| - 1]) * 10 + (s[|s| - 1] as int - '0' as int)
  }

  /** Util.parseInt with default -1; the text holds no '-', which split consumed. */
  function ParseInt(s: string): (r: int)
    ensures r >= -1
  {
    var digits := if s != "" && s[0] == '+' then s[1..] else s;
    if digits == "" || exists i :: 0 <= i < |digits| && !IsDigit(digits[i]) then -1
    else if DigitsValue(digits) > INT_MAX then -1
    else DigitsValue(digits)
  }

  function Print(n: nat): (s: string)
    ensures s != "" && forall i :: 0 <= i < |s| ==> IsDigit(s[i])
  {
    (if n < 10 then "" else Print(n / 10)) + [('0' as int + n % 10) as char]
  }

  lemma {:induction false} PrintValue(n: nat)
    ensures DigitsValue(Print(n)) == n
  {
    var s := Print(n);
    if n >= 10 {
      PrintValue(n / 10);
      assert s[..|s| - 1] == Print(n / 10);
    } else {
      assert s[..|s| - 1] == "";
    }
  }

  lemma PrintParses(n: nat)
    requires n <= INT_MAX
    ensures ParseInt(Print(n)) == n
  {
    PrintValue(n);
    assert Print(n)[0] != '+';
  }

  // ----- getCpuTopology -----

  function Range(from: nat, to: nat): (r: seq<nat>)
    requires from <= to + 1
    ensures |r| == to + 1 - from
  {
    seq(to + 1 - from, i requires 0 <= i => from + i)
  }

  /** The loop `for (int i = from; i <= to; ++i)` on 32-bit integers: i after n rounds. */
  function LoopVariable(from: nat, n: nat): int
    requires from <= INT_MAX
    decreases n
  {
    if n == 0 then from
    else
      var i := LoopVariable(from, n - 1);
      if i == INT_MAX then -INT_MAX - 1 else i + 1
  }

  lemma {:induction false} LoopVariableCounts(from: nat, n: nat)
    requires from + n <= INT_MAX
    ensures LoopVariable(from, n) == from + n
  {
    if n > 0 {
      LoopVariableCounts(from, n - 1);
    }
  }

  lemma {:induction false} LoopVariableBound(from: nat, n: nat)
    requires from <= INT_MAX
    ensures LoopVariable(from, n) <= INT_MAX
  {
    if n > 0 {
      LoopVariableBound(from, n - 1);
    }
  }

  /** The loop over a range ends exactly when the range ends below the largest int. */
  lemma RangeLoopEnds(from: nat, to: nat)
    requires from <= to <= INT_MAX
    ensures (exists n: nat :: LoopVariable(from, n) > to) <==> to < INT_MAX
  {
    if to < INT_MAX {
      LoopVariableCounts(from, to + 1 - from);
      assert LoopVariable(from, to + 1 - from) > to;
    } else {
      forall n: nat ensures LoopVariable(from, n) <= to {
        LoopVariableBound(from, n);
      }
    }
  }

  /** What reading an argument comes to: a value, null, or a loop that never ends. */
  datatype Outcome<T> = Parsed(value: T) | Malformed | Endless

  /** One element of a group: a number or a range. */
  function ParseThreads(text: string): Outcome<seq<nat>> {
    var fromTo := Split(text, '-');
    if |fromTo| == 0 || |fromTo| > 2 || fromTo[0] == "" || (|fromTo| > 1 && fromTo[1] == "") then Malformed
    else
      var from := ParseInt(fromTo[0]);
      var to := if |fromTo| == 2 then ParseInt(fromTo[1]) else from;
      if from == -1 || to == -1 || to < from then Malformed
      else if to == INT_MAX then Endless
      else Parsed(Range(from, to))
  }

  /** Whatever is read from one element is a non-empty run of consecutive numbers. */
  lemma ParsedRange(text: string)
    requires ParseThreads(text).Parsed?
    ensures var v := ParseThreads(text).value;
            v != [] && v[|v| - 1] < INT_MAX && forall i :: 0 <= i < |v| ==> v[i] == v[0] + i
  {
  }

  /** A range written the wrong way round is refused, and so is an empty group or element. */
  lemma RefusedElements(from: nat, to: nat)
    requires to < from <= INT_MAX
    ensures ParseThreads(Print(from) + "-" + Print(to)) == Malformed
    ensures ParseThreads("") == Malformed && ParseScore("") == Malformed && ParseTopology("") == Malformed
  {
    PrintParses(from);
    PrintParses(to);
    DigitsOnly(Print(from));
    DigitsOnly(Print(to));
    SplitRange(Print(from), Print(to));
  }

  /** One bad group spoils the argument. */
  lemma {:induction false} BadGroupSpoils(scores: seq<string>, k: nat)
    requires k < |scores| && !ParseScore(scores[k]).Parsed?
    ensures !ParseGroups(scores).Parsed?
    decreases |scores|
  {
    if k < |scores| - 1 {
      BadGroupSpoils(scores[..|scores| - 1], k);
    }
  }

  /** The elements of a group; the first one that gives no numbers decides. */
  function ParseGroup(texts: seq<string>): Outcome<seq<nat>> {
    if texts == [] then Parsed([])
    else
      match ParseGroup(texts[..|texts| - 1])
      case Parsed(list) =>
        (match ParseThreads(texts[|texts| - 1])
         case Parsed(numbers) => Parsed(list + numbers)
         case other => other)
      case other => other
  }

  function ParseGroups(scores: seq<string>): Outcome<Topology> {
    if scores == [] then Parsed([])
    else
      match ParseGroups(scores[..|scores| - 1])
      case Parsed(list) => AddGroup(list, ParseScore(scores[|scores| - 1]))
      case other => other
  }

  function AddGroup(list: Topology, group: Outcome<seq<nat>>): Outcome<Topology> {
    match group
    case Parsed(numbers) => Parsed(list + [numbers])
    case Malformed => Malformed
    case Endless => Endless
  }

  /** The text of one group. */
  function ParseScore(score: string): Outcome<seq<nat>> {
    if score == "" then Malformed else ParseGroup(Split(score, ','))
  }

  function ParseTopology(arg: string): Outcome<Topology> {
    if arg == "" then Malformed else ParseGroups(Split(arg, ';'))
  }

  lemma {:induction false} GroupFailsEarly(texts: seq<string>, k: nat)
    requires k <= |texts| && !ParseGroup(texts[..k]).Parsed?
    ensures ParseGroup(texts) == ParseGroup(texts[..k])
    decreases |texts|
  {
    if k < |texts| {
      assert texts[..|texts| - 1][..k] == texts[..k];
      GroupFailsEarly(texts[..|texts| - 1], k);
    } else {
      assert texts[..k] == texts;
    }
  }

  lemma {:induction false} GroupsFailEarly(scores: seq<string>, k: nat)
    requires k <= |scores| && !ParseGroups(scores[..k]).Parsed?
    ensures ParseGroups(scores) == ParseGroups(scores[..k])
    decreases |scores|
  {
    if k < |scores| {
      assert scores[..|scores| - 1][..k] == scores[..k];
      GroupsFailEarly(scores[..|scores| - 1], k);
    } else {
      assert scores[..k] == scores;
    }
  }

  /** One element of a group: the numbers it stands for. Where the Java loop does not
      end, see RangeLoopEnds, that is the outcome. */
  method GetThreads(text: string) returns (r: Outcome<seq<nat>>)
    ensures r == ParseThreads(text)
  {
    var fromTo := Split(text, '-');
    if |fromTo| == 0 || |fromTo| > 2 || fromTo[0] == "" || (|fromTo| > 1 && fromTo[1] == "") {
      return Malformed;
    }
    var from := ParseInt(fromTo[0]);
    var to := if |fromTo| == 2 then ParseInt(fromTo[1]) else from;
    if from == -1 || to == -1 || to < from {
      return Malformed;
    }
    if to == INT_MAX {
      return Endless;
    }
    var list := Numbers(from, to);
    return Parsed(list);
  }

  method Numbers(from: nat, to: nat) returns (list: seq<nat>)
    requires from <= to < INT_MAX
    ensures list == Range(from, to)
  {
    list := [];
    var i := from;
    while i <= to
      invariant from <= i <= to + 1
      invariant i == LoopVariable(from, |list|) == from + |list|
      invariant forall j :: 0 <= j < |list| ==> list[j] == from + j
    {
      list := list + [i];
      i := i + 1;
    }
  }

  lemma GroupStep(texts: seq<string>, k: nat, list: seq<nat>)
    requires k < |texts| && ParseGroup(texts[..k]) == Parsed(list)
    ensures ParseGroup(texts[..k + 1]) == match ParseThreads(texts[k]) case Parsed(numbers) => Parsed(list + numbers) case other => other
  {
    assert texts[..k + 1][..k] == texts[..k];
  }

  lemma GroupsStep(scores: seq<string>, k: nat, list: Topology)
    requires k < |scores| && ParseGroups(scores[..k]) == Parsed(list)
    ensures ParseGroups(scores[..k + 1]) == AddGroup(list, ParseScore(scores[k]))
  {
    assert scores[..k + 1][..k] == scores[..k];
  }

  /** The loop over the elements of one group. */
  method GetGroup(score: string) returns (current: Outcome<seq<nat>>)
    ensures current == ParseGroup(Split(score, ','))
  {
    var coreThreads := Split(score, ',');
    var list: seq<nat> := [];
    for t := 0 to |coreThreads|
      invariant ParseGroup(coreThreads[..t]) == Parsed(list)
    {
      var numbers := GetThreads(coreThreads[t]);
      GroupStep(coreThreads, t, list);
      if !numbers.Parsed? {
        GroupFailsEarly(coreThreads, t + 1);
        return numbers;
      }
      list := list + numbers.value;
    }
    assert coreThreads[..|coreThreads|] == coreThreads;
    return Parsed(list);
  }

  method GetCpuTopology(arg: string) returns (retval: Outcome<Topology>)
    ensures retval == ParseTopology(arg)
  {
    if arg == "" {
      return Malformed;
    }
    retval := GetGroups(Split(arg, ';'));
  }

  /** The loop over the groups. */
  method GetGroups(scores: seq<string>) returns (retval: Outcome<Topology>)
    ensures retval == ParseGroups(scores)
  {
    var list: Topology := [];
    for c := 0 to |scores|
      invariant ParseGroups(scores[..c]) == Parsed(list)
    {
      GroupsStep(scores, c, list);
      var current := Malformed;
      if scores[c] != "" {
        current := GetGroup(scores[c]);
      }
      if !current.Parsed? {
        GroupsFailEarly(scores, c + 1);
        return AddGroup(list, current);
      }
      list := list + [current.value];
    }
    assert scores[..|scores|] == scores;
    return Parsed(list);
  }

  // ----- Printing a topology and reading it back -----

  /** A number or a range, as a user writes it. */
  datatype Threads = Threads(from: nat, to: nat)

  ghost predicate Sensible(t: Threads) {
    t.from <= t.to <= INT_MAX
  }

  /** Every element ends below the largest int. */
  ghost predicate Finite(g: seq<Threads>) {
    forall i :: 0 <= i < |g| ==> g[i].to < INT_MAX
  }

  ghost predicate AllFinite(gs: seq<seq<Threads>>) {
    forall i :: 0 <= i < |gs| ==> Finite(gs[i])
  }

  /** A non-empty group of sensible elements. */
  ghost predicate SensibleGroup(g: seq<Threads>) {
    g != [] && forall i :: 0 <= i < |g| ==> Sensible(g[i])
  }

  function PrintThreads(t: Threads): string {
    if t.from == t.to then Print(t.from) else Print(t.from) + "-" + Print(t.to)
  }

  function PrintEach(g: seq<Threads>): (r: seq<string>)
    ensures |r| == |g| && forall i :: 0 <= i < |g| ==> r[i] == PrintThreads(g[i])
  {
    seq(|g|, i requires 0 <= i < |g| => PrintThreads(g[i]))
  }

  function PrintGroup(g: seq<Threads>): string {
    Join(PrintEach(g), ',')
  }

  function PrintGroups(gs: seq<seq<Threads>>): (r: seq<string>)
    ensures |r| == |gs| && forall i :: 0 <= i < |gs| ==> r[i] == PrintGroup(gs[i])
  {
    seq(|gs|, i requires 0 <= i < |gs| => PrintGroup(gs[i]))
  }

  function PrintTopology(gs: seq<seq<Threads>>): string {
    Join(PrintGroups(gs), ';')
  }

  /** The numbers a group stands for. */
  function Expand(g: seq<Threads>): seq<nat> {
    if g == [] then []
    else
      var t := g[|g| - 1];
      Expand(g[..|g| - 1]) + if t.from <= t.to then Range(t.from, t.to) else []
  }

  function ExpandAll(gs: seq<seq<Threads>>): Topology {
    if gs == [] then [] else ExpandAll(gs[..|gs| - 1]) + [Expand(gs[|gs| - 1])]
  }

  ghost predicate Writable(s: string) {
    s != "" && forall i :: 0 <= i < |s| ==> IsDigit(s[i]) || s[i] == '-' || s[i] == ','
  }

  lemma SplitRange(a: string, b: string)
    requires a != "" && b != "" && '-' !in a && '-' !in b
    ensures Split(a, '-') == [a] && Split(a + "-" + b, '-') == [a, b]
  {
    SplitOfJoin([a, b], '-');
    assert [a, b][1..] == [b];
    assert Join([a, b], '-') == a + "-" + b;
  }

  lemma DigitsOnly(s: string)
    requires s != "" && forall i :: 0 <= i < |s| ==> IsDigit(s[i])
    ensures '-' !in s && ',' !in s && Writable(s)
  {
  }

  lemma PrintThreadsParses(t: Threads)
    requires Sensible(t)
    ensures ParseThreads(PrintThreads(t)) == if t.to < INT_MAX then Parsed(Range(t.from, t.to)) else Endless
  {
    var a, b := Print(t.from), Print(t.to);
    PrintParses(t.from);
    PrintParses(t.to);
    DigitsOnly(a);
    DigitsOnly(b);
    SplitRange(a, b);
  }

  lemma PrintThreadsText(t: Threads)
    ensures PrintThreads(t) != "" && ',' !in PrintThreads(t) && Writable(PrintThreads(t))
  {
    DigitsOnly(Print(t.from));
    DigitsOnly(Print(t.to));
  }

  lemma FiniteSnoc(g: seq<Threads>)
    requires g != []
    ensures Finite(g) <==> Finite(g[..|g| - 1]) && g[|g| - 1].to < INT_MAX
  {
    var front := g[..|g| - 1];
    assert forall i :: 0 <= i < |front| ==> front[i] == g[i];
  }

  lemma {:induction false} GroupParses(g: seq<Threads>, texts: seq<string>)
    requires |texts| == |g| && forall i :: 0 <= i < |g| ==> Sensible(g[i]) && texts[i] == PrintThreads(g[i])
    ensures ParseGroup(texts) == if Finite(g) then Parsed(Expand(g)) else Endless
    decreases |g|
  {
    if g != [] {
      var n := |g| - 1;
      GroupParses(g[..n], texts[..n]);
      FiniteSnoc(g);
      PrintThreadsParses(g[n]);
      assert texts[n] == PrintThreads(g[n]);
    }
  }

  lemma {:induction false} JoinWritable(parts: seq<string>)
    requires parts != [] && forall i :: 0 <= i < |parts| ==> Writable(parts[i])
    ensures Writable(Join(parts, ','))
    decreases |parts|
  {
    if |parts| > 1 {
      JoinWritable(parts[1..]);
    }
  }

  lemma PrintGroupParses(g: seq<Threads>)
    requires SensibleGroup(g)
    ensures ParseScore(PrintGroup(g)) == if Finite(g) then Parsed(Expand(g)) else Endless
    ensures PrintGroup(g) != "" && ';' !in PrintGroup(g)
  {
    var texts := PrintEach(g);
    forall i | 0 <= i < |g|
      ensures texts[i] != "" && ',' !in texts[i] && Writable(texts[i])
    {
      PrintThreadsText(g[i]);
    }
    SplitOfJoin(texts, ',');
    GroupParses(g, texts);
    JoinWritable(texts);
  }

  lemma AllFiniteSnoc(gs: seq<seq<Threads>>)
    requires gs != []
    ensures AllFinite(gs) <==> AllFinite(gs[..|gs| - 1]) && Finite(gs[|gs| - 1])
  {
    var front := gs[..|gs| - 1];
    assert forall i :: 0 <= i < |front| ==> front[i] == gs[i];
  }

  lemma {:induction false} GroupsParse(gs: seq<seq<Threads>>, texts: seq<string>)
    requires |texts| == |gs| && forall i :: 0 <= i < |gs| ==> SensibleGroup(gs[i]) && texts[i] == PrintGroup(gs[i])
    ensures ParseGroups(texts) == if AllFinite(gs) then Parsed(ExpandAll(gs)) else Endless
    decreases |gs|
  {
    if gs != [] {
      var n := |gs| - 1;
      GroupsParse(gs[..n], texts[..n]);
      AllFiniteSnoc(gs);
      PrintGroupParses(gs[n]);
      assert texts[n] == PrintGroup(gs[n]);
    }
  }

  /** Every topology of non-empty groups, written with ranges or single numbers, is read
      back exactly when no element ends at the largest int; else reading never ends. */
  lemma TopologyRoundTrip(gs: seq<seq<Threads>>)
    requires gs != [] && forall i :: 0 <= i < |gs| ==> SensibleGroup(gs[i])
    ensures ParseTopology(PrintTopology(gs)) == if AllFinite(gs) then Parsed(ExpandAll(gs)) else Endless
  {
    var texts := PrintGroups(gs);
    forall i | 0 <= i < |gs|
      ensures texts[i] != "" && ';' !in texts[i]
    {
      PrintGroupParses(gs[i]);
    }
    SplitOfJoin(texts, ';');
    GroupsParse(gs, texts);
    assert PrintTopology(gs) != "";
  }

  // ----- transform -----

  datatype Pin = Pin(guest: nat, host: nat)

  /** Not all groups have the same size. */
  ghost predicate Uneven(topo: Topology) {
    exists i :: 0 < i < |topo| && |topo[i]| != |topo[0]|
  }

  /** Host threads in the order they are pinned: all of them, or one per group. */
  function Hosts(topo: Topology, onlyOne: bool): seq<nat> {
    if topo == [] then []
    else
      Hosts(topo[..|topo| - 1], onlyOne) + Chosen(topo[|topo| - 1], onlyOne)
  }

  function Chosen(group: seq<nat>, onlyOne: bool): seq<nat> {
    if onlyOne && group != [] then [group[0]] else group
  }

  function Pins(hosts: seq<nat>): (r: seq<Pin>)
    ensures |r| == |hosts| && forall i :: 0 <= i < |hosts| ==> r[i] == Pin(i, hosts[i])
  {
    seq(|hosts|, i requires 0 <= i < |hosts| => Pin(i, hosts[i]))
  }

  class DomainConfig {
    var cores: int
    var threads: nat
    var vcpu: int
    var pins: seq<Pin>

    /** false when validateInputs or the access to a missing first group throws. */
    method Transform(topo: Option<Topology>, numCpus: int) returns (ok: bool)
      modifies this
      ensures ok <==> if topo.None? then numCpus >= 1 else topo.value != []
      ensures ok && topo.None? ==> cores == vcpu == numCpus && threads == 1 && pins == []
      ensures ok && topo.Some? ==>
                && cores == |topo.value|
                && threads == (if Uneven(topo.value) then 1 else |topo.value[0]|)
                && vcpu == cores * threads
                && pins == Pins(Hosts(topo.value, Uneven(topo.value)))
    {
      if numCpus < 1 && topo.None? {
        return false;
      }
      var onlyOneThread := false;
      if topo.None? {
        cores := numCpus;
      } else {
        onlyOneThread := FindUneven(topo.value);
        cores := |topo.value|;
      }
      if topo.None? || onlyOneThread {
        threads := 1;
      } else {
        if topo.value == [] {
          return false;
        }
        threads := |topo.value[0]|;
      }
      vcpu := cores * threads;
      pins := [];
      if topo.Some? {
        pins := AddPins(topo.value, onlyOneThread);
      }
      ok := true;
    }
  }

  /** A topology argument is read and applied; malformed ones count as missing. */
  method Configure(config: DomainConfig, arg: string, numCpus: int) returns (ok: bool)
    requires ParseTopology(arg) != Endless
    modifies config
    ensures ParseTopology(arg) == Malformed ==> (ok <==> numCpus >= 1)
    ensures ParseTopology(arg) == Malformed && ok ==>
              config.cores == numCpus && config.threads == 1 && config.vcpu == numCpus && config.pins == []
    ensures ParseTopology(arg).Parsed? ==>
              var topo := ParseTopology(arg).value;
              && (ok <==> topo != [])
              && (ok ==> config.pins == Pins(Hosts(topo, Uneven(topo))) && config.cores == |topo|
                         && config.vcpu == config.cores * config.threads
                         && config.threads == if Uneven(topo) then 1 else |topo[0]|)
  {
    var topo := GetCpuTopology(arg);
    ok := config.Transform(if topo.Parsed? then Some(topo.value) else None, numCpus);
  }

  method FindUneven(topo: Topology) returns (onlyOneThread: bool)
    ensures onlyOneThread == Uneven(topo)
  {
    onlyOneThread := false;
    var last := -1;
    for i := 0 to |topo|
      invariant last == if i == 0 then -1 else |topo[0]|
      invariant forall j :: 0 <= j < i ==> |topo[j]| == |topo[0]|
    {
      if last != -1 && last != |topo[i]| {
        onlyOneThread := true;
        return;
      }
      last := |topo[i]|;
    }
  }

  method AddPins(topo: Topology, onlyOneThread: bool) returns (pins: seq<Pin>)
    ensures pins == Pins(Hosts(topo, onlyOneThread))
  {
    pins := [];
    for i := 0 to |topo|
      invariant pins == Pins(Hosts(topo[..i], onlyOneThread))
    {
      assert topo[..i + 1][..i] == topo[..i];
      pins := PinGroup(pins, topo[i], onlyOneThread, Hosts(topo[..i], onlyOneThread));
    }
    assert topo[..|topo|] == topo;
  }

  /** The inner loop; the running guestCore is the number of pins so far. */
  method PinGroup(before: seq<Pin>, group: seq<nat>, onlyOneThread: bool, ghost hosts: seq<nat>) returns (pins: seq<Pin>)
    requires before == Pins(hosts)
    ensures pins == Pins(hosts + Chosen(group, onlyOneThread))
  {
    pins := before;
    var guestCore := |before|;
    for j := 0 to |group|
      invariant guestCore == |pins| && pins == Pins(hosts + group[..j])
      invariant onlyOneThread ==> j == 0
    {
      pins := pins + [Pin(guestCore, group[j])];
      guestCore := guestCore + 1;
      assert hosts + group[..j + 1] == (hosts + group[..j]) + [group[j]];
      if onlyOneThread {
        assert group[..1] == [group[0]];
        return;
      }
    }
    assert group[..|group|] == group;
  }

  // ----- What the pinning means -----

  /** With groups of one size T, guest g is pinned to member g % T of group g / T. */
  lemma {:induction false} EvenHosts(topo: Topology, T: nat)
    requires forall i :: 0 <= i < |topo| ==> |topo[i]| == T
    ensures |Hosts(topo, false)| == |topo| * T
    ensures T > 0 ==> forall g :: 0 <= g < |topo| * T ==> 0 <= g / T < |topo| && Hosts(topo, false)[g] == topo[g / T][g % T]
    decreases |topo|
  {
    if topo != [] {
      var n := |topo| - 1;
      var front, hosts := topo[..n], Hosts(topo, false);
      EvenHosts(front, T);
      assert |topo| * T == n * T + T;
      if T > 0 {
        forall g | 0 <= g < |topo| * T
          ensures 0 <= g / T < |topo| && hosts[g] == topo[g / T][g % T]
        {
          if g < n * T {
            assert hosts[g] == Hosts(front, false)[g];
          } else {
            DivInBlock(g, n, T);
          }
        }
      }
    }
  }

  lemma DivInBlock(g: nat, n: nat, T: nat)
    requires T > 0 && n * T <= g < n * T + T
    ensures g / T == n && g % T == g - n * T
  {
    DivUnique(g, T, n, g - n * T);
  }

  /** With unequal sizes each non-empty group gives exactly its first member. */
  function FirstMembers(topo: Topology): seq<nat> {
    if topo == [] then []
    else (if topo[0] == [] then [] else [topo[0][0]]) + FirstMembers(topo[1..])
  }

  lemma {:induction false} FirstMembersSnoc(topo: Topology, g: seq<nat>)
    ensures FirstMembers(topo + [g]) == FirstMembers(topo) + if g == [] then [] else [g[0]]
    decreases |topo|
  {
    if topo == [] {
      assert topo + [g] == [g] && [g][1..] == [];
    } else {
      assert (topo + [g])[1..] == topo[1..] + [g];
      FirstMembersSnoc(topo[1..], g);
    }
  }

  lemma {:induction false} UnevenHosts(topo: Topology)
    ensures Hosts(topo, true) == FirstMembers(topo)
    decreases |topo|
  {
    if topo != [] {
      var front, g := topo[..|topo| - 1], topo[|topo| - 1];
      UnevenHosts(front);
      FirstMembersSnoc(front, g);
      assert front + [g] == topo;
    }
  }

  lemma {:induction false} FirstMembersCount(topo: Topology)
    ensures |FirstMembers(topo)| <= |topo|
    ensures |FirstMembers(topo)| == |topo| <==> forall i :: 0 <= i < |topo| ==> topo[i] != []
    decreases |topo|
  {
    if topo != [] {
      FirstMembersCount(topo[1..]);
      assert forall i :: 0 <= i < |topo[1..]| ==> topo[1..][i] == topo[i + 1];
      assert (forall i :: 0 <= i < |topo| ==> topo[i] != []) <==>
             topo[0] != [] && forall i :: 0 <= i < |topo[1..]| ==> topo[1..][i] != [];
    }
  }

  /** There are as many pins as vCPUs exactly when the groups have one size or none is empty. */
  lemma PinsMatchVcpus(topo: Topology)
    requires topo != []
    ensures var threads := if Uneven(topo) then 1 else |topo[0]|;
            |Pins(Hosts(topo, Uneven(topo)))| == |topo| * threads <==>
            !Uneven(topo) || forall i :: 0 <= i < |topo| ==> topo[i] != []
  {
    if Uneven(topo) {
      UnevenHosts(topo);
      FirstMembersCount(topo);
    } else {
      EvenHosts(topo, |topo[0]|);
    }
  }

  // ----- Guests of one virtual core -----

  /** The host group that the g-th pinned thread comes from. */
  function Origin(topo: Topology, g: nat): nat
    decreases |topo|
  {
    if topo == [] || g < |topo[0]| then 0 else 1 + Origin(topo[1..], g - |topo[0]|)
  }

  lemma {:induction false} EvenOrigin(topo: Topology, T: nat, g: nat)
    requires T > 0 && (forall i :: 0 <= i < |topo| ==> |topo[i]| == T) && g < |topo| * T
    ensures Origin(topo, g) == g / T
    decreases |topo|
  {
    if g >= T {
      assert |topo| > 1 && |topo| * T == (|topo| - 1) * T + T;
      EvenOrigin(topo[1..], T, g - T);
      DivUnique(g, T, (g - T) / T + 1, (g - T) % T);
    } else {
      DivUnique(g, T, 0, g);
    }
  }

  /** With T threads per core, guests share a virtual core exactly when their host
      threads come from the same group. */
  lemma SharedCoreIsSharedGroup(topo: Topology, T: nat, g: nat, h: nat)
    requires T > 0 && (forall i :: 0 <= i < |topo| ==> |topo[i]| == T) && g < |topo| * T && h < |topo| * T
    ensures g / T == h / T <==> Origin(topo, g) == Origin(topo, h)
    ensures Origin(topo, g) < |topo| && g < |Hosts(topo, false)| && Hosts(topo, false)[g] in topo[Origin(topo, g)]
  {
    EvenOrigin(topo, T, g);
    EvenOrigin(topo, T, h);
    EvenHosts(topo, T);
  }

  lemma {:induction false} ExpandAllAt(gs: seq<seq<Threads>>, i: nat)
    ensures |ExpandAll(gs)| == |gs|
    ensures i < |gs| ==> ExpandAll(gs)[i] == Expand(gs[i])
    decreases |gs|
  {
    if gs != [] {
      ExpandAllAt(gs[..|gs| - 1], i);
    }
  }

  /** From the argument to the pins: with T numbers in every written group, guest g runs
      on number g % T of group g / T. */
  lemma WrittenTopologyPins(gs: seq<seq<Threads>>, T: nat, g: nat)
    requires gs != [] && AllFinite(gs) && T > 0 && g < |gs| * T
    requires forall i :: 0 <= i < |gs| ==> SensibleGroup(gs[i]) && |Expand(gs[i])| == T
    ensures ParseTopology(PrintTopology(gs)).Parsed?
    ensures var topo := ParseTopology(PrintTopology(gs)).value; var pins := Pins(Hosts(topo, Uneven(topo)));
            && |pins| == |gs| * T && 0 <= g / T < |gs|
            && pins[g] == Pin(g, Expand(gs[g / T])[g % T])
  {
    TopologyRoundTrip(gs);
    var topo := ExpandAll(gs);
    forall i | 0 <= i < |gs| ensures |topo| == |gs| && topo[i] == Expand(gs[i]) {
      ExpandAllAt(gs, i);
    }
    assert |topo| == |gs|;
    EvenHosts(topo, T);
    assert !Uneven(topo);
  }
}
