/** The rate limiter of core/modules/kmsgwatch/src/kmsgwatch.go: a ring of the
    last 100 accepted messages, set against the unbounded log of all of them. */
module RateLimiter {

  /** Times are nanoseconds since the zero time.Time. */
  const WINDOW: int := 900_000_000_000
  const SLOTS: nat := 100

  datatype Entry = Entry(msg: string, at: int)

  /** An unwritten slot. */
  const UNUSED := Entry("", 0)

  // ----- What the ring holds -----

  /** The i-th slot the duplicate loop looks at: the oldest one, then the newest four. */
  function Probe(log: seq<Entry>, i: nat): Entry {
    if i == 0 then
      if |log| >= SLOTS then log[|log| - SLOTS] else UNUSED
    else
      if |log| >= i then log[|log| - i] else UNUSED
  }

  function Dups(log: seq<Entry>, msg: string, now: int, k: nat): nat {
    if k == 0 then 0
    else
      var e := Probe(log, k - 1);
      Dups(log, msg, now, k - 1) + if e.at >= now - WINDOW && e.msg == msg then 1 else 0
  }

  predicate Decides(log: seq<Entry>, msg: string, now: int) {
    Probe(log, 0).at <= now - WINDOW && Dups(log, msg, now, 5) < 2
  }

  /** The ring holds the newest 100 entries of the log, each in slot index % 100. */
  ghost predicate Holds(ring: seq<Entry>, log: seq<Entry>) {
    && |ring| == SLOTS
    && (forall j :: 0 <= j < |log| && |log| - SLOTS <= j ==> ring[j % SLOTS] == log[j])
    && (forall i :: |log| <= i < SLOTS ==> ring[i] == UNUSED)
  }

  lemma SlotIsProbe(ring: seq<Entry>, log: seq<Entry>, i: nat)
    requires Holds(ring, log) && i < 5
    ensures ring[(|log| + SLOTS - i) % SLOTS] == Probe(log, i)
  {
    if i == 0 {
      assert (|log| + SLOTS) % SLOTS == |log| % SLOTS;
      if |log| >= SLOTS {
        assert (|log| - SLOTS) % SLOTS == |log| % SLOTS;
      }
    } else if |log| >= i {
      assert (|log| + SLOTS - i) % SLOTS == (|log| - i) % SLOTS;
    }
  }

  lemma RecordKeepsRing(ring: seq<Entry>, log: seq<Entry>, e: Entry)
    requires Holds(ring, log)
    ensures Holds(ring[|log| % SLOTS := e], log + [e])
  {
    forall j | 0 <= j < |log| && |log| - SLOTS < j
      ensures j % SLOTS != |log| % SLOTS
    {
    }
  }

  class Limiter {
    var history: array<Entry>
    var count: nat
    ghost var log: seq<Entry>

    ghost predicate Valid()
      reads this, history
    {
      count == |log| && Holds(history[..], log)
    }

    constructor ()
      ensures Valid() && log == [] && fresh(history)
    {
      history := new Entry[SLOTS](_ => UNUSED);
      count, log := 0, [];
    }

    /** allow, with the clock reading as a parameter. */
    method Allow(msg: string, now: int) returns (ok: bool)
      requires Valid() && now > WINDOW
      modifies this, history
      ensures Valid() && history == old(history)
      ensures ok == Decides(old(log), msg, now)
      ensures log == if ok then old(log) + [Entry(msg, now)] else old(log)
    {
      var window := now - WINDOW;
      SlotIsProbe(history[..], log, 0);
      assert (count + SLOTS) % SLOTS == count % SLOTS;
      if history[count % SLOTS].at > window {
        return false;
      }
      var last5 := 0;
      var off := count + SLOTS;
      for i := 0 to 5
        modifies {}
        invariant last5 == Dups(log, msg, now, i)
      {
        SlotIsProbe(history[..], log, i);
        var e := history[(off - i) % SLOTS];
        if e.at >= window && e.msg == msg {
          last5 := last5 + 1;
        }
      }
      if last5 >= 2 {
        return false;
      }
      RecordKeepsRing(history[..], log, Entry(msg, now));
      history[count % SLOTS] := Entry(msg, now);
      count, log := count + 1, log + [Entry(msg, now)];
      ok := true;
    }
  }

  // ----- The unbounded reference -----

  function Recent(log: seq<Entry>, now: int): nat {
    if log == [] then 0
    else Recent(log[..|log| - 1], now) + if log[|log| - 1].at > now - WINDOW then 1 else 0
  }

  function SameText(log: seq<Entry>, msg: string, now: int): nat {
    if log == [] then 0
    else SameText(log[..|log| - 1], msg, now)
         + if log[|log| - 1].at >= now - WINDOW && log[|log| - 1].msg == msg then 1 else 0
  }

  function Newest(log: seq<Entry>, k: nat): seq<Entry> {
    if |log| <= k then log else log[|log| - k..]
  }

  /** The code's two rules, read off the whole log: fewer than 100 messages in the
      last 900 s, and fewer than two equal ones of that age among the last four. */
  predicate LogAllows(log: seq<Entry>, msg: string, now: int) {
    Recent(log, now) < SLOTS && SameText(Newest(log, 4), msg, now) < 2
  }

  ghost predicate Ordered(log: seq<Entry>, now: int) {
    && (forall i, j :: 0 <= i < j < |log| ==> log[i].at <= log[j].at)
    && (forall i :: 0 <= i < |log| ==> WINDOW < log[i].at <= now)
  }

  lemma {:induction false} RecentIsSuffix(log: seq<Entry>, now: int, k: nat)
    requires Ordered(log, now) && 0 < k
    ensures Recent(log, now) >= k <==> |log| >= k && log[|log| - k].at > now - WINDOW
    decreases |log|
  {
    if log == [] {
    } else {
      var front := log[..|log| - 1];
      assert Ordered(front, now);
      if k == 1 {
        if log[|log| - 1].at <= now - WINDOW && front != [] {
          RecentIsSuffix(front, now, 1);
        }
      } else {
        RecentIsSuffix(front, now, k - 1);
        if log[|log| - 1].at <= now - WINDOW {
          RecentIsSuffix(front, now, k);
        }
      }
    }
  }

  lemma NewestText(log: seq<Entry>, msg: string, now: int, k: nat)
    requires now > WINDOW && k <= 4
    ensures SameText(Newest(log, k), msg, now) + (if Corner(log, msg, now) then 1 else 0) == Dups(log, msg, now, k + 1)
  {
    if k == 0 {
      assert Dups(log, msg, now, 1) == Dups(log, msg, now, 0) + if Corner(log, msg, now) then 1 else 0;
    } else {
      NewestText(log, msg, now, k - 1);
      if |log| >= k {
        NewestHead(log, msg, now, k);
      } else {
        assert Newest(log, k) == Newest(log, k - 1);
      }
    }
  }

  lemma NewestHead(log: seq<Entry>, msg: string, now: int, k: nat)
    requires 0 < k <= |log|
    ensures SameText(Newest(log, k), msg, now) ==
            SameText(Newest(log, k - 1), msg, now) + SameText([log[|log| - k]], msg, now)
  {
    assert Newest(log, k) == [log[|log| - k]] + Newest(log, k - 1);
    SameTextCons(log[|log| - k], Newest(log, k - 1), msg, now);
  }

  lemma {:induction false} SameTextCons(e: Entry, rest: seq<Entry>, msg: string, now: int)
    ensures SameText([e] + rest, msg, now) == SameText([e], msg, now) + SameText(rest, msg, now)
    decreases |rest|
  {
    if rest == [] {
      assert [e] + rest == [e];
    } else {
      SameTextCons(e, rest[..|rest| - 1], msg, now);
      assert ([e] + rest)[..|rest|] == [e] + rest[..|rest| - 1];
    }
  }

  /** The oldest slot is exactly 900 s old and holds the same text. */
  predicate Corner(log: seq<Entry>, msg: string, now: int) {
    Probe(log, 0).at >= now - WINDOW && Probe(log, 0).msg == msg
  }

  /** The ring and the log agree exactly unless the oldest of 100 messages is
      exactly 900 s old, has this text, and one of the newest four has it too. */
  lemma RingAgreesWithLog(log: seq<Entry>, msg: string, now: int)
    requires Ordered(log, now) && now > WINDOW
    ensures Decides(log, msg, now) == LogAllows(log, msg, now) <==>
            !(|log| >= SLOTS && log[|log| - SLOTS] == Entry(msg, now - WINDOW) &&
              SameText(Newest(log, 4), msg, now) == 1)
    ensures Decides(log, msg, now) ==> LogAllows(log, msg, now)
  {
    RecentIsSuffix(log, now, SLOTS);
    NewestText(log, msg, now, 4);
  }

  // ----- The documented rule -----

  function TextCount(log: seq<Entry>, msg: string): nat {
    if log == [] then 0
    else TextCount(log[..|log| - 1], msg) + if log[|log| - 1].msg == msg then 1 else 0
  }

  /** What the comment on the type promises: at most 100 messages in any 900 s, and
      with this one at most two equal ones among the last five, however old. */
  predicate DocAllows(log: seq<Entry>, msg: string, now: int) {
    Recent(log, now) < SLOTS && TextCount(Newest(log, 4), msg) < 2
  }

  lemma {:induction false} YoungAreCounted(log: seq<Entry>, msg: string, now: int)
    ensures SameText(log, msg, now) <= TextCount(log, msg)
    decreases |log|
  {
    if log != [] {
      YoungAreCounted(log[..|log| - 1], msg, now);
    }
  }

  /** The two ways in which the code departs from the documented rule, and no other:
      it sends although two of the newest four have the text, when fewer than two of
      them (the oldest of 100 included) are at most 900 s old; and it drops although
      only one has it, when the oldest of 100 has it too at exactly 900 s. */
  lemma CodeAgainstDocumented(log: seq<Entry>, msg: string, now: int)
    requires Ordered(log, now) && now > WINDOW
    ensures Decides(log, msg, now) && !DocAllows(log, msg, now) <==>
            && Recent(log, now) < SLOTS && TextCount(Newest(log, 4), msg) >= 2
            && SameText(Newest(log, 4), msg, now) + (if Corner(log, msg, now) then 1 else 0) < 2
    ensures !Decides(log, msg, now) && DocAllows(log, msg, now) <==>
            && |log| >= SLOTS && log[|log| - SLOTS] == Entry(msg, now - WINDOW)
            && TextCount(Newest(log, 4), msg) == SameText(Newest(log, 4), msg, now) == 1
  {
    RecentIsSuffix(log, now, SLOTS);
    NewestText(log, msg, now, 4);
    YoungAreCounted(Newest(log, 4), msg, now);
  }

  // ----- Runs -----

  datatype Call = Call(msg: string, now: int)

  ghost predicate ClockRuns(calls: seq<Call>) {
    && (forall i, j :: 0 <= i < j < |calls| ==> calls[i].now <= calls[j].now)
    && (forall i :: 0 <= i < |calls| ==> calls[i].now > WINDOW)
  }

  /** The messages accepted by a sequence of allow calls. */
  function Accepted(calls: seq<Call>): seq<Entry> {
    if calls == [] then []
    else
      var log, c := Accepted(calls[..|calls| - 1]), calls[|calls| - 1];
      if Decides(log, c.msg, c.now) then log + [Entry(c.msg, c.now)] else log
  }

  /** The reader loop of main: every matching line asks a fresh limiter in turn. */
  method Serve(calls: seq<Call>) returns (sent: seq<Entry>)
    requires ClockRuns(calls)
    ensures sent == Accepted(calls)
  {
    var limiter := new Limiter();
    sent := [];
    for k := 0 to |calls|
      invariant limiter.Valid() && fresh(limiter) && fresh(limiter.history)
      invariant sent == limiter.log == Accepted(calls[..k])
    {
      assert calls[..k + 1][..k] == calls[..k];
      var ok := limiter.Allow(calls[k].msg, calls[k].now);
      if ok {
        sent := sent + [Entry(calls[k].msg, calls[k].now)];
      }
    }
    assert calls[..|calls|] == calls;
  }

  ghost predicate Spaced(log: seq<Entry>) {
    forall k :: 0 <= k && k + SLOTS < |log| ==> log[k + SLOTS].at - log[k].at >= WINDOW
  }

  ghost predicate NoThreeAlike(log: seq<Entry>) {
    forall i, j, k :: 0 <= i < j < k < |log| && k < i + 5 && log[i].msg == log[j].msg == log[k].msg ==>
      log[k].at - log[i].at > WINDOW
  }

  lemma DupsCountTwo(log: seq<Entry>, msg: string, now: int, a: nat, b: nat)
    requires 1 <= a < b <= 4 && b <= |log|
    requires log[|log| - a].msg == msg && log[|log| - a].at >= now - WINDOW
    requires log[|log| - b].msg == msg && log[|log| - b].at >= now - WINDOW
    ensures Dups(log, msg, now, 5) >= 2
  {
    assert Dups(log, msg, now, 5) == Dups(log, msg, now, 4) + if Probe(log, 4).at >= now - WINDOW && Probe(log, 4).msg == msg then 1 else 0;
    assert Dups(log, msg, now, 4) == Dups(log, msg, now, 3) + if Probe(log, 3).at >= now - WINDOW && Probe(log, 3).msg == msg then 1 else 0;
    assert Dups(log, msg, now, 3) == Dups(log, msg, now, 2) + if Probe(log, 2).at >= now - WINDOW && Probe(log, 2).msg == msg then 1 else 0;
    assert Dups(log, msg, now, 2) == Dups(log, msg, now, 1) + if Probe(log, 1).at >= now - WINDOW && Probe(log, 1).msg == msg then 1 else 0;
  }

  ghost predicate Limited(log: seq<Entry>, now: int) {
    Ordered(log, now) && Spaced(log) && NoThreeAlike(log)
  }

  /** Over every run with a non-decreasing clock: accepted messages 100 apart
      are at least 900 s apart, and three equal ones among any five consecutive
      ones span more than 900 s. */
  lemma {:induction false} RunIsLimited(calls: seq<Call>, now: int)
    requires ClockRuns(calls) && forall i :: 0 <= i < |calls| ==> calls[i].now <= now
    ensures Limited(Accepted(calls), now)
    decreases |calls|
  {
    if calls == [] {
    } else {
      var front, c := calls[..|calls| - 1], calls[|calls| - 1];
      if Decides(Accepted(front), c.msg, c.now) {
        RunIsLimited(front, c.now);
        AcceptKeepsOrder(Accepted(front), c.msg, c.now, now);
        AcceptKeepsLimits(Accepted(front), c.msg, c.now);
      } else {
        RunIsLimited(front, now);
      }
    }
  }

  lemma AcceptKeepsOrder(log: seq<Entry>, msg: string, now: int, later: int)
    requires Ordered(log, now) && WINDOW < now <= later
    ensures Ordered(log + [Entry(msg, now)], later)
  {
  }

  lemma AcceptKeepsLimits(log: seq<Entry>, msg: string, now: int)
    requires Limited(log, now) && Decides(log, msg, now)
    ensures Spaced(log + [Entry(msg, now)]) && NoThreeAlike(log + [Entry(msg, now)])
  {
    var log' := log + [Entry(msg, now)];
    forall k | 0 <= k && k + SLOTS < |log'|
      ensures log'[k + SLOTS].at - log'[k].at >= WINDOW
    {
      assert k + SLOTS < |log| ==> log[k + SLOTS].at - log[k].at >= WINDOW;
    }
    AcceptKeepsVariety(log, msg, now);
  }

  lemma AcceptKeepsVariety(log: seq<Entry>, msg: string, now: int)
    requires Ordered(log, now) && NoThreeAlike(log) && Decides(log, msg, now)
    ensures NoThreeAlike(log + [Entry(msg, now)])
  {
    var log' := log + [Entry(msg, now)];
    forall i, j, k | 0 <= i < j < k < |log'| && k < i + 5 && log'[i].msg == log'[j].msg == log'[k].msg
      ensures log'[k].at - log'[i].at > WINDOW
    {
      if k == |log| && log[i].at >= now - WINDOW {
        DupsCountTwo(log, msg, now, k - j, k - i);
        assert false;
      }
    }
  }

  function InWindow(log: seq<Entry>, from: int): nat {
    if log == [] then 0
    else InWindow(log[..|log| - 1], from) + if from <= log[|log| - 1].at < from + WINDOW then 1 else 0
  }

  lemma {:induction false} EarlierOnesAreOut(log: seq<Entry>, from: int, m: nat)
    requires m <= |log| && forall i :: 0 <= i < m ==> log[i].at < from
    ensures InWindow(log, from) <= |log| - m
    decreases |log|
  {
    if log != [] {
      EarlierOnesAreOut(log[..|log| - 1], from, if m == |log| then m - 1 else m);
    }
  }

  lemma {:induction false} SpacedFitsWindow(log: seq<Entry>, from: int, now: int)
    requires Ordered(log, now) && Spaced(log)
    ensures InWindow(log, from) <= SLOTS
    decreases |log|
  {
    if |log| > SLOTS {
      var n := |log| - 1;
      if from <= log[n].at < from + WINDOW {
        assert log[n - SLOTS].at <= log[n].at - WINDOW by {
          assert log[(n - SLOTS) + SLOTS].at - log[n - SLOTS].at >= WINDOW;
        }
        EarlierOnesAreOut(log, from, n - SLOTS + 1);
      } else {
        SpacedFitsWindow(log[..n], from, now);
      }
    } else {
      EarlierOnesAreOut(log, from, 0);
    }
  }

  /** No half-open 900 s window ever holds more than 100 accepted messages. */
  lemma WindowHoldsAtMost100(calls: seq<Call>, from: int)
    requires ClockRuns(calls)
    ensures InWindow(Accepted(calls), from) <= SLOTS
  {
    var now := if calls == [] then 0 else calls[|calls| - 1].now;
    RunIsLimited(calls, now);
    SpacedFitsWindow(Accepted(calls), from, now);
  }

  /** At most two equal texts among any five consecutive messages. */
  ghost predicate AtMostTwoOfFive(log: seq<Entry>) {
    forall i, j, k :: 0 <= i < j < k < |log| && k < i + 5 ==> !(log[i].msg == log[j].msg == log[k].msg)
  }

  /** A run keeps the documented bound exactly when no text comes back a third time
      within five accepted messages after more than 900 s. */
  lemma RunKeepsDocumented(calls: seq<Call>)
    requires ClockRuns(calls)
    ensures var log := Accepted(calls);
            AtMostTwoOfFive(log) <==>
            !exists i, j, k :: 0 <= i < j < k < |log| && k < i + 5 && log[i].msg == log[j].msg == log[k].msg
                               && log[k].at > log[i].at + WINDOW
  {
    RunIsLimited(calls, if calls == [] then 0 else calls[|calls| - 1].now);
  }

  /** The documented "at most 2 among the last 5" ignores age and is not kept. */
  lemma OldTextMayRepeat()
    ensures var t := 2 * WINDOW; var calls := [Call("x", t), Call("x", 2 * t), Call("x", 3 * t)];
            ClockRuns(calls) && Accepted(calls) == [Entry("x", t), Entry("x", 2 * t), Entry("x", 3 * t)]
  {
    var t := 2 * WINDOW;
    var calls := [Call("x", t), Call("x", 2 * t), Call("x", 3 * t)];
    assert calls[..2] == [Call("x", t), Call("x", 2 * t)] && calls[..2][..1] == [Call("x", t)] && calls[..1][..0] == [];
    assert Accepted(calls[..1]) == [Entry("x", t)] by { NoOldDups([], "x", t); }
    assert Accepted(calls[..2]) == [Entry("x", t), Entry("x", 2 * t)] by { NoOldDups(Accepted(calls[..1]), "x", 2 * t); }
    NoOldDups(Accepted(calls[..2]), "x", 3 * t);
  }

  lemma NoOldDups(log: seq<Entry>, msg: string, now: int)
    requires now > WINDOW && |log| < SLOTS
    requires forall i :: 0 <= i < |log| ==> log[i].at < now - WINDOW
    ensures Decides(log, msg, now)
  {
    NoOldDupsUpTo(log, msg, now, 5);
  }

  lemma {:induction false} NoOldDupsUpTo(log: seq<Entry>, msg: string, now: int, k: nat)
    requires now > WINDOW && |log| < SLOTS
    requires forall i :: 0 <= i < |log| ==> log[i].at < now - WINDOW
    ensures Dups(log, msg, now, k) == 0
  {
    if k > 0 {
      NoOldDupsUpTo(log, msg, now, k - 1);
    }
  }

  // ----- A run into the corner -----

  /** The first and the hundredth text are equal, all others differ. */
  function CornerText(i: nat): string {
    if i == 0 || i == SLOTS - 1 then "x" else seq(i + 1, _ => 'y')
  }

  const START: int := 2 * WINDOW

  function CornerCalls(n: nat): (r: seq<Call>)
    ensures |r| == n
  {
    seq(n, i requires 0 <= i < n => Call(CornerText(i), START))
  }

  function CornerLog(n: nat): (r: seq<Entry>)
    ensures |r| == n
  {
    seq(n, i requires 0 <= i < n => Entry(CornerText(i), START))
  }

  lemma {:induction false} NoDups(log: seq<Entry>, msg: string, now: int, k: nat)
    requires forall i :: 0 <= i < k ==> Probe(log, i).msg != msg || Probe(log, i).at < now - WINDOW
    ensures Dups(log, msg, now, k) == 0
  {
    if k > 0 {
      NoDups(log, msg, now, k - 1);
    }
  }

  lemma {:induction false} CornerRun(n: nat)
    requires n <= SLOTS
    ensures Accepted(CornerCalls(n)) == CornerLog(n)
  {
    if n > 0 {
      CornerRun(n - 1);
      var log := CornerLog(n - 1);
      assert CornerCalls(n)[..n - 1] == CornerCalls(n - 1);
      forall i | 0 <= i < 5 ensures Probe(log, i).msg != CornerText(n - 1) || Probe(log, i).at < START - WINDOW {
        if 0 < i <= n - 1 {
          assert Probe(log, i).msg == CornerText(n - 1 - i) && |CornerText(n - 1 - i)| != |CornerText(n - 1)|;
        }
      }
      NoDups(log, CornerText(n - 1), START, 5);
      assert CornerLog(n) == log + [Entry(CornerText(n - 1), START)];
    }
  }

  /** The corner can be reached: 100 messages at one moment, the last like the first,
      and the same text again exactly 900 s later is dropped though the log allows it. */
  lemma CornerIsReached()
    ensures var log := Accepted(CornerCalls(SLOTS));
            && ClockRuns(CornerCalls(SLOTS)) && Ordered(log, START + WINDOW)
            && !Decides(log, "x", START + WINDOW) && LogAllows(log, "x", START + WINDOW) && DocAllows(log, "x", START + WINDOW)
  {
    CornerRun(SLOTS);
    var log, now := CornerLog(SLOTS), START + WINDOW;
    CornerNewest(log);
    RingAgreesWithLog(log, "x", now);
    CodeAgainstDocumented(log, "x", now);
  }

  lemma CornerNewest(log: seq<Entry>)
    requires log == CornerLog(SLOTS)
    ensures SameText(Newest(log, 4), "x", START + WINDOW) == TextCount(Newest(log, 4), "x") == 1
  {
    var last := Newest(log, 4);
    assert |last| == 4 && last[3].msg == "x" && forall i :: 0 <= i < 3 ==> |last[i].msg| > 1;
    NoneOf(last[..3], "x", START + WINDOW);
  }

  lemma {:induction false} NoneOf(log: seq<Entry>, msg: string, now: int)
    requires forall i :: 0 <= i < |log| ==> log[i].msg != msg
    ensures SameText(log, msg, now) == TextCount(log, msg) == 0
    decreases |log|
  {
    if log != [] {
      NoneOf(log[..|log| - 1], msg, now);
    }
  }
}
