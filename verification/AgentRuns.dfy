/** What each message does to the guest agent of GuestAgent, in every state that a
    run reaches, said in terms of its flags, counters, drives and launches. */
module AgentRuns {
  import opened Bits
  import opened PasswordCodec
  import opened GuestAgent
  import Quote = ShellQuote

  /** How a run begins: demo mode, the timers that could be set, which drives are printers. */
  datatype Setup = Setup(demo: bool, mountTimer: bool, scriptTimer: bool, printers: seq<bool>)

  function World0(s: Setup): World {
    Start(s.demo, s.mountTimer, s.scriptTimer, s.printers)
  }

  ghost predicate Linked(c: Config, dm: Daemon) {
    Paired(c, dm) && |c.key2| == KEYLEN
  }

  /** The guest after some events. */
  ghost function Now(c: Config, dm: Daemon, s: Setup, events: seq<Event>): Guest
    requires Linked(c, dm)
  {
    Run(c, dm, World0(s), events).guest
  }

  lemma NextGuest(c: Config, dm: Daemon, s: Setup, events: seq<Event>, m: Message)
    requires Linked(c, dm) && !Now(c, dm, s, events).hung
    requires m.SockData? ==> m.datagram in Run(c, dm, World0(s), events).replies
    ensures var h := Handle(c, Now(c, dm, s, events), m);
            Now(c, dm, s, events + [GuestGets(m)]) == if h.hung then h else WipeCheck(h)
  {
    RunSnoc(c, dm, World0(s), events, GuestGets(m));
  }

  lemma Reached(c: Config, dm: Daemon, s: Setup, events: seq<Event>)
    requires Linked(c, dm)
    ensures Inv(c, dm, s.demo, Run(c, dm, World0(s), events))
    ensures c.key1 == dm.key1 && c.key2 == dm.key2
  {
    RunKeeps(c, dm, s.demo, s.mountTimer, s.scriptTimer, s.printers, events);
    KeysSurvive(c, dm);
  }

  // ----- Mounting -----

  /** Printers wait until the fifth round. */
  predicate Due(d: Drive, rounds: nat) {
    !d.printer || rounds + 1 > 4
  }

  /** A round connects every drive that is due and can be connected, tries exactly the
      unconnected drives that are due, in order, and touches nothing else. */
  ghost predicate RoundOf(before: Work, after: Work, mounts: set<nat>, pass: Secret) {
    && |after.drives| == |before.drives| && after.rounds == before.rounds + 1
    && (forall i :: 0 <= i < |before.drives| ==>
          && after.drives[i].printer == before.drives[i].printer
          && (after.drives[i].success <==> before.drives[i].success || (i in mounts && Due(before.drives[i], before.rounds))))
    && before.tries <= after.tries
    && TriesOf(before.drives, |before.drives|, before.rounds, mounts, pass, after.tries[|before.tries|..])
  }

  /** The tries made for the first n drives: for unconnected ones that are due, ... */
  ghost predicate Wanted(drives: seq<Drive>, n: nat, rounds: nat, mounts: set<nat>, pass: Secret, tries: seq<Try>)
    requires n <= |drives|
  {
    forall t :: t in tries ==>
      t.drive < n && t.pass == pass && (t.ok <==> t.drive in mounts) && !drives[t.drive].success && Due(drives[t.drive], rounds)
  }

  /** ... in the order of the drives, ... */
  ghost predicate Rising(tries: seq<Try>) {
    forall j, k :: 0 <= j < k < |tries| ==> tries[j].drive < tries[k].drive
  }

  /** ... and for all of them. */
  ghost predicate Covered(drives: seq<Drive>, n: nat, rounds: nat, mounts: set<nat>, pass: Secret, tries: seq<Try>)
    requires n <= |drives|
  {
    forall i :: 0 <= i < n && !drives[i].success && Due(drives[i], rounds) ==> Try(i, i in mounts, pass) in tries
  }

  ghost predicate TriesOf(drives: seq<Drive>, n: nat, rounds: nat, mounts: set<nat>, pass: Secret, tries: seq<Try>)
    requires n <= |drives|
  {
    Wanted(drives, n, rounds, mounts, pass, tries) && Rising(tries) && Covered(drives, n, rounds, mounts, pass, tries)
  }

  lemma NextTry(drives: seq<Drive>, n: nat, rounds: nat, mounts: set<nat>, pass: Secret)
    requires n < |drives|
    ensures var front := TriesUpTo(drives, n, rounds + 1 > 4, mounts, pass);
            TriesUpTo(drives, n + 1, rounds + 1 > 4, mounts, pass) ==
            if !drives[n].success && Due(drives[n], rounds) then front + [Try(n, n in mounts, pass)] else front
  {
  }

  lemma {:induction false} TriesAreOf(drives: seq<Drive>, n: nat, rounds: nat, mounts: set<nat>, pass: Secret)
    requires n <= |drives|
    ensures TriesOf(drives, n, rounds, mounts, pass, TriesUpTo(drives, n, rounds + 1 > 4, mounts, pass))
  {
    if n > 0 {
      var m: nat := n - 1;
      TriesAreOf(drives, m, rounds, mounts, pass);
      NextTry(drives, m, rounds, mounts, pass);
      MoreTries(drives, m, rounds, mounts, pass, TriesUpTo(drives, m, rounds + 1 > 4, mounts, pass));
    }
  }

  lemma MoreTries(drives: seq<Drive>, n: nat, rounds: nat, mounts: set<nat>, pass: Secret, front: seq<Try>)
    requires n < |drives| && TriesOf(drives, n, rounds, mounts, pass, front)
    ensures var all := if !drives[n].success && Due(drives[n], rounds) then front + [Try(n, n in mounts, pass)] else front;
            TriesOf(drives, n + 1, rounds, mounts, pass, all)
  {
    MoreWanted(drives, n, rounds, mounts, pass, front);
    MoreRising(drives, n, rounds, mounts, pass, front);
    MoreCovered(drives, n, rounds, mounts, pass, front);
  }

  lemma MoreWanted(drives: seq<Drive>, n: nat, rounds: nat, mounts: set<nat>, pass: Secret, front: seq<Try>)
    requires n < |drives| && Wanted(drives, n, rounds, mounts, pass, front)
    ensures Wanted(drives, n + 1, rounds, mounts, pass, front)
    ensures !drives[n].success && Due(drives[n], rounds) ==>
              Wanted(drives, n + 1, rounds, mounts, pass, front + [Try(n, n in mounts, pass)])
  {
  }

  lemma MoreRising(drives: seq<Drive>, n: nat, rounds: nat, mounts: set<nat>, pass: Secret, front: seq<Try>)
    requires n < |drives| && Wanted(drives, n, rounds, mounts, pass, front) && Rising(front)
    ensures Rising(front + [Try(n, n in mounts, pass)])
  {
    assert forall k :: 0 <= k < |front| ==> front[k] in front;
  }

  lemma MoreCovered(drives: seq<Drive>, n: nat, rounds: nat, mounts: set<nat>, pass: Secret, front: seq<Try>)
    requires n < |drives| && Covered(drives, n, rounds, mounts, pass, front)
    ensures drives[n].success || !Due(drives[n], rounds) ==> Covered(drives, n + 1, rounds, mounts, pass, front)
    ensures Covered(drives, n + 1, rounds, mounts, pass, front + [Try(n, n in mounts, pass)])
  {
  }

  /** What mountNetworkShares does to its drives. */
  lemma RoundConnects(work: Work, mounts: set<nat>, pass: Secret)
    ensures RoundOf(work, MountRound(work, mounts, pass), mounts, pass)
  {
    var after := MountRound(work, mounts, pass);
    TriesAreOf(work.drives, |work.drives|, work.rounds, mounts, pass);
    assert after.tries[|work.tries|..] == TriesUpTo(work.drives, |work.drives|, work.rounds + 1 > 4, mounts, pass);
  }

  /** A mount tick with a password performs a round, and the phase ends when all drives
      are connected, after 30 s, or with the 15th attempt. */
  lemma RunTickMounts(c: Config, dm: Daemon, s: Setup, events: seq<Event>, send: SendResult, elapsed: nat, mounts: set<nat>)
    requires Linked(c, dm) && c.shareOk
    requires var g := Now(c, dm, s, events); !g.hung && !g.mountDone && g.spass != Missing
    ensures var g, h := Now(c, dm, s, events), Now(c, dm, s, events + [GuestGets(MountTimer(send, elapsed, mounts))]);
            && RoundOf(g.work, h.work, mounts, Known(Password(dm, s.demo)))
            && (h.mountDone <==> (forall i :: 0 <= i < |h.work.drives| ==> h.work.drives[i].success) || elapsed >= 30000 || g.attempts >= 14)
            && h.entered == g.entered + 1 && h.launches == g.launches && h.scriptDone == g.scriptDone
            && (!h.mountDone ==> h.attempts == g.attempts + 1)
  {
    Reached(c, dm, s, events);
    NextGuest(c, dm, s, events, MountTimer(send, elapsed, mounts));
    RoundConnects(Now(c, dm, s, events).work, mounts, Known(Password(dm, s.demo)));
  }

  /** A mount tick without a password sends the request, as far as the socket allows, and
      gives up with the tenth attempt. */
  lemma RunTickAsks(c: Config, dm: Daemon, s: Setup, events: seq<Event>, send: SendResult, elapsed: nat, mounts: set<nat>)
    requires Linked(c, dm) && c.shareOk
    requires var g := Now(c, dm, s, events); !g.hung && !g.mountDone && g.spass == Missing
    ensures var g, h := Now(c, dm, s, events), Now(c, dm, s, events + [GuestGets(MountTimer(send, elapsed, mounts))]);
            && h.work == g.work && h.spass == Missing && h.launches == g.launches && h.scriptDone == g.scriptDone
            && h.attempts == g.attempts + 1 && (h.mountDone <==> g.attempts >= 9)
            && (h.sockOpen <==> g.sockOpen || send.NotSent? || send.Sent?)
            && h.outbox == (if send.Sent? then g.outbox + {dm.key1} else g.outbox)
  {
    Reached(c, dm, s, events);
    NextGuest(c, dm, s, events, MountTimer(send, elapsed, mounts));
  }

  /** Without a share file the first mount tick ends the phase. */
  lemma RunTickWithoutShares(c: Config, dm: Daemon, s: Setup, events: seq<Event>, send: SendResult, elapsed: nat, mounts: set<nat>)
    requires Linked(c, dm) && !c.shareOk && !Now(c, dm, s, events).hung
    ensures var g, h := Now(c, dm, s, events), Now(c, dm, s, events + [GuestGets(MountTimer(send, elapsed, mounts))]);
            h.mountDone && h.work == g.work && h.outbox == g.outbox
  {
    NextGuest(c, dm, s, events, MountTimer(send, elapsed, mounts));
  }

  // ----- The script -----

  /** A script tick with usable credentials launches exactly one script, whose command
      line splits into user and password whenever both can be read from it. */
  lemma RunScriptLaunches(c: Config, dm: Daemon, s: Setup, events: seq<Event>)
    requires Linked(c, dm)
    requires var g := Now(c, dm, s, events); !g.hung && !g.scriptDone && g.spass != Missing
    requires c.widen(c.user).Some? && c.widen(Password(dm, s.demo)).Some?
    requires Quote.CallsReturn(c.widen(c.user).value, c.widen(Password(dm, s.demo)).value)
    ensures var h := Now(c, dm, s, events + [GuestGets(ScriptTimer)]);
            var user, pass := c.widen(c.user).value, c.widen(Password(dm, s.demo)).value;
            && h.scriptDone && !h.hung && |h.launches| == 1
            && h.launches[0].params == Quote.Params(user, pass)
            && (Quote.Arguments(h.launches[0].params) == [user, pass] <==> Quote.Readable(user, pass))
  {
    Reached(c, dm, s, events);
    NextGuest(c, dm, s, events, ScriptTimer);
    Quote.ParamsRoundTrip(c.widen(c.user).value, c.widen(Password(dm, s.demo)).value);
  }

  /** A script tick without usable credentials counts a failure; the 13th is the last. */
  lemma RunScriptFails(c: Config, dm: Daemon, s: Setup, events: seq<Event>)
    requires Linked(c, dm)
    requires var g := Now(c, dm, s, events);
             !g.hung && !g.scriptDone && (g.spass == Missing || c.widen(c.user).None? || c.widen(Password(dm, s.demo)).None?)
    ensures var g, h := Now(c, dm, s, events), Now(c, dm, s, events + [GuestGets(ScriptTimer)]);
            h.fails == g.fails + 1 && h.launches == g.launches && (h.scriptDone <==> g.fails == 12)
  {
    Reached(c, dm, s, events);
    NextGuest(c, dm, s, events, ScriptTimer);
  }

  lemma MessageKeepsReason(c: Config, g: Guest, m: Message)
    requires |c.key2| == KEYLEN && (!g.scriptDone ==> g.fails <= 12)
    requires g.scriptDone ==> g.launches != [] || g.fails == 13
    ensures var h := Dispatch(c, g, m); h.scriptDone ==> h.launches != [] || h.fails == 13
  {
    match m {
      case MountTimer(send, elapsed, mounts) => MountTickKeepsScript(c, g, send, elapsed, mounts);
      case ScriptTimer =>
      case SockData(d, mounts) => UdpKeepsScript(c, g, d, mounts);
      case OtherMessage =>
    }
  }

  ghost predicate SameScript(g: Guest, h: Guest) {
    h.scriptDone == g.scriptDone && h.launches == g.launches && h.fails == g.fails && h.hung == g.hung
  }

  lemma MountTickKeepsScript(c: Config, g: Guest, send: SendResult, elapsed: nat, mounts: set<nat>)
    ensures SameScript(g, MountTick(c, g, send, elapsed, mounts))
  {
    if !g.mountDone && c.shareOk {
      if g.spass.Missing? {
        QueryKeepsScript(c, g, send);
        assert MountTick(c, g, send, elapsed, mounts) == QueryTick(c, g, send);
      } else {
        SharesKeepScript(c, g, elapsed, mounts);
        assert MountTick(c, g, send, elapsed, mounts) == SharesTick(c, g, elapsed, mounts);
      }
    }
  }

  lemma QueryKeepsScript(c: Config, g: Guest, send: SendResult)
    ensures SameScript(g, QueryTick(c, g, send))
  {
  }

  lemma SharesKeepScript(c: Config, g: Guest, elapsed: nat, mounts: set<nat>)
    ensures SameScript(g, SharesTick(c, g, elapsed, mounts))
  {
  }

  lemma UdpKeepsScript(c: Config, g: Guest, d: Datagram, mounts: set<nat>)
    requires |c.key2| == KEYLEN
    ensures SameScript(g, UdpReceived(c, g, d, mounts))
  {
  }

  /** With a script timer, the script is done only after a launch or 13 failures. */
  lemma {:induction false} RunScriptDoneReason(c: Config, dm: Daemon, s: Setup, events: seq<Event>)
    requires Linked(c, dm) && s.scriptTimer
    ensures var g := Now(c, dm, s, events); g.scriptDone ==> |g.launches| == 1 || g.fails == 13
    decreases |events|
  {
    Reached(c, dm, s, events);
    if events != [] {
      var front, ev := events[..|events| - 1], events[|events| - 1];
      RunScriptDoneReason(c, dm, s, front);
      Reached(c, dm, s, front);
      if ev.GuestGets? {
        MessageKeepsReason(c, Now(c, dm, s, front), ev.message);
      }
    }
  }

  // ----- Replies and the wipe -----

  /** The daemon answers exactly the requests that begin with its first key. */
  lemma RunAnswers(c: Config, dm: Daemon, s: Setup, events: seq<Event>, request: Datagram)
    requires Linked(c, dm)
    ensures var w, w' := Run(c, dm, World0(s), events), Run(c, dm, World0(s), events + [DaemonGets(request)]);
            && w'.guest == w.guest
            && w'.replies == if |request| >= 16 && request[..16] == dm.key1 then w.replies + {Reply(dm.password, dm.key2)} else w.replies
  {
    RunSnoc(c, dm, World0(s), events, DaemonGets(request));
  }

  /** A reply that reaches an open socket installs a password of up to 198 bytes, closes
      the socket and performs a mount round; a longer one changes nothing. */
  lemma RunReceives(c: Config, dm: Daemon, s: Setup, events: seq<Event>, mounts: set<nat>)
    requires Linked(c, dm) && c.shareOk
    requires var w := Run(c, dm, World0(s), events); !w.guest.hung && w.guest.sockOpen && Reply(dm.password, dm.key2) in w.replies
    ensures var g := Now(c, dm, s, events);
            var h := Now(c, dm, s, events + [GuestGets(SockData(Reply(dm.password, dm.key2), mounts))]);
            if |dm.password| <= 198
            then && !h.sockOpen && RoundOf(g.work, h.work, mounts, Known(dm.password))
                 && h.spass == (if g.mountDone && g.scriptDone then Wiped else Known(dm.password))
            else h.spass == Missing && h.sockOpen && h.work == g.work
  {
    Reached(c, dm, s, events);
    ReplyRoundTrip(dm.password, dm.key2);
    NextGuest(c, dm, s, events, SockData(Reply(dm.password, dm.key2), mounts));
    RoundConnects(Now(c, dm, s, events).work, mounts, Known(dm.password));
  }

  /** After every handled message: with both phases done no password is left in memory. */
  lemma RunWipes(c: Config, dm: Daemon, s: Setup, events: seq<Event>, m: Message)
    requires Linked(c, dm) && !Now(c, dm, s, events + [GuestGets(m)]).hung
    requires m.SockData? ==> m.datagram in Run(c, dm, World0(s), events).replies
    ensures var h := Now(c, dm, s, events + [GuestGets(m)]);
            h.mountDone && h.scriptDone ==> h.spass == Missing || (h.spass == Wiped && h.deleted)
  {
    var g := Now(c, dm, s, events);
    RunSnoc(c, dm, World0(s), events, GuestGets(m));
    Reached(c, dm, s, events + [GuestGets(m)]);
    DispatchWipes(c, g, m);
  }

  lemma DispatchWipes(c: Config, g: Guest, m: Message)
    requires |c.key2| == KEYLEN && !Dispatch(c, g, m).hung
    ensures var h := Dispatch(c, g, m); h.mountDone && h.scriptDone ==> h.spass == Missing || h.deleted
  {
    WipeCheckWipes(Handle(c, g, m));
  }

  lemma WipeCheckWipes(g: Guest)
    ensures var h := WipeCheck(g); h.mountDone && h.scriptDone ==> h.spass == Missing || h.deleted
  {
  }
}
